/** Sizing and decoding the six base address registers of a PCI function. */
module PciBars {

  datatype MemoryBarType = Width32 | Below1MiB | Width64

  datatype BarInfo =
    | Memory(addressType: MemoryBarType, prefetchable: bool, address: bv64, size: bv32)
    | IO(ioAddress: bv32, ioSize: bv32)
    | Unused

  datatype Result = Ok(bars: seq<BarInfo>) | InvalidBarType

  /** A register: its value and the bits that a write can change. */
  datatype Register = Register(value: bv32, writable: bv32)

  function Written(r: Register, v: bv32): Register {
    r.(value := (v & r.writable) | (r.value & !r.writable))
  }

  /** Six registers. */
  type Registers = s: seq<Register> | |s| == 6 witness seq(6, _ => Register(0, 0))

  // ----- What the registers say -----

  /** The size found by writing all ones and reading back. */
  function SizeOf(r: Register): bv32 {
    !(Written(r, 0xffffffff).value & 0xfffffff0) + 1
  }

  predicate IsIo(v: bv32) {
    v & 1 == 1
  }

  function TypeBits(v: bv32): bv32 {
    (v & 6) >> 1
  }

  predicate Prefetchable(v: bv32) {
    v & 8 != 0
  }

  function MemoryBase(v: bv32): bv32 {
    v & 0xfffffff0
  }

  function IoBase(v: bv32): bv32 {
    v & 0xfffffffc
  }

  predicate Wide(r: Register) {
    SizeOf(r) != 0 && !IsIo(r.value) && TypeBits(r.value) == 2
  }

  /** Register `i` is the upper half of the 64-bit register before it. */
  predicate Upper(regs: Registers, i: int)
    requires 0 <= i <= 6
    decreases i
  {
    i > 0 && !Upper(regs, i - 1) && Wide(regs[i - 1])
  }

  predicate Invalid(regs: Registers, i: int)
    requires 0 <= i < 6
  {
    && !Upper(regs, i) && SizeOf(regs[i]) != 0 && !IsIo(regs[i].value)
    && (TypeBits(regs[i].value) == 3 || (TypeBits(regs[i].value) == 2 && i == 5))
  }

  /** `MemoryBarType::try_from`, where it succeeds. */
  function TypeOf(bits: bv32): MemoryBarType {
    if bits == 0 then Width32 else if bits == 1 then Below1MiB else Width64
  }

  function Join(low: bv32, top: bv32): bv64 {
    (low as bv64) | ((top as bv64) << 32)
  }

  function Decoded(regs: Registers, i: int): BarInfo
    requires 0 <= i < 6 && !Invalid(regs, i)
  {
    var v := regs[i].value;
    if Upper(regs, i) || SizeOf(regs[i]) == 0 then Unused
    else if IsIo(v) then IO(IoBase(v), SizeOf(regs[i]))
    else
      Memory(TypeOf(TypeBits(v)), Prefetchable(v),
             Join(MemoryBase(v), if TypeBits(v) == 2 then regs[i + 1].value else 0), SizeOf(regs[i]))
  }

  // ----- The probing loop -----

  /** A function's configuration space; `probed` notes every register written. */
  class ConfigSpace {
    var regs: Registers
    ghost var probed: set<int>

    method ReadConfig(i: int) returns (v: bv32)
      requires 0 <= i < 6
      ensures v == regs[i].value
    {
      v := regs[i].value;
    }

    method WriteConfig(i: int, v: bv32)
      requires 0 <= i < 6
      modifies this
      ensures regs == old(regs)[i := Written(old(regs)[i], v)] && probed == old(probed) + {i}
    {
      regs := regs[i := Written(regs[i], v)];
      probed := probed + {i};
    }

    /** Probing leaves the register as it was. */
    method Probe(i: int) returns (orig: bv32, size: bv32)
      requires 0 <= i < 6
      modifies this
      ensures regs == old(regs) && probed == old(probed) + {i}
      ensures orig == regs[i].value && size == SizeOf(regs[i])
    {
      orig := ReadConfig(i);
      WriteConfig(i, 0xffffffff);
      var mask := ReadConfig(i);
      size := !(mask & 0xfffffff0) + 1;
      WriteConfig(i, orig);
      WriteBack(old(regs)[i]);
    }

    /** One register that is not an upper half. */
    method DecodeRegister(i: int, orig: bv32, size: bv32) returns (invalid: bool, info: BarInfo, wide: bool)
      requires 0 <= i < 6 && !Upper(regs, i) && orig == regs[i].value && size == SizeOf(regs[i])
      ensures invalid <==> Invalid(regs, i)
      ensures !invalid ==> info == Decoded(regs, i) && (wide <==> Wide(regs[i]))
    {
      hide SizeOf, Upper, IsIo, TypeBits, TypeOf, Prefetchable, MemoryBase, IoBase, Join;
      invalid, info, wide := false, Unused, false;
      if size == 0 {
        return;
      }
      if IsIo(orig) {
        info := IO(IoBase(orig), size);
        return;
      }
      wide := TypeBits(orig) == 2;
      if TypeBits(orig) == 3 || (wide && i >= 5) {
        invalid := true;
        return;
      }
      var top := 0;
      if wide {
        top := ReadConfig(i + 1);
      }
      info := Memory(TypeOf(TypeBits(orig)), Prefetchable(orig), Join(MemoryBase(orig), top), size);
    }

    /** `pci_bar_init`: the registers are as before in every case, an upper half is never written, and
        the result is an error exactly when some register is invalid. */
    method BarInit() returns (r: Result)
      modifies this
      ensures regs == old(regs)
      ensures forall i :: i in probed ==> i in old(probed) || (0 <= i < 6 && !Upper(regs, i))
      ensures r.Ok? <==> forall i :: 0 <= i < 6 ==> !Invalid(regs, i)
      ensures r.Ok? ==> |r.bars| == 6 && forall i :: 0 <= i < 6 ==> r.bars[i] == Decoded(regs, i)
    {
      hide SizeOf, Wide, Invalid, Decoded;
      var bars := seq(6, _ => Unused);
      var ignore, index := 255, 0;
      while index < 6
        invariant 0 <= index <= 6 && regs == old(regs) && |bars| == 6
        invariant ignore == index <==> Upper(regs, index)
        invariant ignore <= index || ignore == 255
        invariant forall i :: 0 <= i < index ==> !Invalid(regs, i) && bars[i] == Decoded(regs, i)
        invariant forall i :: index <= i < 6 ==> bars[i] == Unused
        invariant forall i :: i in probed ==> i in old(probed) || (0 <= i < 6 && !Upper(regs, i))
      {
        if index == ignore {
          UpperUnused(regs, index);
        } else {
          var orig, size := Probe(index);
          var invalid, info, wide := DecodeRegister(index, orig, size);
          if invalid {
            return InvalidBarType;
          }
          bars := bars[index := info];
          if wide {
            ignore := index + 1;
          }
        }
        index := index + 1;
      }
      r := Ok(bars);
    }
  }

  lemma UpperUnused(regs: Registers, i: int)
    requires 0 <= i < 6 && Upper(regs, i)
    ensures !Invalid(regs, i) && Decoded(regs, i) == Unused
  {
  }

  lemma WriteBack(r: Register)
    ensures Written(Written(r, 0xffffffff), r.value) == r
  {
    assert ((r.value & r.writable) | (((0xffffffff & r.writable) | (r.value & !r.writable)) & !r.writable)) == r.value;
  }

  // ----- What a device's decoders look like in the registers -----

  /** The bits from `k` up: what a decoder of 2^k bytes lets software write. */
  function From(k: bv32): bv32
    requires k <= 31
  {
    !((1 << k) - 1)
  }

  function Bytes(k: bv32): bv32
    requires k <= 31
  {
    1 << k
  }

  /** The address bits. */
  function Base(r: Register): bv32 {
    r.value & r.writable
  }

  /** A memory decoder of 2^k bytes: the bits below `k` read back as the type and prefetch flags.  Type 3 is
      reserved. */
  ghost predicate MemoryDecoder(r: Register, k: bv32, bits: bv32, prefetch: bool) {
    && 4 <= k <= 31 && bits <= 3 && r.writable == From(k)
    && r.value & !r.writable == (bits << 1) | if prefetch then 8 else 0
  }

  /** The size of an implemented memory register is found exactly, with its address and flags. */
  lemma MemoryBarExact(r: Register, k: bv32, bits: bv32, prefetch: bool)
    requires MemoryDecoder(r, k, bits, prefetch)
    ensures k <= 31 && SizeOf(r) == Bytes(k) && SizeOf(r) != 0
    ensures !IsIo(r.value) && TypeBits(r.value) == bits && (Prefetchable(r.value) <==> prefetch)
    ensures MemoryBase(r.value) == Base(r)
  {
  }

  /** A 64-bit decoder of 2^k bytes, whatever its size: the two registers hold the low and high half of
      the writable bits. */
  ghost predicate WideDecoder(low: Register, k: bv64) {
    && 4 <= k <= 63 && low.writable == (if k <= 31 then From(k as bv32) else 0)
    && (low.value & !low.writable) | 8 == 4 | 8
  }

  /** Its size is right exactly when it is below 4 GiB; above, the register is taken for unused, and
      its upper half for a register of its own. */
  lemma WideBarExactIff(low: Register, k: bv64)
    requires WideDecoder(low, k)
    ensures SizeOf(low) as bv64 == (1 as bv64) << k <==> k <= 31
    ensures Wide(low) <==> k <= 31
  {
  }

  lemma WideUpperProbed(regs: Registers, i: int, k: bv64)
    requires 0 <= i < 5 && !Upper(regs, i) && WideDecoder(regs[i], k)
    ensures Upper(regs, i + 1) <==> k <= 31
    ensures k > 31 ==> !Invalid(regs, i) && Decoded(regs, i) == Unused
  {
    WideBarExactIff(regs[i], k);
  }

  /** An I/O decoder of 2^k bytes. */
  ghost predicate IoDecoder(r: Register, k: bv32) {
    2 <= k <= 31 && r.writable == From(k) && r.value & !r.writable == 1
  }

  /** The size of an I/O register is right exactly from 16 bytes on: the two low address bits of a
      smaller one are masked away with the flags. */
  lemma IoBarExactIff(r: Register, k: bv32)
    requires IoDecoder(r, k)
    ensures k <= 31 && IsIo(r.value) && IoBase(r.value) == Base(r)
    ensures SizeOf(r) == Bytes(k) <==> k >= 4
    ensures k < 4 ==> SizeOf(r) == 16
    ensures SizeOf(r) != 0
  {
    assert Written(r, 0xffffffff).value == From(k) | 1;
    IoSize(k);
  }

  lemma IoSize(k: bv32)
    requires 2 <= k <= 31
    ensures !((From(k) | 1) & 0xfffffff0) + 1 == if k < 4 then 16 else 1 << k
    ensures k < 4 ==> (1 as bv32) << k != 16
  {
  }

  /** An I/O decoder that implements only sixteen address bits, the upper ones reading as zero. */
  ghost predicate NarrowIoDecoder(r: Register, k: bv32) {
    2 <= k <= 15 && r.writable == From(k) & 0xffff && r.value & !r.writable == 1
  }

  /** Its size is never right: the bits that read as zero are counted as size. */
  lemma NarrowIoBarWrong(r: Register, k: bv32)
    requires NarrowIoDecoder(r, k)
    ensures IsIo(r.value) && SizeOf(r) == 0xffff0000 + (if k < 4 then 16 else Bytes(k)) && SizeOf(r) != Bytes(k)
  {
    assert Written(r, 0xffffffff).value == (From(k) & 0xffff) | 1;
    NarrowIoSize(k);
  }

  lemma NarrowIoSize(k: bv32)
    requires 2 <= k <= 15
    ensures !(((From(k) & 0xffff) | 1) & 0xfffffff0) + 1 == 0xffff0000 + (if k < 4 then 16 else 1 << k)
    ensures Bytes(k) <= 0x8000
  {
  }

  /** The two halves of a 64-bit address can be told apart again. */
  lemma JoinHalves(low: bv32, top: bv32)
    ensures Join(low, top) & 0xffffffff == low as bv64 && Join(low, top) >> 32 == top as bv64
  {
  }

  // ----- A whole device -----

  /** What a device implements at one register. */
  datatype Slot =
    | Absent
    | MemorySlot(k: bv32, belowOneMiB: bool, prefetch: bool)
    | WideSlot(k: bv32, prefetch: bool)
    | UpperSlot
    | IoSlot(k: bv32)
    | ReservedSlot(k: bv32, prefetch: bool)

  ghost predicate Fits(r: Register, slot: Slot) {
    match slot
    case Absent => r == Register(0, 0)
    case MemorySlot(k, below, prefetch) => MemoryDecoder(r, k, if below then 1 else 0, prefetch)
    case WideSlot(k, prefetch) => MemoryDecoder(r, k, 2, prefetch)
    case UpperSlot => true
    case IoSlot(k) => k >= 4 && IoDecoder(r, k)
    case ReservedSlot(k, prefetch) => MemoryDecoder(r, k, 3, prefetch)
  }

  /** The registers are those of a device with these slots; an upper half follows each 64-bit slot. */
  ghost predicate Implements(regs: Registers, slots: seq<Slot>) {
    && |slots| == 6 && !slots[0].UpperSlot?
    && (forall i :: 0 <= i < 6 ==> Fits(regs[i], slots[i]))
    && (forall i :: 0 <= i < 5 ==> (slots[i + 1].UpperSlot? <==> slots[i].WideSlot?))
  }

  /** A register that no size or address can be reported for: a reserved type, or a 64-bit decoder that has no
      register left for its upper half. */
  ghost predicate Unreportable(slots: seq<Slot>, i: int)
    requires |slots| == 6 && 0 <= i < 6
  {
    slots[i].ReservedSlot? || (i == 5 && slots[i].WideSlot?)
  }

  /** What should be reported of a slot: the writable address bits and 2^k. */
  ghost function Reported(regs: Registers, slots: seq<Slot>, i: int): BarInfo
    requires |slots| == 6 && 0 <= i < 6 && !Unreportable(slots, i)
    requires slots[i].MemorySlot? || slots[i].WideSlot? || slots[i].IoSlot? ==> slots[i].k <= 31
  {
    var base := Base(regs[i]);
    match slots[i]
    case Absent => Unused
    case MemorySlot(k, below, prefetch) =>
      Memory(if below then Below1MiB else Width32, prefetch, Join(base, 0), Bytes(k))
    case WideSlot(k, prefetch) => Memory(Width64, prefetch, Join(base, regs[i + 1].value), Bytes(k))
    case UpperSlot => Unused
    case IoSlot(k) => IO(base, Bytes(k))
  }

  lemma AbsentSize()
    ensures SizeOf(Register(0, 0)) == 0
  {
  }

  lemma SlotFacts(r: Register, slot: Slot)
    requires Fits(r, slot) && !slot.UpperSlot?
    ensures Wide(r) <==> slot.WideSlot?
    ensures slot.Absent? ==> SizeOf(r) == 0
  {
    hide SizeOf, IsIo, TypeBits, Prefetchable, MemoryBase, IoBase, Base, Bytes, MemoryDecoder, IoDecoder;
    match slot {
      case Absent => AbsentSize();
      case MemorySlot(k, below, prefetch) => MemoryBarExact(r, k, if below then 1 else 0, prefetch);
      case WideSlot(k, prefetch) => MemoryBarExact(r, k, 2, prefetch);
      case IoSlot(k) => IoBarExactIff(r, k);
      case ReservedSlot(k, prefetch) => MemoryBarExact(r, k, 3, prefetch);
    }
  }

  lemma {:induction false} UpperIff(regs: Registers, slots: seq<Slot>, i: int)
    requires Implements(regs, slots) && 0 <= i < 6
    ensures Upper(regs, i) <==> slots[i].UpperSlot?
    decreases i
  {
    hide Fits, Wide;
    if i == 0 {
    } else {
      UpperIff(regs, slots, i - 1);
      if !slots[i - 1].UpperSlot? {
        SlotFacts(regs[i - 1], slots[i - 1]);
      }
    }
  }

  /** A memory register is decoded as its decoder says. */
  lemma DecodedMemory(regs: Registers, i: int, k: bv32, bits: bv32, prefetch: bool)
    requires 0 <= i < 6 && !Upper(regs, i) && MemoryDecoder(regs[i], k, bits, prefetch)
    ensures k <= 31 && (Invalid(regs, i) <==> bits == 3 || (bits == 2 && i == 5))
    ensures !Invalid(regs, i) ==>
      var top := if bits == 2 then regs[i + 1].value else 0;
      Decoded(regs, i) == Memory(TypeOf(bits), prefetch, Join(Base(regs[i]), top), Bytes(k))
  {
    assert bits <= 3;
    hide Upper, SizeOf, Base, Bytes, IsIo, TypeBits, Prefetchable, MemoryBase, IoBase, Join, MemoryDecoder;
    MemoryBarExact(regs[i], k, bits, prefetch);
  }

  lemma DecodedAbsent(regs: Registers, i: int)
    requires 0 <= i < 6 && regs[i] == Register(0, 0)
    ensures !Invalid(regs, i) && Decoded(regs, i) == Unused
  {
    SlotFacts(regs[i], Absent);
  }

  lemma DecodedIo(regs: Registers, i: int, k: bv32)
    requires 0 <= i < 6 && !Upper(regs, i) && IoDecoder(regs[i], k) && k >= 4
    ensures k <= 31 && !Invalid(regs, i) && Decoded(regs, i) == IO(Base(regs[i]), Bytes(k))
  {
    hide Upper, SizeOf, Base, Bytes, IsIo, TypeBits, Prefetchable, MemoryBase, IoBase, Join, IoDecoder;
    IoBarExactIff(regs[i], k);
  }

  /** Of every device whose memory registers are below 4 GiB and whose I/O registers have at least 16 bytes,
      exactly the registers that cannot be reported are invalid, and the others are reported as they are. */
  lemma DeviceExact(regs: Registers, slots: seq<Slot>, i: int)
    requires Implements(regs, slots) && 0 <= i < 6
    ensures slots[i].MemorySlot? || slots[i].WideSlot? || slots[i].IoSlot? ==> slots[i].k <= 31
    ensures Invalid(regs, i) <==> Unreportable(slots, i)
    ensures !Invalid(regs, i) ==> Decoded(regs, i) == Reported(regs, slots, i)
  {
    UpperIff(regs, slots, i);
    assert Fits(regs[i], slots[i]);
    match slots[i] {
      case Absent => DecodedAbsent(regs, i);
      case MemorySlot(k, below, prefetch) => DecodedMemory(regs, i, k, if below then 1 else 0, prefetch);
      case WideSlot(k, prefetch) => DecodedMemory(regs, i, k, 2, prefetch);
      case UpperSlot => UpperUnused(regs, i);
      case IoSlot(k) => DecodedIo(regs, i, k);
      case ReservedSlot(k, prefetch) => DecodedMemory(regs, i, k, 3, prefetch);
    }
    hide Upper, SizeOf, Base, Bytes, Join, Decoded, Invalid, Fits, Implements;
  }
}
