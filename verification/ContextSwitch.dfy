/** Saving and restoring a thread's registers: the interrupt frame, `push_context`, `pop_context` and
    the `Context` structure they have to agree with. */
module ContextSwitch {

  /** The registers of a thread: the fields of `Context`, in their order. */
  datatype Field =
    | Cr3 | R15 | R14 | R13
    | R12 | R11 | R10 | R9
    | R8 | Rbp | Rsi | Rdi
    | Rdx | Rcx | Rbx | Rax
    | Rip | Cs | Rflags | Rsp | Ss

  const FIELDS: nat := 21
  const WORD: nat := 8

  /** Position of a field in the packed structure. */
  function Offset(f: Field): (i: nat)
    ensures i < FIELDS
  {
    match f
    case Cr3 => 0 case R15 => 1 case R14 => 2 case R13 => 3
    case R12 => 4 case R11 => 5 case R10 => 6 case R9 => 7
    case R8 => 8 case Rbp => 9 case Rsi => 10 case Rdi => 11
    case Rdx => 12 case Rcx => 13 case Rbx => 14 case Rax => 15
    case Rip => 16 case Cs => 17 case Rflags => 18 case Rsp => 19 case Ss => 20
  }

  /** A value for every field. */
  type Context = c: seq<nat> | |c| == FIELDS witness seq(FIELDS, _ => 0)

  function Get(c: Context, f: Field): nat {
    c[Offset(f)]
  }

  function Put(c: Context, f: Field, v: nat): Context {
    c[Offset(f) := v]
  }

  type Memory = map<int, nat>

  function Word(mem: Memory, a: int): nat {
    if a in mem then mem[a] else 0
  }

  /** The words from `a` on. */
  ghost predicate Image(mem: Memory, a: int, words: seq<nat>) {
    forall i :: 0 <= i < |words| ==> Word(mem, a + WORD * i) == words[i]
  }

  /** `Context::from_address`. */
  function ContextAt(mem: Memory, a: int): Context {
    seq(FIELDS, i requires 0 <= i < FIELDS => Word(mem, a + WORD * i))
  }

  lemma ImageIsContext(mem: Memory, a: int, c: Context)
    ensures Image(mem, a, c) <==> ContextAt(mem, a) == c
  {
    if ContextAt(mem, a) == c {
      forall i | 0 <= i < FIELDS ensures Word(mem, a + WORD * i) == c[i] {
        assert c[i] == ContextAt(mem, a)[i];
      }
    }
  }

  // ----- Machine -----

  /** The registers, the current stack pointer and memory. */
  datatype Machine = Machine(regs: Context, sp: int, mem: Memory)

  datatype Instr = Push(f: Field) | Pop(f: Field) | ReadCr3(f: Field) | WriteCr3(f: Field)

  function PushWord(m: Machine, v: nat): Machine {
    m.(sp := m.sp - WORD, mem := m.mem[m.sp - WORD := v])
  }

  function Step(m: Machine, i: Instr): Machine {
    match i
    case Push(f) => PushWord(m, Get(m.regs, f))
    case Pop(f) => m.(regs := Put(m.regs, f, Word(m.mem, m.sp)), sp := m.sp + WORD)
    case ReadCr3(f) => m.(regs := Put(m.regs, f, Get(m.regs, Cr3)))
    case WriteCr3(f) => m.(regs := Put(m.regs, Cr3, Get(m.regs, f)))
  }

  function Exec(m: Machine, program: seq<Instr>): Machine
    decreases |program|
  {
    if program == [] then m else Exec(Step(m, program[0]), program[1..])
  }

  /** Operands of the pushes of `push_context!` and of the pops of `pop_context!`, in program order. */
  const PUSHED: seq<Field> := [Rax, Rbx, Rcx, Rdx, Rdi, Rsi, Rbp, R8, R9, R10, R11, R12, R13, R14, R15]

  const POPPED: seq<Field> := [R15, R14, R13, R12, R11, R10, R9, R8, Rbp, Rsi, Rdi, Rdx, Rcx, Rbx, Rax]

  function Pushes(fs: seq<Field>): (code: seq<Instr>)
    ensures |code| == |fs|
  {
    seq(|fs|, i requires 0 <= i < |fs| => Push(fs[i]))
  }

  function Pops(fs: seq<Field>): (code: seq<Instr>)
    ensures |code| == |fs|
  {
    seq(|fs|, i requires 0 <= i < |fs| => Pop(fs[i]))
  }

  function PushContext(): seq<Instr> {
    Pushes(PUSHED) + [ReadCr3(R15), Push(R15)]
  }

  function PopContext(): seq<Instr> {
    [Pop(R15), WriteCr3(R15)] + Pops(POPPED)
  }

  lemma {:induction false} ExecAppend(m: Machine, a: seq<Instr>, b: seq<Instr>)
    ensures Exec(m, a + b) == Exec(Exec(m, a), b)
    decreases |a|
  {
    if a == [] {
      assert a + b == b;
    } else {
      assert (a + b)[0] == a[0] && (a + b)[1..] == a[1..] + b;
      ExecAppend(Step(m, a[0]), a[1..], b);
    }
  }

  lemma ExecTwo(m: Machine, i: Instr, j: Instr)
    ensures Exec(m, [i, j]) == Step(Step(m, i), j)
  {
    assert [i, j][1..] == [j] && [j][1..] == [];
    assert Exec(m, [i, j]) == Exec(Step(m, i), [j]) == Exec(Step(Step(m, i), j), []);
  }

  /** Pushing grows the image at the stack pointer downwards. */
  lemma PushImage(m: Machine, v: nat, words: seq<nat>)
    requires Image(m.mem, m.sp, words)
    ensures Image(PushWord(m, v).mem, PushWord(m, v).sp, [v] + words)
  {
    var n, w := PushWord(m, v), [v] + words;
    forall i | 0 <= i < |w| ensures Word(n.mem, n.sp + WORD * i) == w[i] {
      if i > 0 {
        assert Word(m.mem, m.sp + WORD * (i - 1)) == words[i - 1];
        assert n.sp + WORD * i == m.sp + WORD * (i - 1);
      }
    }
  }

  /** Fields `fs` lie in the structure end to end, last first, from position `at` on. */
  ghost predicate Descending(fs: seq<Field>, at: nat) {
    forall k :: 0 <= k < |fs| ==> Offset(fs[k]) == at + |fs| - 1 - k
  }

  /** ... or first first. */
  ghost predicate Ascending(fs: seq<Field>, at: nat) {
    forall k :: 0 <= k < |fs| ==> Offset(fs[k]) == at + k
  }

  /** Pushing fields from the end of the structure backwards builds the structure. */
  lemma {:induction false} PushesImage(m: Machine, fs: seq<Field>, at: nat)
    requires Descending(fs, at) && at + |fs| <= FIELDS && Image(m.mem, m.sp, m.regs[at + |fs|..])
    ensures var n := Exec(m, Pushes(fs));
      n.sp == m.sp - WORD * |fs| && n.regs == m.regs && Image(n.mem, n.sp, m.regs[at..])
    decreases |fs|
  {
    if fs == [] {
    } else {
      var v := Get(m.regs, fs[0]);
      PushImage(m, v, m.regs[at + |fs|..]);
      assert [v] + m.regs[at + |fs|..] == m.regs[at + |fs| - 1..];
      assert Pushes(fs)[1..] == Pushes(fs[1..]);
      PushesImage(PushWord(m, v), fs[1..], at);
    }
  }

  // ----- Saving -----

  /** What the processor pushes on an interrupt. */
  const FRAME: seq<Field> := [Ss, Rsp, Rflags, Cs, Rip]

  function InterruptFrame(regs: Context, top: int, mem: Memory): Machine {
    Exec(Machine(regs, top, mem), Pushes(FRAME))
  }

  /** The machine when the timer handler is called. */
  function Saved(regs: Context, top: int, mem: Memory): Machine {
    Exec(InterruptFrame(regs, top, mem), PushContext())
  }

  lemma DescendingAppend(a: seq<Field>, b: seq<Field>, at: nat)
    requires Descending(a, at + |b|) && Descending(b, at)
    ensures Descending(a + b, at)
  {
  }

  lemma AscendingAppend(a: seq<Field>, b: seq<Field>, at: nat)
    requires Ascending(a, at) && Ascending(b, at + |a|)
    ensures Ascending(a + b, at)
  {
  }

  lemma PushedOrder()
    ensures Descending(FRAME, 16) && Descending(PUSHED, 1)
  {
    var a, b, c := [Rax, Rbx, Rcx, Rdx, Rdi], [Rsi, Rbp, R8, R9, R10], [R11, R12, R13, R14, R15];
    assert Descending(a, 11) && Descending(b, 6) && Descending(c, 1);
    hide Descending;
    DescendingAppend(b, c, 1);
    DescendingAppend(a, b + c, 1);
    assert PUSHED == a + (b + c);
  }

  lemma PoppedOrder()
    ensures Ascending(POPPED, 1) && Ascending(RETURN, 16)
  {
    var a, b, c := [R15, R14, R13, R12, R11], [R10, R9, R8, Rbp, Rsi], [Rdi, Rdx, Rcx, Rbx, Rax];
    assert Ascending(RETURN, 16) && Ascending(a, 1) && Ascending(b, 6) && Ascending(c, 11);
    hide Ascending;
    AscendingAppend(b, c, 6);
    AscendingAppend(a, b + c, 1);
    assert POPPED == a + (b + c);
  }

  /** The stack image that the interrupt and `push_context` build is, field for field, the `Context`
      of the interrupted thread, and the handler's argument points at it. */
  lemma SavedContext(regs: Context, top: int, mem: Memory)
    ensures Saved(regs, top, mem).sp == top - WORD * FIELDS
    ensures ContextAt(Saved(regs, top, mem).mem, top - WORD * FIELDS) == regs
  {
    PushedOrder();
    hide Descending, Exec, Pushes;
    var start := Machine(regs, top, mem);
    assert regs[16 + 5..] == [];
    PushesImage(start, FRAME, 16);
    var m := InterruptFrame(regs, top, mem);
    PushesImage(m, PUSHED, 1);
    ExecAppend(m, Pushes(PUSHED), [ReadCr3(R15), Push(R15)]);
    var n := Exec(m, Pushes(PUSHED));
    ExecTwo(n, ReadCr3(R15), Push(R15));
    hide Image;
    var v := Get(regs, Cr3);
    PushImage(Step(n, ReadCr3(R15)), v, regs[1..]);
    assert [v] + regs[1..] == regs;
    ImageIsContext(Saved(regs, top, mem).mem, top - WORD * FIELDS, regs);
  }

  lemma {:induction false} PushesFrame(m: Machine, fs: seq<Field>, a: int)
    requires a < m.sp - WORD * |fs| || m.sp <= a
    ensures Word(Exec(m, Pushes(fs)).mem, a) == Word(m.mem, a) && Exec(m, Pushes(fs)).sp == m.sp - WORD * |fs|
    decreases |fs|
  {
    if fs == [] {
    } else {
      assert Pushes(fs)[1..] == Pushes(fs[1..]);
      PushesFrame(PushWord(m, Get(m.regs, fs[0])), fs[1..], a);
    }
  }

  /** Saving writes nothing but the stack below `top`. */
  lemma SavedFrame(regs: Context, top: int, mem: Memory, a: int)
    requires a < top - WORD * FIELDS || top <= a
    ensures Word(Saved(regs, top, mem).mem, a) == Word(mem, a)
  {
    hide Exec, Pushes;
    PushesFrame(Machine(regs, top, mem), FRAME, a);
    var m := InterruptFrame(regs, top, mem);
    PushesFrame(m, PUSHED, a);
    ExecAppend(m, Pushes(PUSHED), [ReadCr3(R15), Push(R15)]);
    ExecTwo(Exec(m, Pushes(PUSHED)), ReadCr3(R15), Push(R15));
  }

  // ----- Contexts in memory -----

  /** Two `Context` structures, or a structure and a stack image, do not overlap. */
  ghost predicate Apart(a: int, b: int) {
    a + WORD * FIELDS <= b || b + WORD * FIELDS <= a
  }

  function WriteWords(mem: Memory, a: int, words: seq<nat>): Memory
    decreases |words|
  {
    if words == [] then mem else WriteWords(mem[a := words[0]], a + WORD, words[1..])
  }

  lemma {:induction false} WordsWritten(mem: Memory, a: int, words: seq<nat>)
    ensures Image(WriteWords(mem, a, words), a, words)
    ensures forall b :: b < a || a + WORD * |words| <= b ==> Word(WriteWords(mem, a, words), b) == Word(mem, b)
    decreases |words|
  {
    if words == [] {
    } else {
      var m := mem[a := words[0]];
      WordsWritten(m, a + WORD, words[1..]);
      var w := WriteWords(mem, a, words);
      forall i | 0 <= i < |words| ensures Word(w, a + WORD * i) == words[i] {
        if i == 0 {
          assert Word(w, a) == Word(m, a);
        } else {
          assert a + WORD * i == (a + WORD) + WORD * (i - 1);
        }
      }
    }
  }

  lemma SameWords(m: Memory, n: Memory, a: int)
    requires forall i :: 0 <= i < FIELDS ==> Word(m, a + WORD * i) == Word(n, a + WORD * i)
    ensures ContextAt(m, a) == ContextAt(n, a)
  {
  }

  /** Assigning a whole structure sets it and leaves the others. */
  lemma ContextWritten(mem: Memory, a: int, c: Context, b: int)
    ensures ContextAt(WriteWords(mem, a, c), a) == c
    ensures Apart(a, b) ==> ContextAt(WriteWords(mem, a, c), b) == ContextAt(mem, b)
  {
    WordsWritten(mem, a, c);
    ImageIsContext(WriteWords(mem, a, c), a, c);
    hide WriteWords, ContextAt, Image;
    if Apart(a, b) {
      var w := WriteWords(mem, a, c);
      forall i | 0 <= i < FIELDS ensures Word(w, b + WORD * i) == Word(mem, b + WORD * i) {
      }
      SameWords(w, mem, b);
    }
  }

  /** Saving leaves every structure outside the stack image. */
  lemma SavedKeeps(regs: Context, top: int, mem: Memory, b: int)
    requires Apart(top - WORD * FIELDS, b)
    ensures ContextAt(Saved(regs, top, mem).mem, b) == ContextAt(mem, b)
  {
    hide Saved, ContextAt;
    var saved := Saved(regs, top, mem).mem;
    forall i | 0 <= i < FIELDS ensures Word(saved, b + WORD * i) == Word(mem, b + WORD * i) {
      SavedFrame(regs, top, mem, b + WORD * i);
    }
    SameWords(saved, mem, b);
  }

  // ----- Restoring -----

  /** Popping fields that lie end to end loads that part of the structure. */
  lemma {:induction false} PopsLoad(m: Machine, fs: seq<Field>, at: nat)
    requires Ascending(fs, at) && at + |fs| <= FIELDS
    ensures var n := Exec(m, Pops(fs));
      && n.sp == m.sp + WORD * |fs| && n.mem == m.mem
      && forall i :: 0 <= i < FIELDS ==>
           n.regs[i] == if at <= i < at + |fs| then Word(m.mem, m.sp + WORD * (i - at)) else m.regs[i]
    decreases |fs|
  {
    if fs == [] {
    } else {
      assert Pops(fs)[1..] == Pops(fs[1..]);
      var m' := Step(m, Pop(fs[0]));
      PopsLoad(m', fs[1..], at + 1);
    }
  }

  /** What `iretq` takes from the stack. */
  const RETURN: seq<Field> := [Rip, Cs, Rflags, Rsp, Ss]

  /** The registers after `mov rsp, rax`, `pop_context` and `iretq`, for the context at `a`. */
  function Restored(regs: Context, a: int, mem: Memory): Context {
    Exec(Exec(Machine(regs, a, mem), PopContext()), Pops(RETURN)).regs
  }

  /** `pop_context` and `iretq` load every register, `cr3` included, from the structure. */
  lemma RestoredContext(regs: Context, a: int, mem: Memory)
    ensures Restored(regs, a, mem) == ContextAt(mem, a)
  {
    PoppedOrder();
    hide Ascending, Exec, Pops, ContextAt;
    var m := Machine(regs, a, mem);
    ExecAppend(m, [Pop(R15), WriteCr3(R15)], Pops(POPPED));
    ExecTwo(m, Pop(R15), WriteCr3(R15));
    var n := Step(Step(m, Pop(R15)), WriteCr3(R15));
    assert n.regs[0] == Word(mem, a) && n.sp == a + WORD && n.mem == mem;
    PopsLoad(n, POPPED, 1);
    var k := Exec(n, Pops(POPPED));
    PopsLoad(k, RETURN, 16);
    RestoredWords(n.regs, k.regs, Restored(regs, a, mem), a, mem);
  }

  lemma RestoredWords(n: Context, k: Context, r: Context, a: int, mem: Memory)
    requires n[0] == Word(mem, a)
    requires forall i :: 0 <= i < FIELDS ==> k[i] == if 1 <= i < 16 then Word(mem, a + WORD + WORD * (i - 1)) else n[i]
    requires forall i :: 0 <= i < FIELDS ==>
      r[i] == if 16 <= i < 21 then Word(mem, a + WORD * 16 + WORD * (i - 16)) else k[i]
    ensures r == ContextAt(mem, a)
  {
    forall i | 0 <= i < FIELDS ensures r[i] == ContextAt(mem, a)[i] {
      if 16 <= i {
        assert a + WORD * 16 + WORD * (i - 16) == a + WORD * i;
      } else if 1 <= i {
        assert a + WORD + WORD * (i - 1) == a + WORD * i;
      }
    }
  }

  /** Restoring from the very image that was saved gives back every register, whatever the handler
      left in them. */
  lemma SaveRestore(regs: Context, top: int, mem: Memory, clobbered: Context)
    ensures Restored(clobbered, top - WORD * FIELDS, Saved(regs, top, mem).mem) == regs
  {
    SavedContext(regs, top, mem);
    RestoredContext(clobbered, top - WORD * FIELDS, Saved(regs, top, mem).mem);
  }
}
