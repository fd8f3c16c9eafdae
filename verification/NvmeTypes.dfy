/** Queue entries of the NVM Express Base Specification 1.4, sections 4.2 and 4.6. */
module NvmeTypes {

  /** Maximum number of entries of a queue. */
  const QUEUE_LENGTH: nat := 1024

  /** The fields of a submission entry that the driver sets to something other than zero. */
  datatype Command = Command(opcode: nat, cId: nat, nsId: nat, prp1: nat, prp2: nat,
                             cdw10: nat, cdw11: nat, cdw12: nat)

  /** A completion entry; bit 0 of `status` is the phase tag. */
  datatype Completion = Completion(sqHead: nat, cId: nat, status: nat)

  predicate PhaseTag(c: Completion) {
    c.status % 2 == 1
  }

  function StatusCode(c: Completion): nat {
    c.status / 2
  }

  /** The entry with its phase tag set by the controller. */
  function Tagged(c: Completion, tag: bool): (r: Completion)
    ensures PhaseTag(r) == tag && StatusCode(r) == StatusCode(c)
    ensures r.sqHead == c.sqHead && r.cId == c.cId
  {
    c.(status := c.status / 2 * 2 + if tag then 1 else 0)
  }
}
