/** The messages exchanged between QEMU and the HDL simulation (acc.h). */
module Frames {
  import opened Bytes

  datatype Op = Noop | Read | Write | Intr | Init

  /** ACCData. */
  datatype Frame = Frame(
    id: nat, dataSize: nat, address: nat, op: Op, bar: nat, data: seq<byte>, vector: nat)

  /** data_size means something for READ and WRITE only; elsewhere it may be stack residue. */
  predicate WellFormed(f: Frame) {
    |f.data| == BUFF_SIZE && (f.op == Read || f.op == Write ==> f.dataSize <= BUFF_SIZE)
  }
}
