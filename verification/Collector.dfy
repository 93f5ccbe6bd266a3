/** axis_s against any AXI4-Stream master: arbitrary gaps, keep words and packet boundaries. */
module Collector {
  import opened Bytes
  import opened Compaction
  import opened Nic

  type Wire = seq<Option<TBeat>>

  // ----- What the stream means --------------------------------------------------------------

  /** The bytes of the packet that TLAST has not ended yet. */
  function Unfinished(wire: Wire): seq<byte> {
    if wire == [] then []
    else match Last(wire)
      case None => Unfinished(Front(wire))
      case Some(b) => if b.last then [] else Unfinished(Front(wire)) + Gather(b.data, b.keep)
  }

  /** The packets on the stream: the kept bytes up to each TLAST. */
  function Packets(wire: Wire): seq<seq<byte>> {
    if wire == [] then []
    else match Last(wire)
      case None => Packets(Front(wire))
      case Some(b) =>
        if b.last then Packets(Front(wire)) + [Unfinished(Front(wire)) + Gather(b.data, b.keep)]
        else Packets(Front(wire))
  }

  // ----- What axis_s does -------------------------------------------------------------------

  function Exec(wire: Wire): Sink {
    if wire == [] then SinkReset() else SinkNext(Exec(Front(wire)), Last(wire))
  }

  function Sent(wire: Wire): seq<seq<byte>> {
    if wire == [] then []
    else Sent(Front(wire)) + if Sends(Last(wire)) then [Unwrap(Exec(wire).size, Exec(wire).data)] else []
  }

  // ----- When the two agree -----------------------------------------------------------------

  /** TLAST never comes on a beat without bytes. */
  predicate LastHasBytes(wire: Wire) {
    forall k :: 0 <= k < |wire| && wire[k].Some? && wire[k].value.last ==> wire[k].value.keep != 0
  }

  function Cut(p: seq<byte>): seq<byte> {
    if |p| <= BUFF_SIZE then p else p[..BUFF_SIZE]
  }

  function CutAll(ps: seq<seq<byte>>): (r: seq<seq<byte>>)
    ensures |r| == |ps| && forall k :: 0 <= k < |r| ==> r[k] == Cut(ps[k])
  {
    seq(|ps|, k requires 0 <= k < |ps| => Cut(ps[k]))
  }

  lemma {:induction false} GatherNothing(d: seq<byte>)
    ensures Gather(d, 0) == []
  {
    if d != [] { GatherNothing(d[1..]); }
  }

  /** The sink holds these bytes, as far as its buffer reaches. */
  predicate Holding(s: Sink, p: seq<byte>) {
    && |s.data| == BUFF_SIZE
    && (s.state == Idle ==> p == []) && (s.state == Data ==> s.size == |p|)
    && forall k :: 0 <= k < |p| && k < BUFF_SIZE ==> s.data[k] == p[k]
  }

  /** A beat with bytes is appended; a last one hands the packet over, cut to the buffer. */
  lemma TakeBeat(s: Sink, p: seq<byte>, b: TBeat)
    requires Holding(s, p) && b.keep != 0
    ensures var s', p' := SinkNext(s, Some(b)), p + Gather(b.data, b.keep);
            && (!b.last ==> Holding(s', p'))
            && (b.last ==> Holding(s', []) && Unwrap(s'.size, s'.data) == Cut(p'))
  {
    var g := Gather(b.data, b.keep);
    var s', p' := SinkNext(s, Some(b)), p + g;
    assert s'.size == |p'|;
    assert forall k :: 0 <= k < |p'| && k < BUFF_SIZE ==> s'.data[k] == p'[k];
  }

  lemma {:induction false} HoldsUnfinished(wire: Wire)
    requires LastHasBytes(wire)
    ensures Holding(Exec(wire), Unfinished(wire))
    ensures Sent(wire) == CutAll(Packets(wire))
  {
    if wire != [] {
      var front := Front(wire);
      assert forall k :: 0 <= k < |front| ==> front[k] == wire[k];
      HoldsUnfinished(front);
      if Last(wire).Some? {
        var b := Last(wire).value;
        if b.keep == 0 {
          GatherNothing(b.data);
        } else {
          TakeBeat(Exec(front), Unfinished(front), b);
        }
      }
    }
  }

  lemma {:induction false} Counts(wire: Wire)
    ensures |Sent(wire)| <= |Packets(wire)|
    ensures |Sent(wire)| == |Packets(wire)| <==> LastHasBytes(wire)
  {
    if wire != [] {
      var front := Front(wire);
      Counts(front);
      assert forall k :: 0 <= k < |front| ==> front[k] == wire[k];
      assert LastHasBytes(wire) <==>
             LastHasBytes(front) && (Last(wire).Some? && Last(wire).value.last ==> Last(wire).value.keep != 0);
    }
  }

  /** Over every stream, with any gaps, the packets handed to QEMU are the packets of the stream, in
      order and byte for byte, if and only if TLAST always comes with at least one byte and no packet
      is longer than the buffer. */
  lemma CollectorExact(wire: Wire)
    ensures Sent(wire) == Packets(wire)
            <==> LastHasBytes(wire) && forall k :: 0 <= k < |Packets(wire)| ==> |Packets(wire)[k]| <= BUFF_SIZE
  {
    Counts(wire);
    if LastHasBytes(wire) {
      HoldsUnfinished(wire);
      var ps := Packets(wire);
      if CutAll(ps) == ps {
        forall k | 0 <= k < |ps| ensures |ps[k]| <= BUFF_SIZE { assert CutAll(ps)[k] == Cut(ps[k]); }
      }
    }
  }
}
