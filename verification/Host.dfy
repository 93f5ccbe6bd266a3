/** handle_hdl_request in accelerator_pcie.c: QEMU drains the queue of READ, WRITE and INTR frames
    the simulation pushes. Writes are posted: the device's burst is acknowledged when its frame is
    pushed, and host memory changes when the frame is drained. */
module Host {
  import opened Bytes
  import opened Frames

  /** Host memory, the hdl_req and hdl_resp sockets, and the MSI-X vectors notified so far. */
  datatype Port = Port(mem: Memory, queue: seq<Frame>, replies: seq<Frame>, notified: seq<nat>)

  predicate AllWellFormed(q: seq<Frame>) {
    forall k :: 0 <= k < |q| ==> WellFormed(q[k])
  }

  function Apply(m: Memory, f: Frame): Memory
    requires WellFormed(f)
  {
    if f.op == Write then Store(m, f.address, f.data[..f.dataSize]) else m
  }

  /** A READ frame is filled in place and sent back. */
  function Reply(m: Memory, f: Frame): Frame {
    f.(data := Splice(f.data, 0, Load(m, f.address, f.dataSize)))
  }

  function DrainOne(p: Port): Port
    requires p.queue != [] && WellFormed(p.queue[0])
  {
    var f := p.queue[0];
    Port(Apply(p.mem, f), p.queue[1..],
         if f.op == Read then p.replies + [Reply(p.mem, f)] else p.replies,
         if f.op == Intr then p.notified + [f.vector] else p.notified)
  }

  class Device {
    var mem: Memory
    var hdlReq: seq<Frame>
    var hdlResp: seq<Frame>
    var notified: seq<nat>

    function View(): Port
      reads this
    {
      Port(mem, hdlReq, hdlResp, notified)
    }

    constructor (mem: Memory)
      ensures View() == Port(mem, [], [], [])
    {
      this.mem, hdlReq, hdlResp, notified := mem, [], [], [];
    }

    /** Runs until the poller finds the request socket empty: every queued frame has been handled, in
        order, each READ in the memory the WRITEs before it left. */
    method HandleHdlRequest()
      requires AllWellFormed(hdlReq)
      modifies this
      ensures hdlReq == []
      ensures mem == Pending(old(mem), old(hdlReq))
      ensures hdlResp == old(hdlResp) + AnswersIn(old(mem), old(hdlReq))
      ensures notified == old(notified) + VectorsIn(old(hdlReq))
    {
      ghost var q, k := hdlReq, 0;
      assert q[..0] == [];
      while hdlReq != []
        invariant k <= |q| && hdlReq == q[k..]
        invariant mem == Pending(old(mem), q[..k])
        invariant hdlResp == old(hdlResp) + AnswersIn(old(mem), q[..k])
        invariant notified == old(notified) + VectorsIn(q[..k])
        decreases |hdlReq|
      {
        var f := hdlReq[0];
        assert Front(q[..k + 1]) == q[..k] && Last(q[..k + 1]) == f;
        hdlReq := hdlReq[1..];
        k := k + 1;
        match f.op
        case Read => hdlResp := hdlResp + [f.(data := Splice(f.data, 0, Load(mem, f.address, f.dataSize)))];
        case Write => mem := Store(mem, f.address, f.data[..f.dataSize]);
        case Intr => notified := notified + [f.vector];
        case Noop =>
        case Init =>
      }
      assert q[..k] == q;
    }
  }

  // ----- What a queue of frames calls for ---------------------------------------------------

  /** Memory with a queue of frames folded over it. */
  function Pending(m: Memory, q: seq<Frame>): Memory
    requires AllWellFormed(q)
  {
    if q == [] then m else Apply(Pending(m, Front(q)), Last(q))
  }

  /** The replies to its READs. */
  function AnswersIn(m: Memory, q: seq<Frame>): seq<Frame>
    requires AllWellFormed(q)
  {
    if q == [] then []
    else AnswersIn(m, Front(q)) + if Last(q).op == Read then [Reply(Pending(m, Front(q)), Last(q))] else []
  }

  /** The vectors of its INTRs. */
  function VectorsIn(q: seq<Frame>): seq<nat> {
    if q == [] then [] else VectorsIn(Front(q)) + if Last(q).op == Intr then [Last(q).vector] else []
  }

  /** A byte of the folded memory is the memory's if no frame writes it, */
  lemma {:induction false} PendingUnwritten(m: Memory, q: seq<Frame>, a: int)
    requires AllWellFormed(q) && forall k :: 0 <= k < |q| ==> !WritesByte(q[k], a)
    ensures Pending(m, q)(a) == m(a)
  {
    if q != [] { PendingUnwritten(m, Front(q), a); }
  }

  /** and otherwise that of the last WRITE to it. */
  lemma {:induction false} PendingLast(m: Memory, q: seq<Frame>, a: int, k: nat)
    requires AllWellFormed(q) && k < |q| && WritesByte(q[k], a) && forall j :: k < j < |q| ==> !WritesByte(q[j], a)
    ensures Pending(m, q)(a) == q[k].data[a - q[k].address]
  {
    if k < |q| - 1 {
      assert forall j :: 0 <= j < |q| - 1 ==> Front(q)[j] == q[j];
      PendingLast(m, Front(q), a, k);
    }
  }

  /** The places of the frames with a given operation, in order. */
  predicate PlacesOf(q: seq<Frame>, op: Op, idx: seq<nat>) {
    && Increasing(idx) && (forall i :: 0 <= i < |idx| ==> idx[i] < |q|)
    && forall k :: 0 <= k < |q| ==> (q[k].op == op <==> k in idx)
  }

  lemma PlacesSnoc(q: seq<Frame>, op: Op, idx: seq<nat>, f: Frame)
    requires PlacesOf(q, op, idx)
    ensures PlacesOf(q + [f], op, if f.op == op then idx + [|q|] else idx)
  {
    var q' := q + [f];
    if f.op == op { assert |q| in idx + [|q|]; }
    forall k | 0 <= k < |q'| ensures q'[k].op == op <==> k in (if f.op == op then idx + [|q|] else idx) {
      if k < |q| { assert q'[k] == q[k]; }
    }
  }

  /** To the READ at place idx[i], the frame filled from the memory that the frames before it leave. */
  predicate Answered(m: Memory, q: seq<Frame>, idx: seq<nat>, out: seq<Frame>)
    requires AllWellFormed(q)
  {
    |out| == |idx| && forall i :: 0 <= i < |idx| ==> idx[i] < |q| && out[i] == AnswerTo(m, q, idx[i])
  }

  function AnswerTo(m: Memory, q: seq<Frame>, j: nat): Frame
    requires AllWellFormed(q) && j < |q|
  {
    Reply(Pending(m, q[..j]), q[j])
  }

  lemma AnswerKept(m: Memory, q: seq<Frame>, f: Frame, j: nat)
    requires AllWellFormed(q) && WellFormed(f) && j < |q|
    ensures AnswerTo(m, q + [f], j) == AnswerTo(m, q, j)
  {
    assert (q + [f])[..j] == q[..j];
  }

  lemma AnswerNew(m: Memory, q: seq<Frame>, f: Frame)
    requires AllWellFormed(q) && WellFormed(f)
    ensures AnswerTo(m, q + [f], |q|) == Reply(Pending(m, q), f)
  {
    assert (q + [f])[..|q|] == q;
  }

  lemma AnswersKept(m: Memory, q: seq<Frame>, f: Frame, idx: seq<nat>, out: seq<Frame>)
    requires AllWellFormed(q) && WellFormed(f) && Answered(m, q, idx, out)
    ensures Answered(m, q + [f], idx, out)
  {
    forall i | 0 <= i < |idx| ensures out[i] == AnswerTo(m, q + [f], idx[i]) { AnswerKept(m, q, f, idx[i]); }
  }

  lemma AnsweredSnoc(m: Memory, q: seq<Frame>, idx: seq<nat>, out: seq<Frame>, k: nat)
    requires AllWellFormed(q) && Answered(m, q, idx, out) && k < |q|
    ensures Answered(m, q, idx + [k], out + [AnswerTo(m, q, k)])
  {
  }

  /** There is one such reply to each READ, in order. */
  ghost predicate AreAnswers(m: Memory, q: seq<Frame>, out: seq<Frame>)
    requires AllWellFormed(q)
  {
    exists idx: seq<nat> :: PlacesOf(q, Read, idx) && Answered(m, q, idx, out)
  }

  lemma AreAnswersSnoc(m: Memory, q: seq<Frame>, f: Frame, out: seq<Frame>)
    requires AllWellFormed(q) && WellFormed(f) && AreAnswers(m, q, out)
    ensures AreAnswers(m, q + [f], out + if f.op == Read then [Reply(Pending(m, q), f)] else [])
  {
    var idx: seq<nat> :| PlacesOf(q, Read, idx) && Answered(m, q, idx, out);
    PlacesSnoc(q, Read, idx, f);
    AnswersKept(m, q, f, idx, out);
    if f.op == Read {
      AnswerNew(m, q, f);
      AnsweredSnoc(m, q + [f], idx, out, |q|);
      AreAnswersBy(m, q + [f], out + [Reply(Pending(m, q), f)], idx + [|q|]);
    } else {
      AreAnswersBy(m, q + [f], out, idx);
      assert out + [] == out;
    }
  }

  lemma AreAnswersBy(m: Memory, q: seq<Frame>, out: seq<Frame>, idx: seq<nat>)
    requires AllWellFormed(q) && PlacesOf(q, Read, idx) && Answered(m, q, idx, out)
    ensures AreAnswers(m, q, out)
  {
  }

  lemma {:induction false} AnswersExact(m: Memory, q: seq<Frame>)
    requires AllWellFormed(q)
    ensures AreAnswers(m, q, AnswersIn(m, q))
  {
    if q == [] {
      assert PlacesOf([], Read, []) && Answered(m, [], [], []);
    } else {
      AnswersExact(m, Front(q));
      AreAnswersSnoc(m, Front(q), Last(q), AnswersIn(m, Front(q)));
      assert q == Front(q) + [Last(q)];
    }
  }

  /** There is one vector for each INTR, in order. */
  predicate VectorsAt(q: seq<Frame>, idx: seq<nat>, out: seq<nat>) {
    |out| == |idx| && forall i :: 0 <= i < |idx| ==> idx[i] < |q| && out[i] == q[idx[i]].vector
  }

  lemma VectorsAtSnoc(q: seq<Frame>, f: Frame, idx: seq<nat>, out: seq<nat>)
    requires VectorsAt(q, idx, out)
    ensures VectorsAt(q + [f], idx, out) && VectorsAt(q + [f], idx + [|q|], out + [f.vector])
  {
  }

  ghost predicate AreVectors(q: seq<Frame>, out: seq<nat>) {
    exists idx: seq<nat> :: PlacesOf(q, Intr, idx) && VectorsAt(q, idx, out)
  }

  lemma AreVectorsSnoc(q: seq<Frame>, f: Frame, out: seq<nat>)
    requires AreVectors(q, out)
    ensures AreVectors(q + [f], out + if f.op == Intr then [f.vector] else [])
  {
    var idx: seq<nat> :| PlacesOf(q, Intr, idx) && VectorsAt(q, idx, out);
    PlacesSnoc(q, Intr, idx, f);
    VectorsAtSnoc(q, f, idx, out);
    assert out + [] == out;
  }

  lemma {:induction false} VectorsExact(q: seq<Frame>)
    ensures AreVectors(q, VectorsIn(q))
  {
    if q == [] {
      assert PlacesOf([], Intr, []) && VectorsAt([], [], []);
    } else {
      VectorsExact(Front(q));
      AreVectorsSnoc(Front(q), Last(q), VectorsIn(Front(q)));
      assert q == Front(q) + [Last(q)];
    }
  }

  // ----- Runs of the queue ------------------------------------------------------------------

  /** What can happen to the host side: the simulation pushes a frame, QEMU drains one, or the guest
      stores to memory itself. */
  datatype Event = Push(frame: Frame) | Drain | GuestStore(addr: int, data: seq<byte>)

  datatype HostOp = Dma(frame: Frame) | Guest(addr: int, data: seq<byte>)

  /** The port with its history: what was drained, every change made to memory in order, the memory
      that would result if pushed writes took effect at once, and that memory as it was when each
      queued frame was pushed. */
  datatype Link = Link(
    port: Port, drained: seq<Frame>, ops: seq<HostOp>, atomic: Memory, snaps: seq<Memory>)

  function Start(m0: Memory): Link {
    Link(Port(m0, [], [], []), [], [], m0, [])
  }

  predicate Enabled(l: Link, e: Event) {
    match e
    case Push(f) => WellFormed(f)
    case Drain => l.port.queue != [] && WellFormed(l.port.queue[0])
    case GuestStore(_, _) => true
  }

  function Step(l: Link, e: Event): Link
    requires Enabled(l, e)
  {
    match e
    case Push(f) =>
      l.(port := l.port.(queue := l.port.queue + [f]), atomic := Apply(l.atomic, f), snaps := l.snaps + [l.atomic])
    case Drain =>
      var f := l.port.queue[0];
      l.(port := DrainOne(l.port), drained := l.drained + [f],
         ops := if f.op == Write then l.ops + [Dma(f)] else l.ops,
         snaps := if l.snaps == [] then [] else l.snaps[1..])
    case GuestStore(a, d) =>
      l.(port := l.port.(mem := Store(l.port.mem, a, d)), ops := l.ops + [Guest(a, d)],
         atomic := Store(l.atomic, a, d))
  }

  // ----- Draining one frame at a time -------------------------------------------------------

  /** The port after its first k frames have been drained, one by one. */
  function Drained(p: Port, k: nat): Port
    requires AllWellFormed(p.queue) && k <= |p.queue|
    ensures Drained(p, k).queue == p.queue[k..]
  {
    if k == 0 then p else DrainOne(Drained(p, k - 1))
  }

  /** The Drain steps add up to what the loop does in one go. */
  lemma {:induction false} DrainedInTurn(p: Port, k: nat)
    requires AllWellFormed(p.queue) && k <= |p.queue|
    ensures var q := p.queue[..k];
            Drained(p, k) == Port(Pending(p.mem, q), p.queue[k..], p.replies + AnswersIn(p.mem, q), p.notified + VectorsIn(q))
  {
    if k == 0 {
      assert p.queue[..0] == [];
    } else {
      DrainedInTurn(p, k - 1);
      assert Front(p.queue[..k]) == p.queue[..k - 1] && Last(p.queue[..k]) == p.queue[k - 1];
      assert p.queue[k - 1..][0] == p.queue[k - 1];
    }
  }

  // ----- Pending writes ---------------------------------------------------------------------

  predicate Touches(f: Frame, a: int) {
    (f.op == Read || f.op == Write) && f.address <= a < f.address + f.dataSize
  }

  predicate WritesByte(f: Frame, a: int) {
    f.op == Write && Touches(f, a)
  }

  /** Folding a queue starts with its head. */
  lemma {:induction false} PendingHead(m: Memory, q: seq<Frame>, a: int)
    requires AllWellFormed(q) && q != []
    ensures Pending(m, q)(a) == Pending(Apply(m, q[0]), q[1..])(a)
  {
    var n := |q| - 1;
    if n > 0 {
      PendingHead(m, q[..n], a);
      assert q[..n][1..] == q[1..][..n - 1];
      ApplyLocal(Pending(m, q[..n]), Pending(Apply(m, q[0]), q[1..][..n - 1]), q[n], a);
    } else {
      assert q[1..] == [];
      assert Pending(m, q[..0]) == m;
    }
  }

  lemma ApplyLocal(m: Memory, m': Memory, f: Frame, a: int)
    requires WellFormed(f) && m(a) == m'(a)
    ensures Apply(m, f)(a) == Apply(m', f)(a)
  {
  }

  lemma {:induction false} PendingLocal(m: Memory, m': Memory, q: seq<Frame>, a: int)
    requires AllWellFormed(q) && m(a) == m'(a)
    ensures Pending(m, q)(a) == Pending(m', q)(a)
  {
    if q != [] {
      var n := |q| - 1;
      PendingLocal(m, m', q[..n], a);
      ApplyLocal(Pending(m, q[..n]), Pending(m', q[..n]), q[n], a);
    }
  }

  lemma {:induction false} PendingUntouched(m: Memory, q: seq<Frame>, a: int)
    requires AllWellFormed(q) && forall k :: 0 <= k < |q| ==> !Touches(q[k], a)
    ensures Pending(m, q)(a) == m(a)
  {
    if q != [] { PendingUntouched(m, q[..|q| - 1], a); }
  }

  // ----- Posted writes refine an atomic memory ----------------------------------------------

  predicate Covers(e: Event, a: int) {
    e.GuestStore? && e.addr <= a < e.addr + |e.data|
  }

  /** The guest stores to byte a only while no queued frame reads or writes it. */
  predicate Polite(l: Link, e: Event, a: int) {
    Covers(e, a) ==> forall k :: 0 <= k < |l.port.queue| ==> !Touches(l.port.queue[k], a)
  }

  /** Byte a of host memory, with the queue folded over it, is the atomic byte; and each queued frame
      that touches a will meet the atomic byte of the moment it was pushed. */
  predicate InvAt(l: Link, a: int) {
    var q := l.port.queue;
    && AllWellFormed(q) && |l.snaps| == |q|
    && Pending(l.port.mem, q)(a) == l.atomic(a)
    && forall k :: 0 <= k < |q| && Touches(q[k], a) ==> Pending(l.port.mem, q[..k])(a) == l.snaps[k](a)
  }

  lemma PushKeeps(l: Link, f: Frame, a: int)
    requires InvAt(l, a) && WellFormed(f)
    ensures InvAt(Step(l, Push(f)), a)
  {
    var q, q' := l.port.queue, l.port.queue + [f];
    assert q'[..|q|] == q;
    ApplyLocal(Pending(l.port.mem, q), l.atomic, f, a);
    forall k | 0 <= k < |q'| && Touches(q'[k], a)
      ensures Pending(l.port.mem, q'[..k])(a) == (l.snaps + [l.atomic])[k](a)
    {
      if k < |q| { assert q'[..k] == q[..k]; }
    }
  }

  lemma DrainKeeps(l: Link, a: int)
    requires InvAt(l, a) && l.port.queue != []
    ensures InvAt(Step(l, Drain), a)
  {
    var m, q := l.port.mem, l.port.queue;
    PendingHead(m, q, a);
    forall k | 0 <= k < |q| - 1 && Touches(q[1..][k], a)
      ensures Pending(Apply(m, q[0]), q[1..][..k])(a) == l.snaps[1..][k](a)
    {
      assert q[..k + 1][1..] == q[1..][..k];
      PendingHead(m, q[..k + 1], a);
    }
  }

  lemma StoreKeeps(l: Link, e: Event, a: int)
    requires InvAt(l, a) && e.GuestStore? && Polite(l, e, a)
    ensures InvAt(Step(l, e), a)
  {
    var m, q := l.port.mem, l.port.queue;
    var m' := Store(m, e.addr, e.data);
    if Covers(e, a) {
      PendingUntouched(m, q, a);
      PendingUntouched(m', q, a);
    } else {
      PendingLocal(m, m', q, a);
      forall k | 0 <= k < |q| && Touches(q[k], a) ensures Pending(m', q[..k])(a) == l.snaps[k](a) {
        PendingLocal(m, m', q[..k], a);
      }
    }
  }

  lemma StepKeepsInvAt(l: Link, e: Event, a: int)
    requires InvAt(l, a) && Enabled(l, e) && Polite(l, e, a)
    ensures InvAt(Step(l, e), a)
  {
    match e
    case Push(f) => PushKeeps(l, f, a);
    case Drain => DrainKeeps(l, a);
    case GuestStore(_, _) => StoreKeeps(l, e, a);
  }

  // ----- The same, over whole runs ----------------------------------------------------------

  predicate Legal(m0: Memory, es: seq<Event>)
    decreases |es|, 0
  {
    es == [] || (Legal(m0, Front(es)) && Enabled(Exec(m0, Front(es)), Last(es)))
  }

  function Exec(m0: Memory, es: seq<Event>): Link
    requires Legal(m0, es)
    decreases |es|, 1
  {
    if es == [] then Start(m0) else Step(Exec(m0, Front(es)), Last(es))
  }

  /** The memory in which every pushed write and guest store takes effect at once. */
  function Atomic(m0: Memory, es: seq<Event>): Memory
    requires forall k :: 0 <= k < |es| && es[k].Push? ==> WellFormed(es[k].frame)
  {
    if es == [] then m0
    else
      match Last(es)
      case Push(f) => Apply(Atomic(m0, Front(es)), f)
      case Drain => Atomic(m0, Front(es))
      case GuestStore(a, d) => Store(Atomic(m0, Front(es)), a, d)
  }

  function Pushed(es: seq<Event>): seq<Frame> {
    if es == [] then []
    else Pushed(Front(es)) + if Last(es).Push? then [Last(es).frame] else []
  }

  lemma PushedSnoc(es: seq<Event>, e: Event)
    ensures Pushed(es + [e]) == Pushed(es) + if e.Push? then [e.frame] else []
  {
    assert Front(es + [e]) == es && Last(es + [e]) == e;
  }

  function Drains(es: seq<Event>): nat {
    if es == [] then 0 else Drains(Front(es)) + if Last(es).Drain? then 1 else 0
  }

  /** The changes to host memory that the events call for: the k-th drain applies the k-th frame
      pushed if it is a WRITE, and guest stores happen where they stand. */
  function History(es: seq<Event>): seq<HostOp> {
    if es == [] then []
    else
      var pushed, k := Pushed(Front(es)), Drains(Front(es));
      History(Front(es)) +
      match Last(es)
      case Push(_) => []
      case Drain => if k < |pushed| && pushed[k].op == Write then [Dma(pushed[k])] else []
      case GuestStore(a, d) => [Guest(a, d)]
  }

  /** How many events precede the k-th push. */
  function PushPoint(es: seq<Event>, k: nat): nat {
    if es == [] then 0
    else if Last(es).Push? && |Pushed(Front(es))| == k then |es| - 1
    else PushPoint(Front(es), k)
  }

  predicate AlwaysPolite(m0: Memory, es: seq<Event>, a: int)
    requires Legal(m0, es)
  {
    es == [] || (AlwaysPolite(m0, Front(es), a) && Polite(Exec(m0, Front(es)), Last(es), a))
  }

  lemma {:induction false} PushesWellFormed(m0: Memory, es: seq<Event>)
    requires Legal(m0, es)
    ensures forall k :: 0 <= k < |es| && es[k].Push? ==> WellFormed(es[k].frame)
  {
    if es != [] { PushesWellFormed(m0, Front(es)); }
  }

  lemma {:induction false} PushPointBound(es: seq<Event>, k: nat)
    ensures PushPoint(es, k) <= |es|
  {
    if es != [] { PushPointBound(Front(es), k); }
  }

  /** The history fields are what the event history says. */
  lemma {:induction false} HistoryFields(m0: Memory, es: seq<Event>)
    requires Legal(m0, es)
    ensures forall k :: 0 <= k < |es| && es[k].Push? ==> WellFormed(es[k].frame)
    ensures var l := Exec(m0, es);
            && l.atomic == Atomic(m0, es)
            && Pushed(es) == l.drained + l.port.queue && |l.drained| == Drains(es)
            && |l.snaps| == |l.port.queue| && AllWellFormed(l.port.queue)
  {
    PushesWellFormed(m0, es);
    if es != [] {
      HistoryFields(m0, Front(es));
      var l := Exec(m0, Front(es));
      match Last(es)
      case Push(f) => assert l.drained + (l.port.queue + [f]) == (l.drained + l.port.queue) + [f];
      case Drain => assert l.drained + l.port.queue == (l.drained + [l.port.queue[0]]) + l.port.queue[1..];
      case GuestStore(_, _) =>
    }
  }

  /** Each queued frame's snapshot is the atomic memory at the moment of its push. */
  lemma {:induction false} SnapshotsAreAtomic(m0: Memory, es: seq<Event>, k: nat)
    requires Legal(m0, es) && k < |Exec(m0, es).port.queue|
    ensures |Exec(m0, es).snaps| == |Exec(m0, es).port.queue|
    ensures var p := PushPoint(es, |Exec(m0, es).drained| + k);
            && p <= |es| && (forall j :: 0 <= j < p && es[j].Push? ==> WellFormed(es[j].frame))
            && Exec(m0, es).snaps[k] == Atomic(m0, es[..p])
  {
    HistoryFields(m0, es);
    var front := Front(es);
    HistoryFields(m0, front);
    var l := Exec(m0, front);
    var p := PushPoint(es, |Exec(m0, es).drained| + k);
    PushPointBound(es, |Exec(m0, es).drained| + k);
    if Last(es).Push? && k == |l.port.queue| {
      assert es[..p] == front;
    } else {
      var k' := if Last(es).Drain? then k + 1 else k;
      SnapshotsAreAtomic(m0, front, k');
      PushPointBound(front, |l.drained| + k');
      assert es[..p] == front[..p];
    }
  }

  lemma {:induction false} InvAtAlways(m0: Memory, es: seq<Event>, a: int)
    requires Legal(m0, es) && AlwaysPolite(m0, es, a)
    ensures InvAt(Exec(m0, es), a)
  {
    if es != [] {
      InvAtAlways(m0, Front(es), a);
      StepKeepsInvAt(Exec(m0, Front(es)), Last(es), a);
    }
  }

  /** The next frame to be drained is a READ of byte a. */
  predicate ReadNext(m0: Memory, es: seq<Event>, a: int) {
    && Legal(m0, es) && Exec(m0, es).port.queue != []
    && var f := Exec(m0, es).port.queue[0]; f.op == Read && Touches(f, a) && WellFormed(f)
  }

  /** It answers byte a with what the atomic memory held when it was pushed. */
  predicate AnswersAtomic(m0: Memory, es: seq<Event>, a: int)
    requires ReadNext(m0, es, a)
  {
    var l := Exec(m0, es);
    var p := PushPoint(es, |l.drained|);
    PushPointBound(es, |l.drained|);
    PushesWellFormed(m0, es);
    Reply(l.port.mem, l.port.queue[0]).data[a - l.port.queue[0].address] == Atomic(m0, es[..p])(a)
  }

  /** In every interleaving of pushes, drains and guest stores, a READ drained now answers each byte
      with what the atomic memory held when the READ was pushed, if the guest never stored to that
      byte while a queued frame touched it. */
  lemma PostedReadsAreAtomic(m0: Memory, es: seq<Event>, a: int)
    requires ReadNext(m0, es, a) && AlwaysPolite(m0, es, a)
    ensures AnswersAtomic(m0, es, a)
  {
    InvAtAlways(m0, es, a);
    HeadMeetsSnapshot(Exec(m0, es), a);
    AnswerIsSnapshot(m0, es, a);
  }

  /** A READ at the head of the queue meets its snapshot at byte a. */
  lemma HeadMeetsSnapshot(l: Link, a: int)
    requires InvAt(l, a) && l.port.queue != [] && l.port.queue[0].op == Read && Touches(l.port.queue[0], a)
    ensures l.port.mem(a) == l.snaps[0](a)
  {
    assert l.port.queue[..0] == [];
  }

  /** It answers the atomic byte of its push exactly when it meets its snapshot. */
  lemma AnswerIsSnapshot(m0: Memory, es: seq<Event>, a: int)
    requires ReadNext(m0, es, a)
    ensures |Exec(m0, es).snaps| > 0
    ensures AnswersAtomic(m0, es, a) <==> Exec(m0, es).port.mem(a) == Exec(m0, es).snaps[0](a)
  {
    SnapshotsAreAtomic(m0, es, 0);
  }

  // ----- Interrupts never overtake data -----------------------------------------------------

  function Replay(m0: Memory, ops: seq<HostOp>): Memory
    requires forall k :: 0 <= k < |ops| && ops[k].Dma? ==> WellFormed(ops[k].frame)
  {
    if ops == [] then m0
    else
      var m := Replay(m0, ops[..|ops| - 1]);
      match ops[|ops| - 1]
      case Dma(f) => Apply(m, f)
      case Guest(a, d) => Store(m, a, d)
  }

  function DmaFrames(ops: seq<HostOp>): seq<Frame> {
    if ops == [] then []
    else DmaFrames(ops[..|ops| - 1]) + if ops[|ops| - 1].Dma? then [ops[|ops| - 1].frame] else []
  }

  function WritesIn(q: seq<Frame>): seq<Frame> {
    if q == [] then []
    else WritesIn(q[..|q| - 1]) + if q[|q| - 1].op == Write then [q[|q| - 1]] else []
  }

  ghost predicate Recorded(m0: Memory, l: Link) {
    && (forall k :: 0 <= k < |l.ops| && l.ops[k].Dma? ==> WellFormed(l.ops[k].frame))
    && l.port.mem == Replay(m0, l.ops)
    && DmaFrames(l.ops) == WritesIn(l.drained)
    && l.port.notified == VectorsIn(l.drained)
  }

  lemma StepRecords(m0: Memory, l: Link, e: Event)
    requires Recorded(m0, l) && Enabled(l, e)
    ensures Recorded(m0, Step(l, e))
  {
    match e
    case Push(_) =>
    case Drain =>
      DrainRecords(m0, l);
    case GuestStore(a, d) =>
      assert (l.ops + [Guest(a, d)])[..|l.ops|] == l.ops;
  }

  lemma DrainRecords(m0: Memory, l: Link)
    requires Recorded(m0, l) && Enabled(l, Drain)
    ensures Recorded(m0, Step(l, Drain))
  {
    var f := l.port.queue[0];
    DrainedSnoc(l.drained, f);
    if f.op == Write { OpsSnoc(m0, l.ops, f); }
  }

  lemma DrainedSnoc(q: seq<Frame>, f: Frame)
    ensures WritesIn(q + [f]) == WritesIn(q) + if f.op == Write then [f] else []
    ensures VectorsIn(q + [f]) == VectorsIn(q) + if f.op == Intr then [f.vector] else []
  {
    assert (q + [f])[..|q|] == q;
  }

  lemma OpsSnoc(m0: Memory, ops: seq<HostOp>, f: Frame)
    requires WellFormed(f) && forall k :: 0 <= k < |ops| && ops[k].Dma? ==> WellFormed(ops[k].frame)
    ensures var ops' := ops + [Dma(f)];
            && (forall k :: 0 <= k < |ops'| && ops'[k].Dma? ==> WellFormed(ops'[k].frame))
            && Replay(m0, ops') == Apply(Replay(m0, ops), f) && DmaFrames(ops') == DmaFrames(ops) + [f]
  {
    assert (ops + [Dma(f)])[..|ops|] == ops;
  }

  lemma {:induction false} OpsAreHistory(m0: Memory, es: seq<Event>)
    requires Legal(m0, es)
    ensures Exec(m0, es).ops == History(es)
  {
    if es != [] {
      OpsAreHistory(m0, Front(es));
      HistoryFields(m0, Front(es));
      var l := Exec(m0, Front(es));
      if Last(es).Drain? { assert Pushed(Front(es))[Drains(Front(es))] == l.port.queue[0]; }
    }
  }

  lemma {:induction false} RecordedAlways(m0: Memory, es: seq<Event>)
    requires Legal(m0, es)
    ensures Recorded(m0, Exec(m0, es))
  {
    if es != [] {
      RecordedAlways(m0, Front(es));
      StepRecords(m0, Exec(m0, Front(es)), Last(es));
    }
  }

  /** When an interrupt is about to be notified, the frames drained are exactly those pushed before
      it; host memory is the initial memory changed by the history of the run and nothing else, in
      which the device's part is exactly their writes, in push order; and the vectors notified are
      exactly those pushed before it, in push order. */
  lemma InterruptsFollowData(m0: Memory, es: seq<Event>)
    requires Legal(m0, es) && Exec(m0, es).port.queue != [] && Exec(m0, es).port.queue[0].op == Intr
    ensures var l := Exec(m0, es);
            var n := |l.drained|;
            && n < |Pushed(es)| && Pushed(es)[n] == l.port.queue[0] && l.drained == Pushed(es)[..n]
            && Recorded(m0, l) && l.ops == History(es)
            && DmaFrames(l.ops) == WritesIn(Pushed(es)[..n])
            && l.port.notified == VectorsIn(Pushed(es)[..n])
            && WellFormed(l.port.queue[0])
            && DrainOne(l.port).notified == VectorsIn(Pushed(es)[..n]) + [l.port.queue[0].vector]
  {
    HistoryFields(m0, es);
    RecordedAlways(m0, es);
    OpsAreHistory(m0, es);
    var l := Exec(m0, es);
    assert Pushed(es)[..|l.drained|] == l.drained;
  }

  // ----- What a race does -------------------------------------------------------------------

  lemma ExecSnoc(m0: Memory, es: seq<Event>, e: Event)
    requires Legal(m0, es) && Enabled(Exec(m0, es), e)
    ensures Legal(m0, es + [e]) && Exec(m0, es + [e]) == Step(Exec(m0, es), e)
  {
    assert Front(es + [e]) == es;
  }

  lemma PoliteSnoc(m0: Memory, es: seq<Event>, e: Event, a: int)
    requires Legal(m0, es) && AlwaysPolite(m0, es, a) && Enabled(Exec(m0, es), e) && Polite(Exec(m0, es), e, a)
    ensures Legal(m0, es + [e]) && AlwaysPolite(m0, es + [e], a)
  {
    assert Front(es + [e]) == es;
    assert Last(es + [e]) == e;
  }

  lemma RaceOnLink(l: Link, a: int, f: Frame, g: Frame, x: byte)
    requires WellFormed(f) && WellFormed(g) && f.op == Write && g.op == Read && Touches(f, a) && Touches(g, a)
    requires l.port.queue == []
    ensures var l3 := Step(Step(Step(l, Push(f)), GuestStore(a, [x])), Push(g));
            && l3.port.queue == [f, g] && l3.atomic(a) == x
            && Step(l3, Drain).port.queue == [g] && Step(l3, Drain).atomic == l3.atomic
            && Reply(Step(l3, Drain).port.mem, g).data[a - g.address] == f.data[a - f.address]
  {
    assert [] + [f] + [g] == [f, g];
    assert [f, g][1..] == [g];
  }

  /** A guest store to a byte with a write to it still queued is overwritten when the write is
      drained: a later READ answers the device's byte, where the atomic memory holds the guest's. */
  lemma RaceBreaksAtomicity(m0: Memory, a: int, f: Frame, g: Frame, x: byte)
    requires WellFormed(f) && WellFormed(g) && f.op == Write && g.op == Read && Touches(f, a) && Touches(g, a)
    requires f.data[a - f.address] != x
    ensures var es := [] + [Push(f)] + [GuestStore(a, [x])] + [Push(g)] + [Drain];
            && Legal(m0, es) && Exec(m0, es).port.queue == [g]
            && Exec(m0, es).atomic(a) == x
            && Reply(Exec(m0, es).port.mem, g).data[a - g.address] == f.data[a - f.address]
  {
    var es: seq<Event> := [];
    RaceOnLink(Exec(m0, es), a, f, g, x);
    ExecSnoc(m0, es, Push(f));
    ExecSnoc(m0, es + [Push(f)], GuestStore(a, [x]));
    ExecSnoc(m0, es + [Push(f)] + [GuestStore(a, [x])], Push(g));
    ExecSnoc(m0, es + [Push(f)] + [GuestStore(a, [x])] + [Push(g)], Drain);
  }

  // ----- Other users of the link ------------------------------------------------------------

  /** Equal but for the replies, which the simulation takes off at its own pace. */
  ghost predicate Alike(l: Link, l': Link) {
    l.drained == l'.drained && l.ops == l'.ops && l.atomic == l'.atomic && l.snaps == l'.snaps
    && l.port.mem == l'.port.mem && l.port.queue == l'.port.queue && l.port.notified == l'.port.notified
  }

  /** A link that follows a run, event by event, stays like that run. */
  lemma Follow(m0: Memory, es: seq<Event>, l: Link, e: Event)
    requires Legal(m0, es) && Alike(Exec(m0, es), l) && Enabled(l, e)
    ensures Legal(m0, es + [e]) && Alike(Exec(m0, es + [e]), Step(l, e))
  {
    ExecSnoc(m0, es, e);
  }
}
