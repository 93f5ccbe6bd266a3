/** Exactly which guest stores a posted READ survives. What happens to one byte is followed by tags:
    the number of the event whose data the byte shows, -1 for its initial value. */
module Races {
  import opened Bytes
  import opened Frames
  import opened Host

  /** The event determines byte a of the atomic memory. */
  predicate Changes(e: Event, a: int) {
    Covers(e, a) || (e.Push? && WritesByte(e.frame, a))
  }

  // ----- Schedules --------------------------------------------------------------------------

  predicate SameFrame(f: Frame, g: Frame) {
    g == f.(data := g.data) && |f.data| == |g.data|
  }

  predicate SameKind(e: Event, e': Event) {
    match e
    case Push(f) => e'.Push? && SameFrame(f, e'.frame)
    case Drain => e'.Drain?
    case GuestStore(a, d) => e'.GuestStore? && e'.addr == a && |e'.data| == |d|
  }

  /** The same events in the same order, but for the bytes they carry. */
  predicate SameSchedule(es: seq<Event>, es': seq<Event>) {
    |es| == |es'| && forall k :: 0 <= k < |es| ==> SameKind(es[k], es'[k])
  }

  /** One of frames d .. r-1 is a WRITE to byte a. */
  predicate AnyWrite(pushed: seq<Frame>, d: nat, r: nat, a: int) {
    exists k :: d <= k < r && k < |pushed| && WritesByte(pushed[k], a)
  }

  /** Before event g, a WRITE to byte a among the first r frames pushed is still queued. */
  predicate WriteAhead(es: seq<Event>, g: nat, r: nat, a: int)
    requires g <= |es|
  {
    AnyWrite(Pushed(es[..g]), Drains(es[..g]), r, a)
  }

  /** Event g is a guest store to byte a, and nothing determines the byte again before event n. */
  predicate LastStore(es: seq<Event>, g: nat, n: nat, a: int)
    requires g < n <= |es|
  {
    Covers(es[g], a) && forall j :: g < j < n ==> !Changes(es[j], a)
  }

  /** No guest store disturbs byte a for the READ pushed by event p as frame r: one that is still the
      last word when the READ is pushed was made with no earlier WRITE to the byte queued; one made
      while the READ is queued was made with a WRITE to the byte queued ahead of it. */
  predicate NoRace(es: seq<Event>, p: nat, r: nat, a: int)
    requires p <= |es|
  {
    && (forall g :: 0 <= g < p && LastStore(es, g, p, a) ==> !WriteAhead(es, g, r, a))
    && (forall g :: p < g < |es| && Covers(es[g], a) ==> WriteAhead(es, g, r, a))
  }

  // ----- Tags -------------------------------------------------------------------------------

  /** Whose data the byte shows in host memory and in the atomic memory, and which queued frames
      will change it. */
  datatype Cell = Cell(mem: int, queue: seq<Option<int>>, atomic: int)

  /** The effect of event number n. */
  function TagStep(c: Cell, e: Event, n: nat, a: int): Cell {
    match e
    case Push(f) =>
      if WritesByte(f, a) then Cell(c.mem, c.queue + [Some(n)], n) else c.(queue := c.queue + [None])
    case Drain =>
      if c.queue == [] then c
      else c.(mem := if c.queue[0].Some? then c.queue[0].value else c.mem, queue := c.queue[1..])
    case GuestStore(_, _) => if Covers(e, a) then c.(mem := n, atomic := n) else c
  }

  function Tags(es: seq<Event>, a: int): Cell {
    if es == [] then Cell(-1, [], -1) else TagStep(Tags(Front(es), a), Last(es), |es| - 1, a)
  }

  /** The byte with a given tag. */
  function Value(m0: Memory, es: seq<Event>, a: int, tag: int): byte {
    if 0 <= tag < |es| && es[tag].Push? && WritesByte(es[tag].frame, a) && WellFormed(es[tag].frame)
    then es[tag].frame.data[a - es[tag].frame.address]
    else if 0 <= tag < |es| && Covers(es[tag], a) then es[tag].data[a - es[tag].addr]
    else m0(a)
  }

  predicate TagOk(es: seq<Event>, a: int, tag: int) {
    -1 <= tag < |es| && (tag >= 0 ==> Changes(es[tag], a))
  }

  /** A tag in the queue belongs to the frame at its place. */
  predicate QueueOk(es: seq<Event>, a: int, q: seq<Option<int>>, frames: seq<Frame>) {
    |q| == |frames| && forall k :: 0 <= k < |q| ==>
      && (q[k].Some? <==> WritesByte(frames[k], a))
      && (q[k].Some? ==> 0 <= q[k].value < |es| && es[q[k].value] == Push(frames[k]))
  }

  predicate TagsOk(m0: Memory, es: seq<Event>, a: int, l: Link, c: Cell) {
    && TagOk(es, a, c.mem) && TagOk(es, a, c.atomic) && QueueOk(es, a, c.queue, l.port.queue)
    && l.port.mem(a) == Value(m0, es, a, c.mem) && l.atomic(a) == Value(m0, es, a, c.atomic)
  }

  lemma Later(m0: Memory, es: seq<Event>, a: int, tag: int)
    requires es != [] && TagOk(Front(es), a, tag)
    ensures TagOk(es, a, tag) && Value(m0, es, a, tag) == Value(m0, Front(es), a, tag)
  {
    if tag >= 0 { assert Front(es)[tag] == es[tag]; }
  }

  lemma QueueLater(es: seq<Event>, a: int, q: seq<Option<int>>, frames: seq<Frame>)
    requires es != [] && QueueOk(Front(es), a, q, frames)
    ensures QueueOk(es, a, q, frames)
  {
    forall k | 0 <= k < |q| && q[k].Some? ensures es[q[k].value] == Push(frames[k]) {
      assert Front(es)[q[k].value] == es[q[k].value];
    }
  }

  lemma TagsPush(m0: Memory, es: seq<Event>, a: int, l: Link)
    requires es != [] && Last(es).Push? && TagsOk(m0, es, a, l, Tags(Front(es), a)) && Enabled(l, Last(es))
    ensures TagsOk(m0, es, a, Step(l, Last(es)), Tags(es, a))
  {
  }

  lemma TagsDrain(m0: Memory, es: seq<Event>, a: int, l: Link)
    requires es != [] && Last(es).Drain? && TagsOk(m0, es, a, l, Tags(Front(es), a)) && Enabled(l, Last(es))
    ensures TagsOk(m0, es, a, Step(l, Last(es)), Tags(es, a))
  {
    var q := Tags(Front(es), a).queue;
    assert q[0].Some? ==> es[q[0].value] == Push(l.port.queue[0]);
  }

  lemma TagsStep(m0: Memory, es: seq<Event>, a: int, l: Link)
    requires es != [] && TagsOk(m0, Front(es), a, l, Tags(Front(es), a)) && Enabled(l, Last(es))
    ensures TagsOk(m0, es, a, Step(l, Last(es)), Tags(es, a))
  {
    var c := Tags(Front(es), a);
    Later(m0, es, a, c.mem);
    Later(m0, es, a, c.atomic);
    QueueLater(es, a, c.queue, l.port.queue);
    match Last(es)
    case Push(_) => TagsPush(m0, es, a, l);
    case Drain => TagsDrain(m0, es, a, l);
    case GuestStore(_, _) =>
  }

  /** The tags say what the run does to the byte. */
  lemma {:induction false} TagsTrue(m0: Memory, es: seq<Event>, a: int)
    requires Legal(m0, es)
    ensures TagsOk(m0, es, a, Exec(m0, es), Tags(es, a))
  {
    if es != [] {
      TagsTrue(m0, Front(es), a);
      TagsStep(m0, es, a, Exec(m0, Front(es)));
    }
  }

  // ----- The schedule decides the tags ------------------------------------------------------

  predicate SameFrames(q: seq<Frame>, q': seq<Frame>) {
    |q| == |q'| && forall k :: 0 <= k < |q| ==> SameFrame(q[k], q'[k])
  }

  lemma ScheduleFront(es: seq<Event>, es': seq<Event>)
    requires SameSchedule(es, es') && es != []
    ensures SameSchedule(Front(es), Front(es')) && SameKind(Last(es), Last(es'))
  {
  }

  lemma {:induction false} SameTags(es: seq<Event>, es': seq<Event>, a: int)
    requires SameSchedule(es, es')
    ensures Tags(es, a) == Tags(es', a) && |Pushed(es)| == |Pushed(es')|
  {
    if es != [] {
      ScheduleFront(es, es');
      SameTags(Front(es), Front(es'), a);
    }
  }

  lemma {:induction false} SamePushPoint(es: seq<Event>, es': seq<Event>, k: nat)
    requires SameSchedule(es, es')
    ensures PushPoint(es, k) == PushPoint(es', k)
  {
    if es != [] {
      ScheduleFront(es, es');
      SameTags(Front(es), Front(es'), 0);
      SamePushPoint(Front(es), Front(es'), k);
    }
  }

  lemma {:induction false} SameLegal(m0: Memory, es: seq<Event>, m0': Memory, es': seq<Event>)
    requires Legal(m0, es) && SameSchedule(es, es')
    ensures Legal(m0', es') && SameFrames(Exec(m0, es).port.queue, Exec(m0', es').port.queue)
    ensures |Exec(m0, es).drained| == |Exec(m0', es').drained|
  {
    if es != [] {
      ScheduleFront(es, es');
      SameLegal(m0, Front(es), m0', Front(es'));
    }
  }

  lemma {:induction false} LegalPrefix(m0: Memory, es: seq<Event>, p: nat)
    requires Legal(m0, es) && p <= |es|
    ensures Legal(m0, es[..p])
  {
    if p < |es| {
      LegalPrefix(m0, Front(es), p);
      assert Front(es)[..p] == es[..p];
    } else {
      assert es[..p] == es;
    }
  }

  lemma ValueOfPrefix(m0: Memory, es: seq<Event>, p: nat, a: int, tag: int)
    requires p <= |es| && TagOk(es[..p], a, tag)
    ensures TagOk(es, a, tag) && Value(m0, es[..p], a, tag) == Value(m0, es, a, tag)
  {
    if tag >= 0 { assert es[..p][tag] == es[tag]; }
  }

  /** The READ answers with the byte of one tag; the atomic memory at its push has that of another. */
  lemma AnswerByTags(m0: Memory, es: seq<Event>, a: int)
    requires ReadNext(m0, es, a)
    ensures var p := PushPoint(es, |Exec(m0, es).drained|);
            && p <= |es| && TagOk(es, a, Tags(es, a).mem) && TagOk(es, a, Tags(es[..p], a).atomic)
            && (AnswersAtomic(m0, es, a)
                <==> Value(m0, es, a, Tags(es, a).mem) == Value(m0, es, a, Tags(es[..p], a).atomic))
  {
    var p := PushPoint(es, |Exec(m0, es).drained|);
    PushPointBound(es, |Exec(m0, es).drained|);
    TagsTrue(m0, es, a);
    AtomicByTag(m0, es, p, a);
  }

  lemma AtomicByTag(m0: Memory, es: seq<Event>, p: nat, a: int)
    requires Legal(m0, es) && p <= |es|
    ensures forall j :: 0 <= j < p && es[j].Push? ==> WellFormed(es[j].frame)
    ensures TagOk(es, a, Tags(es[..p], a).atomic)
    ensures Atomic(m0, es[..p])(a) == Value(m0, es, a, Tags(es[..p], a).atomic)
  {
    PushesWellFormed(m0, es);
    LegalPrefix(m0, es, p);
    TagsTrue(m0, es[..p], a);
    HistoryFields(m0, es[..p]);
    ValueOfPrefix(m0, es, p, a, Tags(es[..p], a).atomic);
  }

  // ----- Payloads that tell two tags apart --------------------------------------------------

  function Paint(e: Event, x: byte): Event {
    match e
    case Push(f) => Push(f.(data := seq(|f.data|, _ => x)))
    case Drain => Drain
    case GuestStore(a, d) => GuestStore(a, seq(|d|, _ => x))
  }

  /** The same schedule, with ones from event t and zeros from every other. */
  function Colour(es: seq<Event>, t: int): (r: seq<Event>)
    ensures |r| == |es| && forall k :: 0 <= k < |es| ==> r[k] == Paint(es[k], if k == t then 1 else 0)
  {
    seq(|es|, k requires 0 <= k < |es| => Paint(es[k], if k == t then 1 else 0))
  }

  function Background(t: int): Memory {
    _ => if t == -1 then 1 else 0
  }

  lemma ColoursDiffer(es: seq<Event>, a: int, t: int, u: int)
    requires TagOk(es, a, t) && TagOk(es, a, u)
    requires forall k :: 0 <= k < |es| && es[k].Push? ==> WellFormed(es[k].frame)
    ensures SameSchedule(es, Colour(es, t))
    ensures Value(Background(t), Colour(es, t), a, u) == if u == t then 1 else 0
  {
  }

  /** The READ drained next is right at byte a for every choice of the bytes that the frames and
      stores carry, and of the initial memory. */
  ghost predicate AlwaysRight(es: seq<Event>, a: int) {
    forall m0, es' | SameSchedule(es, es') :: ReadNext(m0, es', a) && AnswersAtomic(m0, es', a)
  }

  /** That is so exactly when the two tags agree. */
  lemma RightMeansSameTag(m0: Memory, es: seq<Event>, a: int, p: nat)
    requires ReadNext(m0, es, a) && p == PushPoint(es, |Exec(m0, es).drained|)
    ensures p <= |es|
    ensures AlwaysRight(es, a) <==> Tags(es, a).mem == Tags(es[..p], a).atomic
  {
    AnswerByTags(m0, es, a);
    var t, u := Tags(es[..p], a).atomic, Tags(es, a).mem;
    forall m0', es' | SameSchedule(es, es')
      ensures ReadNext(m0', es', a)
      ensures AnswersAtomic(m0', es', a) <==> Value(m0', es', a, u) == Value(m0', es', a, t)
    {
      OtherPayload(m0, es, m0', es', a, p);
    }
    PushesWellFormed(m0, es);
    ColoursDiffer(es, a, t, u);
    ColoursDiffer(es, a, t, t);
  }

  lemma OtherPayload(m0: Memory, es: seq<Event>, m0': Memory, es': seq<Event>, a: int, p: nat)
    requires ReadNext(m0, es, a) && p == PushPoint(es, |Exec(m0, es).drained|) <= |es| && SameSchedule(es, es')
    ensures ReadNext(m0', es', a)
    ensures AnswersAtomic(m0', es', a)
            <==> Value(m0', es', a, Tags(es, a).mem) == Value(m0', es', a, Tags(es[..p], a).atomic)
  {
    SameLegal(m0, es, m0', es');
    assert SameFrame(Exec(m0, es).port.queue[0], Exec(m0', es').port.queue[0]);
    AnswerByTags(m0', es', a);
    SamePushPoint(es, es', |Exec(m0, es).drained|);
    SameTags(es, es', a);
    SameTags(es[..p], es'[..p], a);
  }

  // ----- When the two tags agree ------------------------------------------------------------

  /** What the byte shows once these queued frames are drained. */
  function Settle(mem: int, q: seq<Option<int>>): int {
    if q == [] then mem else if Last(q).Some? then Last(q).value else Settle(mem, Front(q))
  }

  predicate AnySome(q: seq<Option<int>>) {
    exists k :: 0 <= k < |q| && q[k].Some?
  }

  lemma {:induction false} SettleHead(mem: int, q: seq<Option<int>>)
    requires q != []
    ensures Settle(mem, q) == Settle(if q[0].Some? then q[0].value else mem, q[1..])
  {
    if |q| > 1 {
      SettleHead(mem, Front(q));
      assert Front(q)[1..] == Front(q[1..]);
    } else {
      assert Front(q) == [] && q[1..] == [];
    }
  }

  lemma {:induction false} SettleStore(mem: int, n: int, q: seq<Option<int>>)
    ensures AnySome(q) ==> Settle(n, q) == Settle(mem, q)
    ensures AnySome(q) ==> exists k :: 0 <= k < |q| && q[k] == Some(Settle(mem, q))
    ensures !AnySome(q) ==> Settle(n, q) == n
  {
    if q != [] {
      var f := Front(q);
      SettleStore(mem, n, f);
      assert forall k :: 0 <= k < |f| ==> f[k] == q[k];
      if Last(q).Some? { assert q[|q| - 1] == Some(Settle(mem, q)); }
      else if AnySome(q) {
        var k :| 0 <= k < |q| && q[k].Some?;
        assert f[k].Some?;
        var j :| 0 <= j < |f| && f[j] == Some(Settle(mem, f));
        assert q[j] == Some(Settle(mem, q));
      }
    }
  }

  lemma SettleSnoc(mem: int, q: seq<Option<int>>, x: Option<int>)
    ensures Settle(mem, q + [x]) == if x.Some? then x.value else Settle(mem, q)
  {
    assert Front(q + [x]) == q;
  }

  lemma Prefix(es: seq<Event>, n: nat)
    requires n < |es|
    ensures Front(es[..n + 1]) == es[..n] && Last(es[..n + 1]) == es[n]
  {
  }

  /** The queue tags are those of the frames pushed and not drained. */
  lemma QueueTags(m0: Memory, es: seq<Event>, a: int)
    requires Legal(m0, es)
    ensures Drains(es) <= |Pushed(es)| && QueueOk(es, a, Tags(es, a).queue, Pushed(es)[Drains(es)..])
    ensures TagOk(es, a, Tags(es, a).mem) && TagOk(es, a, Tags(es, a).atomic)
  {
    TagsTrue(m0, es, a);
    HistoryFields(m0, es);
    assert Pushed(es)[Drains(es)..] == Exec(m0, es).port.queue;
  }

  lemma WriteInSlice(es: seq<Event>, pushed: seq<Frame>, q: seq<Option<int>>, d: nat, r: nat, a: int)
    requires d <= r <= |pushed| && QueueOk(es, a, q, pushed[d..])
    ensures AnyWrite(pushed, d, r, a) <==> AnySome(q[..r - d])
  {
    var ahead := q[..r - d];
    if k :| d <= k < r && k < |pushed| && WritesByte(pushed[k], a) {
      assert pushed[d..][k - d] == pushed[k];
      assert ahead[k - d] == q[k - d];
    }
    if k :| 0 <= k < |ahead| && ahead[k].Some? {
      assert q[k].Some?;
      assert WritesByte(pushed[d..][k], a);
    }
  }

  lemma QueueWrites(m0: Memory, es: seq<Event>, r: nat, a: int)
    requires Legal(m0, es) && Drains(es) <= r <= |Pushed(es)|
    ensures |Tags(es, a).queue| == |Pushed(es)| - Drains(es)
    ensures AnyWrite(Pushed(es), Drains(es), r, a) <==> AnySome(Tags(es, a).queue[..r - Drains(es)])
  {
    QueueTags(m0, es, a);
    WriteInSlice(es, Pushed(es), Tags(es, a).queue, Drains(es), r, a);
  }

  lemma AheadTags(m0: Memory, es: seq<Event>, n: nat, r: nat, a: int)
    requires Legal(m0, es) && n <= |es| && Drains(es[..n]) <= r <= |Pushed(es[..n])|
    ensures var q, d := Tags(es[..n], a).queue, Drains(es[..n]);
            |q| == |Pushed(es[..n])| - d && (WriteAhead(es, n, r, a) <==> AnySome(q[..r - d]))
  {
    LegalPrefix(m0, es, n);
    QueueWrites(m0, es[..n], r, a);
  }

  /** Up to the push: host memory, once the queue is drained, agrees with the atomic memory. */
  predicate CleanUpTo(es: seq<Event>, n: nat, r: nat, a: int)
    requires n <= |es|
  {
    forall g :: 0 <= g < n && LastStore(es, g, n, a) ==> !WriteAhead(es, g, r, a)
  }

  lemma CleanStep(es: seq<Event>, n: nat, r: nat, a: int)
    requires n < |es|
    ensures Covers(es[n], a) ==> (CleanUpTo(es, n + 1, r, a) <==> !WriteAhead(es, n, r, a))
    ensures Changes(es[n], a) && !Covers(es[n], a) ==> CleanUpTo(es, n + 1, r, a)
    ensures !Changes(es[n], a) ==> (CleanUpTo(es, n + 1, r, a) <==> CleanUpTo(es, n, r, a))
  {
    var m := n + 1;
    if Changes(es[n], a) {
      forall g | 0 <= g < n ensures !LastStore(es, g, m, a) {}
      assert LastStore(es, n, n + 1, a) <==> Covers(es[n], a);
    } else {
      forall g | 0 <= g < n ensures LastStore(es, g, m, a) <==> LastStore(es, g, n, a) {}
      assert !LastStore(es, n, n + 1, a);
    }
  }

  lemma {:induction false} SettledBefore(m0: Memory, es: seq<Event>, n: nat, r: nat, a: int)
    requires Legal(m0, es) && n <= |es| && |Pushed(es[..n])| <= r
    ensures var c := Tags(es[..n], a); Settle(c.mem, c.queue) == c.atomic <==> CleanUpTo(es, n, r, a)
  {
    if n > 0 {
      var m := n - 1;
      Prefix(es, m);
      SettledBefore(m0, es, m, r, a);
      CleanStep(es, m, r, a);
      LegalPrefix(m0, es, m);
      QueueTags(m0, es[..m], a);
      AheadTags(m0, es, m, |Pushed(es[..m])|, a);
      WholeQueueAhead(es, m, r, a);
      var c := Tags(es[..m], a);
      assert c.queue[..|c.queue|] == c.queue;
      match es[m]
      case Push(f) => SettleSnoc(c.mem, c.queue, if WritesByte(f, a) then Some(m) else None);
      case Drain => if c.queue != [] { SettleHead(c.mem, c.queue); }
      case GuestStore(_, _) => SettleStore(c.mem, m, c.queue);
    }
  }

  lemma WholeQueueAhead(es: seq<Event>, g: nat, r: nat, a: int)
    requires g <= |es| && |Pushed(es[..g])| <= r
    ensures WriteAhead(es, g, r, a) <==> WriteAhead(es, g, |Pushed(es[..g])|, a)
  {
  }

  // ----- While the READ is queued -----------------------------------------------------------

  /** No guest store since the push found the byte without a WRITE ahead of the READ. */
  predicate CleanSince(es: seq<Event>, p: nat, n: nat, r: nat, a: int)
    requires n <= |es|
  {
    forall g :: p < g < n && Covers(es[g], a) ==> WriteAhead(es, g, r, a)
  }

  lemma {:induction false} DrainsGrow(es: seq<Event>, n: nat, k: nat)
    requires n <= k <= |es|
    ensures Drains(es[..n]) <= Drains(es[..k]) && |Pushed(es[..n])| <= |Pushed(es[..k])|
  {
    if n < k {
      Prefix(es, k - 1);
      DrainsGrow(es, n, k - 1);
    }
  }

  /** Before event n, frame r and those ahead of it are queued or still to come. */
  predicate Waiting(es: seq<Event>, n: nat, r: nat, a: int) {
    n <= |es| && Drains(es[..n]) <= r <= |Pushed(es[..n])| == Drains(es[..n]) + |Tags(es[..n], a).queue|
  }

  /** What the byte will show when frame r reaches the head. */
  function SettleAhead(es: seq<Event>, n: nat, r: nat, a: int): int
    requires Waiting(es, n, r, a)
  {
    Settle(Tags(es[..n], a).mem, Tags(es[..n], a).queue[..r - Drains(es[..n])])
  }

  lemma AheadStep(m0: Memory, es: seq<Event>, n: nat, r: nat, a: int)
    requires Legal(m0, es) && n < |es| && r <= |Pushed(es[..n])| && Drains(es[..n + 1]) <= r
    ensures Waiting(es, n, r, a) && Waiting(es, n + 1, r, a)
    ensures SettleAhead(es, n + 1, r, a)
            == if Covers(es[n], a) && !WriteAhead(es, n, r, a) then n else SettleAhead(es, n, r, a)
    ensures !WriteAhead(es, n, r, a) ==> !WriteAhead(es, n + 1, r, a)
  {
    Prefix(es, n);
    DrainsGrow(es, n, n + 1);
    AheadTags(m0, es, n, r, a);
    AheadTags(m0, es, n + 1, r, a);
    AheadMoves(Tags(es[..n], a), es[n], n, r - Drains(es[..n]), a);
  }

  /** How an event changes what the first k queued frames will leave behind. */
  lemma AheadMoves(c: Cell, e: Event, n: nat, k: nat, a: int)
    requires k <= |c.queue| && (e.Drain? ==> k > 0)
    ensures var c', k' := TagStep(c, e, n, a), if e.Drain? then k - 1 else k;
            && k' <= |c'.queue|
            && Settle(c'.mem, c'.queue[..k'])
               == (if Covers(e, a) && !AnySome(c.queue[..k]) then n else Settle(c.mem, c.queue[..k]))
            && (AnySome(c'.queue[..k']) ==> AnySome(c.queue[..k]))
  {
    var c' := TagStep(c, e, n, a);
    match e
    case Push(_) => assert c'.queue[..k] == c.queue[..k];
    case Drain =>
      assert c'.queue[..k - 1] == c.queue[..k][1..];
      AheadDrain(c.mem, c.queue[..k]);
    case GuestStore(_, _) => SettleStore(c.mem, n, c.queue[..k]);
  }

  lemma AheadDrain(mem: int, q: seq<Option<int>>)
    requires q != []
    ensures Settle(mem, q) == Settle(if q[0].Some? then q[0].value else mem, q[1..])
    ensures AnySome(q[1..]) ==> AnySome(q)
  {
    SettleHead(mem, q);
    if k :| 0 <= k < |q[1..]| && q[1..][k].Some? { assert q[k + 1].Some?; }
  }

  /** While the READ waits, what it will find changes only by an unprotected guest store, for good. */
  lemma {:induction false} SettledSince(m0: Memory, es: seq<Event>, p: nat, n: nat, r: nat, a: int)
    requires Legal(m0, es) && p < n <= |es| && r == |Pushed(es[..p])| && es[p].Push? && Drains(es[..n]) <= r
    ensures Waiting(es, n, r, a) && Waiting(es, p, r, a)
    ensures CleanSince(es, p, n, r, a) ==> SettleAhead(es, n, r, a) == SettleAhead(es, p, r, a)
    ensures !CleanSince(es, p, n, r, a) ==> SettleAhead(es, n, r, a) > p && !WriteAhead(es, n, r, a)
  {
    var m := n - 1;
    DrainsGrow(es, m, n);
    DrainsGrow(es, p, m);
    AheadStep(m0, es, m, r, a);
    if m > p {
      SettledSince(m0, es, p, m, r, a);
      CleanSinceStep(es, p, m, r, a);
    }
  }

  lemma CleanSinceStep(es: seq<Event>, p: nat, n: nat, r: nat, a: int)
    requires p < n < |es|
    ensures CleanSince(es, p, n + 1, r, a) <==> CleanSince(es, p, n, r, a) && (Covers(es[n], a) ==> WriteAhead(es, n, r, a))
  {
  }

  lemma {:induction false} PushPointAt(es: seq<Event>, k: nat)
    requires k < |Pushed(es)|
    ensures var p := PushPoint(es, k);
            p < |es| && es[p].Push? && |Pushed(es[..p])| == k && Pushed(es)[k] == es[p].frame
  {
    if Last(es).Push? && |Pushed(Front(es))| == k {
      assert es[..|es| - 1] == Front(es);
    } else {
      PushPointAt(Front(es), k);
      assert Front(es)[..PushPoint(es, k)] == es[..PushPoint(es, k)];
    }
  }

  lemma SameTagMeansNoRace(m0: Memory, es: seq<Event>, a: int, p: nat, r: nat)
    requires Legal(m0, es) && p < |es| && es[p].Push? && r == |Pushed(es[..p])| == Drains(es)
    ensures Tags(es, a).mem == Tags(es[..p], a).atomic <==> NoRace(es, p, r, a)
  {
    var n := |es|;
    assert es[..n] == es;
    SettledSince(m0, es, p, n, r, a);
    SettledBefore(m0, es, p, r, a);
    LegalPrefix(m0, es, p);
    QueueTags(m0, es[..p], a);
    assert Tags(es, a).queue[..0] == [];
    assert Tags(es[..p], a).queue[..r - Drains(es[..p])] == Tags(es[..p], a).queue;
    assert SettleAhead(es, n, r, a) == Tags(es, a).mem;
  }

  /** In every interleaving of pushes, drains and guest stores, the READ drained next answers byte a
      with what the atomic memory held when it was pushed, for every choice of the bytes carried by
      the frames and stores and of the initial memory, if and only if no guest store disturbs it. */
  lemma PostedReadsExact(m0: Memory, es: seq<Event>, a: int)
    requires ReadNext(m0, es, a)
    ensures var r := Drains(es);
            var p := PushPoint(es, r);
            && p < |es| && es[p] == Push(Exec(m0, es).port.queue[0])
            && (AlwaysRight(es, a) <==> NoRace(es, p, r, a))
  {
    HistoryFields(m0, es);
    var r := Drains(es);
    var p := PushPoint(es, r);
    PushPointAt(es, r);
    assert Pushed(es)[r] == Exec(m0, es).port.queue[0];
    RightMeansSameTag(m0, es, a, p);
    SameTagMeansNoRace(m0, es, a, p, r);
  }

  lemma SameAsItself(es: seq<Event>)
    ensures SameSchedule(es, es)
  {
  }

  /** An undisturbed READ meets, at byte a, the atomic memory of its push. */
  lemma UndisturbedHead(m0: Memory, es: seq<Event>, a: int)
    requires ReadNext(m0, es, a) && PushPoint(es, Drains(es)) <= |es|
    requires NoRace(es, PushPoint(es, Drains(es)), Drains(es), a)
    ensures |Exec(m0, es).snaps| > 0 && Exec(m0, es).port.mem(a) == Exec(m0, es).snaps[0](a)
  {
    PostedReadsExact(m0, es, a);
    SameAsItself(es);
    assert AnswersAtomic(m0, es, a);
    AnswerIsSnapshot(m0, es, a);
  }

  // ----- Politeness is enough ---------------------------------------------------------------

  lemma {:induction false} PoliteThen(m0: Memory, es: seq<Event>, g: nat, a: int)
    requires Legal(m0, es) && AlwaysPolite(m0, es, a) && g < |es|
    ensures Legal(m0, es[..g]) && Polite(Exec(m0, es[..g]), es[g], a)
  {
    LegalPrefix(m0, es, g);
    if g < |es| - 1 {
      PoliteThen(m0, Front(es), g, a);
      assert Front(es)[..g] == es[..g];
    } else {
      assert es[..g] == Front(es);
    }
  }

  /** While the guest stores to byte a, no frame pushed and not drained touches it. */
  lemma NothingQueued(m0: Memory, es: seq<Event>, g: nat, a: int, k: nat)
    requires Legal(m0, es) && AlwaysPolite(m0, es, a) && g < |es| && Covers(es[g], a)
    requires Drains(es[..g]) <= k < |Pushed(es[..g])|
    ensures !Touches(Pushed(es[..g])[k], a)
  {
    PoliteThen(m0, es, g, a);
    HistoryFields(m0, es[..g]);
    var l := Exec(m0, es[..g]);
    assert Pushed(es[..g])[k] == l.port.queue[k - |l.drained|];
  }

  /** A guest that stores to a byte only while no queued frame touches it disturbs no READ of it. */
  lemma PoliteMeansNoRace(m0: Memory, es: seq<Event>, a: int)
    requires ReadNext(m0, es, a) && AlwaysPolite(m0, es, a)
    ensures PushPoint(es, Drains(es)) < |es|
    ensures NoRace(es, PushPoint(es, Drains(es)), Drains(es), a)
  {
    var r := Drains(es);
    var p := PushPoint(es, r);
    HistoryFields(m0, es);
    PushPointAt(es, r);
    assert es[p].frame == Exec(m0, es).port.queue[0];
    forall g | 0 <= g < p && LastStore(es, g, p, a) ensures !WriteAhead(es, g, r, a) {
      if WriteAhead(es, g, r, a) {
        var k :| Drains(es[..g]) <= k < r && k < |Pushed(es[..g])| && WritesByte(Pushed(es[..g])[k], a);
        NothingQueued(m0, es, g, a, k);
      }
    }
    forall g | p < g < |es| ensures !Covers(es[g], a) {
      if Covers(es[g], a) {
        ReadStillQueued(es, p, g);
        NothingQueued(m0, es, g, a, r);
      }
    }
  }

  /** After its push and before the end of the run, the READ drained next is queued. */
  lemma ReadStillQueued(es: seq<Event>, p: nat, g: nat)
    requires p < g <= |es| && es[p].Push? && |Pushed(es[..p])| == Drains(es)
    ensures Drains(es[..g]) <= Drains(es) < |Pushed(es[..g])| && Pushed(es[..g])[Drains(es)] == es[p].frame
  {
    assert es[..|es|] == es;
    DrainsGrow(es, g, |es|);
    PushedGrows(es, p, g);
  }

  lemma {:induction false} PushedGrows(es: seq<Event>, p: nat, g: nat)
    requires p < g <= |es| && es[p].Push?
    ensures |Pushed(es[..p])| < |Pushed(es[..g])| && Pushed(es[..g])[|Pushed(es[..p])|] == es[p].frame
  {
    Prefix(es, g - 1);
    if p < g - 1 { PushedGrows(es, p, g - 1); }
  }
}
