/** No reachable state is a dead end: a blocked guest can always be answered, and a waiting device
    read can always be served, by neighbours that keep to the protocol. */
module Progress {
  import opened Bytes
  import opened Axi
  import opened Frames
  import Poll
  import Mmio
  import Dma
  import opened Cosim
  import MR = MasterRead
  import MW = MasterWrite
  import SR = SlaveRead
  import SW = SlaveWrite

  const BLANK := Frame(0, 0, 0, Noop, 0, Zeros(BUFF_SIZE), 0)

  /** An AXI slave that answers as soon as it may. */
  function Helpful(w: nat, s: Mmio.Side): Mmio.In
    requires w > 0
  {
    var ar, beats := s.rmon.ar, |s.rmon.beats|;
    Mmio.In(true, ar.Some?, ar.Some? && beats == ar.value.len,
            if ar.Some? then Load(s.mem, BeatWord(w, ar.value, beats), w) else Zeros(w),
            true, !s.mw.wvalid || s.wmon.eager || !s.wmon.took,
            s.mw.state == MW.Response && !s.mw.wvalid, BLANK)
  }

  /** A device that takes beats offered to it and starts nothing. */
  function Patient(w: nat): Dma.In {
    Dma.In(SW.In(false, 0, 0, 0, 0, false, Zeros(w), 0, true), false, 0, Burst(0, 0, 0), true, BLANK, BLANK, false)
  }

  lemma HelpfulComplies(w: nat, conf: Poll.Conf, s: Mmio.Side, p: Poll.Regs, flat: Memory)
    requires BusWidth(w) && Mmio.Inv(w, conf, s, p, flat)
    ensures Mmio.SlaveCompliant(w, s, p, Helpful(w, s))
  {
  }

  lemma PatientComplies(w: nat, s: Dma.Side)
    requires BusWidth(w)
    ensures Dma.DeviceCompliant(w, s, Patient(w))
  {
  }

  // ----- The blocked guest ------------------------------------------------------------------

  /** How many clock edges away the answer is at most. */
  function Distance(s: Mmio.Side, p: Poll.Regs): nat {
    if s.qemuResp != [] then 0
    else if s.qemuReq != [] then 6
    else if p.mRd || p.mWr then 5
    else if s.mr.state == MR.Data then (if s.rmon.ar.None? then 2 else 1)
    else if s.mw.state == MW.Data then (if s.mw.wvalid then 3 else 4)
    else if s.mw.wvalid then 2 else 1
  }

  function Choice(s: Mmio.Side): Poll.Pick {
    if s.qemuReq != [] then Poll.FromQemu(s.qemuReq[0]) else Poll.Nothing
  }

  lemma ReadCloser(w: nat, conf: Poll.Conf, s: Mmio.Side, p: Poll.Regs, flat: Memory)
    requires BusWidth(w) && Mmio.Inv(w, conf, s, p, flat) && s.mr.state == MR.Data
    ensures var i := Mmio.MrIn(p, Helpful(w, s));
            && s.qemuReq == [] && !p.mRd && !p.mWr
            && (s.rmon.ar.Some? ==> MR.Responds(s.mr, i))
            && (s.rmon.ar.None? ==> MR.Next(w, s.mr, i).state == MR.Data && MR.Observe(w, s.rmon, s.mr, i).ar.Some?)
  {
  }

  lemma WriteCloser(w: nat, conf: Poll.Conf, s: Mmio.Side, p: Poll.Regs, flat: Memory)
    requires BusWidth(w) && Mmio.Inv(w, conf, s, p, flat) && s.mw.state != MW.Idle
    ensures var mw' := MW.Next(w, s.mw, Mmio.MwIn(p, Helpful(w, s)));
            && s.qemuReq == [] && !p.mRd && !p.mWr && s.mr.state == MR.Idle
            && (s.mw.state == MW.Data && !s.mw.wvalid ==> mw'.state != MW.Idle && mw'.wvalid)
            && (s.mw.state == MW.Data && s.mw.wvalid ==> mw'.state == MW.Response && mw'.wvalid)
            && (s.mw.state == MW.Response && s.mw.wvalid ==> mw'.state == MW.Response && !mw'.wvalid)
  {
  }

  lemma StartCloser(w: nat, conf: Poll.Conf, s: Mmio.Side, p: Poll.Regs, flat: Memory)
    requires BusWidth(w) && Mmio.Inv(w, conf, s, p, flat) && (p.mRd || p.mWr)
    ensures var i := Helpful(w, s);
            && s.qemuReq == []
            && (p.mRd ==> MR.Next(w, s.mr, Mmio.MrIn(p, i)).state == MR.Data)
            && (p.mWr ==> MW.Next(w, s.mw, Mmio.MwIn(p, i)).state == MW.Data)
            && (p.mWr ==> MR.Next(w, s.mr, Mmio.MrIn(p, i)).state == MR.Idle)
  {
  }

  predicate CanClock(w: nat, conf: Poll.Conf, s: Mmio.Side, p: Poll.Regs)
    requires w > 0
  {
    var i := Helpful(w, s);
    Mmio.ClockLegal(w, s, p, i, Choice(s)) && Poll.ValidPick(w, conf, Choice(s))
  }

  function DistanceAfter(w: nat, conf: Poll.Conf, s: Mmio.Side, p: Poll.Regs): nat
    requires w > 0 && CanClock(w, conf, s, p)
  {
    Distance(Mmio.Clock(w, s, p, Helpful(w, s), Choice(s).FromQemu?), Poll.Next(w, conf, p, Choice(s)))
  }

  lemma MidwayCloser(w: nat, conf: Poll.Conf, s: Mmio.Side, p: Poll.Regs, flat: Memory)
    requires BusWidth(w) && Mmio.Inv(w, conf, s, p, flat) && CanClock(w, conf, s, p)
    requires s.mr.state == MR.Data || s.mw.state != MW.Idle
    ensures DistanceAfter(w, conf, s, p) < Distance(s, p)
  {
    if s.mr.state == MR.Data { ReadCloser(w, conf, s, p, flat); } else { WriteCloser(w, conf, s, p, flat); }
  }

  lemma EarlyCloser(w: nat, conf: Poll.Conf, s: Mmio.Side, p: Poll.Regs, flat: Memory)
    requires BusWidth(w) && Mmio.Inv(w, conf, s, p, flat) && CanClock(w, conf, s, p)
    requires s.mr.state == MR.Idle && s.mw.state == MW.Idle && s.cpu.Blocked? && s.qemuResp == []
    ensures DistanceAfter(w, conf, s, p) < Distance(s, p)
  {
    if p.mRd || p.mWr { StartCloser(w, conf, s, p, flat); }
  }

  /** Against a helpful slave, every edge brings the answer closer. */
  lemma Closer(w: nat, conf: Poll.Conf, s: Mmio.Side, p: Poll.Regs, flat: Memory)
    requires BusWidth(w) && Mmio.Inv(w, conf, s, p, flat) && s.cpu.Blocked? && s.qemuResp == []
    ensures CanClock(w, conf, s, p) && DistanceAfter(w, conf, s, p) < Distance(s, p)
  {
    HelpfulComplies(w, conf, s, p, flat);
    if s.qemuReq != [] { Mmio.RequestPolls(w, conf, s, p, flat); }
    if s.mr.state == MR.Data || s.mw.state != MW.Idle {
      MidwayCloser(w, conf, s, p, flat);
    } else {
      EarlyCloser(w, conf, s, p, flat);
    }
  }

  lemma ExecSnoc(cfg: Config, es: seq<Event>, e: Event)
    requires ValidConfig(cfg) && Legal(cfg, es) && Allowed(cfg, Exec(cfg, es), e)
    ensures Defined(cfg, Exec(cfg, es), e)
    ensures Legal(cfg, es + [e]) && Exec(cfg, es + [e]) == Step(cfg, Exec(cfg, es), e)
  {
    NeverUndefined(cfg, es, e);
    assert Front(es + [e]) == es;
  }

  lemma OneEdge(cfg: Config, es: seq<Event>) returns (e: Event)
    requires ValidConfig(cfg) && Legal(cfg, es)
    requires Exec(cfg, es).mmio.cpu.Blocked? && Exec(cfg, es).mmio.qemuResp == []
    ensures e.Clock? && Legal(cfg, es + [e]) && Exec(cfg, es + [e]).mmio.cpu == Exec(cfg, es).mmio.cpu
    ensures Distance(Exec(cfg, es + [e]).mmio, Exec(cfg, es + [e]).poll) < Distance(Exec(cfg, es).mmio, Exec(cfg, es).poll)
  {
    var s := Exec(cfg, es);
    InvAlways(cfg, es);
    e := Clock(Helpful(cfg.w, s.mmio), Patient(cfg.w), Choice(s.mmio));
    Closer(cfg.w, cfg.conf, s.mmio, s.poll, FlatMemory(cfg, es));
    PatientComplies(cfg.w, s.dma);
    ExecSnoc(cfg, es, e);
  }

  /** The second run extends the first by at most d clock edges. */
  predicate ByClock(es: seq<Event>, es': seq<Event>, d: nat) {
    es <= es' && |es'| <= |es| + d && forall k :: |es| <= k < |es'| ==> es'[k].Clock?
  }

  lemma ByOneMore(es: seq<Event>, e: Event, es': seq<Event>, d: nat)
    requires e.Clock? && ByClock(es + [e], es', d)
    ensures ByClock(es, es', d + 1)
  {
    assert es'[|es|] == (es + [e])[|es|];
    assert es == (es + [e])[..|es|];
  }

  lemma {:induction false} ReturnsWithin(cfg: Config, es: seq<Event>, d: nat) returns (es': seq<Event>)
    requires ValidConfig(cfg) && Legal(cfg, es) && Exec(cfg, es).mmio.cpu.Blocked?
    requires Distance(Exec(cfg, es).mmio, Exec(cfg, es).poll) <= d
    ensures ByClock(es, es', d) && Legal(cfg, es')
    ensures Exec(cfg, es').mmio.cpu == Exec(cfg, es).mmio.cpu && Exec(cfg, es').mmio.qemuResp != []
    decreases d
  {
    if Exec(cfg, es).mmio.qemuResp != [] { return es; }
    var e := OneEdge(cfg, es);
    es' := ReturnsWithin(cfg, es + [e], d - 1);
    ByOneMore(es, e, es', d - 1);
  }

  /** From every reachable state in which the guest is blocked, six clock edges or fewer can bring
      its response, without QEMU draining anything. */
  lemma BlockedGuestReturns(cfg: Config, es: seq<Event>) returns (es': seq<Event>)
    requires ValidConfig(cfg) && Legal(cfg, es) && Exec(cfg, es).mmio.cpu.Blocked?
    ensures ByClock(es, es', 6)
    ensures Legal(cfg, es') && Exec(cfg, es').mmio.cpu == Exec(cfg, es).mmio.cpu
    ensures Allowed(cfg, Exec(cfg, es'), Return)
  {
    es' := ReturnsWithin(cfg, es, 6);
  }

  // ----- The waiting read -------------------------------------------------------------------

  /** Drains and clock edges until the data arrive. */
  function Wait(s: Dma.Side, p: Poll.Regs): nat {
    if s.sr.state != SR.Data then 0
    else if p.sRd then 1
    else if s.link.port.replies != [] then 2
    else 2 + |s.link.port.queue|
  }

  /** The step that serves the waiting read. */
  function Serve(cfg: Config, s: State): Event
    requires ValidConfig(cfg)
  {
    var i := Helpful(cfg.w, s.mmio);
    if s.poll.sRd then Clock(i, Patient(cfg.w), Poll.Nothing)
    else if s.dma.link.port.replies != [] then Clock(i, Patient(cfg.w), Poll.FromHdl(s.dma.link.port.replies[0]))
    else Drain
  }

  lemma ServeAllowed(cfg: Config, s: State, flat: Memory)
    requires ValidConfig(cfg) && Inv(cfg, s, flat, -1) && s.dma.sr.state == SR.Data
    ensures Allowed(cfg, s, Serve(cfg, s))
  {
    if s.poll.sRd || s.dma.link.port.replies != [] {
      HelpfulComplies(cfg.w, cfg.conf, s.mmio, s.poll, flat);
      PatientComplies(cfg.w, s.dma);
    } else {
      ReadQueued(cfg.w, s.dma, s.poll);
    }
  }

  lemma ReadQueued(w: nat, s: Dma.Side, p: Poll.Regs)
    requires BusWidth(w) && Dma.ReadInv(w, s, p, -1) && s.sr.state == SR.Data && !p.sRd && s.link.port.replies == []
    ensures s.link.port.queue != []
  {
  }

  lemma ServeHelps(cfg: Config, s: State, flat: Memory)
    requires ValidConfig(cfg) && Inv(cfg, s, flat, -1) && s.dma.sr.state == SR.Data
    requires Allowed(cfg, s, Serve(cfg, s)) && Defined(cfg, s, Serve(cfg, s))
    ensures Wait(Step(cfg, s, Serve(cfg, s)).dma, Step(cfg, s, Serve(cfg, s)).poll) < Wait(s.dma, s.poll)
  {
  }

  /** How many beats have been handed over on the R channel. */
  function Handshakes(cfg: Config, es: seq<Event>): nat
    requires ValidConfig(cfg) && Legal(cfg, es)
  {
    if es == [] then 0
    else Handshakes(cfg, Front(es)) + if Takes(Exec(cfg, Front(es)), Last(es)) then 1 else 0
  }

  predicate Takes(s: State, e: Event) {
    e.Clock? && s.dma.sr.rvalid && e.device.rready
  }

  lemma HandshakesSnoc(cfg: Config, es: seq<Event>, e: Event)
    requires ValidConfig(cfg) && Legal(cfg, es) && Legal(cfg, es + [e])
    ensures Handshakes(cfg, es + [e]) == Handshakes(cfg, es) + if Takes(Exec(cfg, es), e) then 1 else 0
  {
    assert Front(es + [e]) == es;
  }

  lemma OneServe(cfg: Config, es: seq<Event>) returns (e: Event)
    requires ValidConfig(cfg) && Legal(cfg, es) && Exec(cfg, es).dma.sr.state == SR.Data
    ensures Legal(cfg, es + [e])
    ensures Wait(Exec(cfg, es + [e]).dma, Exec(cfg, es + [e]).poll) < Wait(Exec(cfg, es).dma, Exec(cfg, es).poll)
    ensures Exec(cfg, es + [e]).dma.sr.state == if Exec(cfg, es).poll.sRd then SR.Response else SR.Data
    ensures Exec(cfg, es + [e]).dma.rd == Exec(cfg, es).dma.rd && Handshakes(cfg, es + [e]) == Handshakes(cfg, es)
  {
    var s := Exec(cfg, es);
    InvAlways(cfg, es);
    e := Serve(cfg, s);
    ServeAllowed(cfg, s, FlatMemory(cfg, es));
    ExecSnoc(cfg, es, e);
    ServeHelps(cfg, s, FlatMemory(cfg, es));
    HandshakesSnoc(cfg, es, e);
  }

  lemma {:induction false} ServedWithin(cfg: Config, es: seq<Event>, d: nat) returns (es': seq<Event>)
    requires ValidConfig(cfg) && Legal(cfg, es) && Exec(cfg, es).dma.sr.state == SR.Data
    requires Wait(Exec(cfg, es).dma, Exec(cfg, es).poll) <= d
    ensures es <= es' && |es'| <= |es| + d
    ensures Legal(cfg, es') && Exec(cfg, es').dma.sr.state == SR.Response
    ensures Exec(cfg, es').dma.rd == Exec(cfg, es).dma.rd && Handshakes(cfg, es') == Handshakes(cfg, es)
    decreases d
  {
    var e := OneServe(cfg, es);
    if Exec(cfg, es).poll.sRd { return es + [e]; }
    es' := ServedWithin(cfg, es + [e], d - 1);
    assert es == (es + [e])[..|es|];
  }

  // ----- Streaming the answer ---------------------------------------------------------------

  /** Clock edges until a read's last beat is handed over, with RREADY high. */
  function Left(sr: SR.Regs): nat {
    if sr.state == SR.Response && sr.cnt <= sr.len then 2 + sr.len - sr.cnt else if sr.rvalid then 1 else 0
  }

  /** Beats of the read not yet handed over. */
  function Remaining(rd: Option<Dma.Reading>): int {
    if rd.Some? then rd.value.b.len + 1 - rd.value.got else 0
  }

  /** The edge that takes the beat on the R channel. */
  function Take(cfg: Config, s: State): Event
    requires ValidConfig(cfg)
  {
    Clock(Helpful(cfg.w, s.mmio), Patient(cfg.w), Poll.Nothing)
  }

  lemma TakeAllowed(cfg: Config, s: State, flat: Memory)
    requires ValidConfig(cfg) && Inv(cfg, s, flat, -1)
    ensures Allowed(cfg, s, Take(cfg, s))
  {
    HelpfulComplies(cfg.w, cfg.conf, s.mmio, s.poll, flat);
    PatientComplies(cfg.w, s.dma);
  }

  /** An edge with RREADY high brings the end one edge closer, and each beat that is shown is taken. */
  lemma TakeHelps(w: nat, s: Dma.Side, p: Poll.Regs)
    requires BusWidth(w) && Dma.ReadInv(w, s, p, -1) && s.rd.Some? && s.sr.state != SR.Data
    ensures var sr', rd' := SR.Next(w, s.sr, Dma.SrIn(p, Patient(w))), Dma.ReadingNext(w, s, Patient(w));
            && Left(sr') + 1 == Left(s.sr) && (rd'.None? <==> Left(sr') == 0) && sr'.state != SR.Data
            && Remaining(rd') + (if s.sr.rvalid then 1 else 0) == Remaining(s.rd)
  {
  }

  lemma OneTake(cfg: Config, es: seq<Event>) returns (e: Event)
    requires ValidConfig(cfg) && Legal(cfg, es)
    requires Exec(cfg, es).dma.rd.Some? && Exec(cfg, es).dma.sr.state != SR.Data
    ensures Legal(cfg, es + [e])
    ensures var d, d' := Exec(cfg, es).dma, Exec(cfg, es + [e]).dma;
            && Left(d'.sr) + 1 == Left(d.sr) && (d'.rd.None? <==> Left(d'.sr) == 0) && d'.sr.state != SR.Data
            && Handshakes(cfg, es + [e]) + Remaining(d'.rd) == Handshakes(cfg, es) + Remaining(d.rd)
  {
    var s := Exec(cfg, es);
    InvAlways(cfg, es);
    e := Take(cfg, s);
    TakeAllowed(cfg, s, FlatMemory(cfg, es));
    ExecSnoc(cfg, es, e);
    TakeHelps(cfg.w, s.dma, s.poll);
    HandshakesSnoc(cfg, es, e);
  }

  lemma {:induction false} StreamedOut(cfg: Config, es: seq<Event>, n: nat) returns (es': seq<Event>)
    requires ValidConfig(cfg) && Legal(cfg, es) && Exec(cfg, es).dma.sr.state != SR.Data
    requires Exec(cfg, es).dma.rd.Some? && n == Left(Exec(cfg, es).dma.sr)
    ensures es <= es' && |es'| == |es| + n
    ensures Legal(cfg, es') && Exec(cfg, es').dma.rd.None?
    ensures Handshakes(cfg, es') == Handshakes(cfg, es) + Remaining(Exec(cfg, es).dma.rd)
    decreases n
  {
    var e := OneTake(cfg, es);
    if n == 1 { return es + [e]; }
    es' := StreamedOut(cfg, es + [e], n - 1);
    assert es == (es + [e])[..|es|];
  }

  lemma WaitingShape(cfg: Config, es: seq<Event>)
    requires ValidConfig(cfg) && Legal(cfg, es) && Exec(cfg, es).dma.sr.state != SR.Idle
    ensures var d := Exec(cfg, es).dma;
            d.rd.Some? && d.rd.value.b.len == d.sr.len && Left(d.sr) <= d.sr.len + 2
            && (d.sr.state == SR.Data ==> d.rd.value.got == 0)
  {
    InvAlways(cfg, es);
  }

  /** From every reachable state in which the device waits for read data, a drain for each queued frame
      and a clock edge for each beat, and four more, bring all its ARLEN + 1 beats, given that RREADY is
      high without waiting for RVALID. */
  lemma WaitingReadServed(cfg: Config, es: seq<Event>) returns (es': seq<Event>)
    requires ValidConfig(cfg) && Legal(cfg, es) && Exec(cfg, es).dma.sr.state == SR.Data
    ensures Exec(cfg, es).dma.rd.Some? && es <= es' && Legal(cfg, es') && Exec(cfg, es').dma.rd.None?
    ensures var len := Exec(cfg, es).dma.rd.value.b.len;
            && |es'| <= |es| + |Exec(cfg, es).dma.link.port.queue| + len + 4
            && Handshakes(cfg, es') == Handshakes(cfg, es) + len + 1
  {
    WaitingShape(cfg, es);
    var mid := ServedWithin(cfg, es, 2 + |Exec(cfg, es).dma.link.port.queue|);
    WaitingShape(cfg, mid);
    es' := StreamedOut(cfg, mid, Left(Exec(cfg, mid).dma.sr));
    assert es == mid[..|es|];
  }
}
