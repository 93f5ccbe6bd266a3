/** The whole co-simulation: QEMU and the HDL clock as interleaved steps over four FIFO sockets, with
    any device on the slave ports, any AXI slave on the master ports, any guest, and any order and
    delay of message delivery between the two processes. */
module Cosim {
  import opened Bytes
  import opened Axi
  import opened Frames
  import Poll
  import Mmio
  import Dma
  import Host
  import Races
  import MR = MasterRead
  import MW = MasterWrite
  import SR = SlaveRead
  import SW = SlaveWrite

  /** Bus width, BAR layout, how the AXI slave drives WREADY, and the initial memories. */
  datatype Config = Config(w: nat, conf: Poll.Conf, host: Memory, device: Memory)

  datatype State = State(mmio: Mmio.Side, dma: Dma.Side, poll: Poll.Regs)

  datatype Event =
    | Issue(acc: Mmio.Access)                              // the guest starts an MMIO access
    | Return                                               // its callback receives a response
    | Drain                                                // QEMU handles one frame from hdl_req
    | GuestStore(addr: nat, data: seq<byte>)               // the guest writes its own memory
    | Interrupt(vector: nat, residue: Frame)               // the device raises an MSI-X vector
    | Clock(slave: Mmio.In, device: Dma.In, pick: Poll.Pick)

  predicate ValidConfig(cfg: Config) {
    BusWidth(cfg.w) && Poll.ValidConf(cfg.conf)
  }

  function Reset(cfg: Config): State
    requires ValidConfig(cfg)
  {
    State(Mmio.Reset(cfg.w, cfg.device), Dma.Reset(cfg.w, cfg.host), Poll.RESET)
  }

  function HostEvent(e: Event): Host.Event
    requires e.Drain? || e.GuestStore? || e.Interrupt?
  {
    match e
    case Drain => Host.Drain
    case GuestStore(a, d) => Host.GuestStore(a, d)
    case Interrupt(v, residue) => Host.Push(Poll.ReqInterrupt(residue, v))
  }

  /** What the two neighbours, the guest and the sockets may do in a state. */
  predicate Allowed(cfg: Config, s: State, e: Event)
    requires ValidConfig(cfg)
  {
    match e
    case Issue(acc) => s.mmio.cpu.Running? && Mmio.LegalAccess(cfg.conf, acc)
    case Return => s.mmio.cpu.Blocked? && s.mmio.qemuResp != []
    case Drain => s.dma.link.port.queue != []
    case GuestStore(_, _) => true
    case Interrupt(_, residue) => |residue.data| == BUFF_SIZE
    case Clock(slave, device, pick) =>
      && Mmio.ClockLegal(cfg.w, s.mmio, s.poll, slave, pick)
      && Dma.DeviceCompliant(cfg.w, s.dma, device) && Dma.PickLegal(s.dma, pick)
  }

  /** The step indexes and copies within its buffers only, and shifts and counts within its words:
      QEMU in the frame it drains, C_poll in the frame it takes, the four engines in their beat
      buffers, and C_req_write in the buffers it is handed. */
  predicate Defined(cfg: Config, s: State, e: Event)
    requires ValidConfig(cfg) && Allowed(cfg, s, e)
  {
    match e
    case Drain => WellFormed(s.dma.link.port.queue[0])
    case Clock(_, device, pick) =>
      && Poll.ValidPick(cfg.w, cfg.conf, pick)
      && Mmio.InBounds(cfg.w, s.mmio) && Dma.InBounds(cfg.w, s.dma)
      && Dma.PushesLegal(cfg.w, s.dma, s.poll, device)
    case _ => true
  }

  function Step(cfg: Config, s: State, e: Event): State
    requires ValidConfig(cfg) && Allowed(cfg, s, e) && Defined(cfg, s, e)
  {
    match e
    case Issue(acc) => s.(mmio := Mmio.Issue(s.mmio, acc))
    case Return => s.(mmio := Mmio.Return(s.mmio))
    case Drain => s.(dma := Dma.HostStep(s.dma, HostEvent(e)))
    case GuestStore(_, _) => s.(dma := Dma.HostStep(s.dma, HostEvent(e)))
    case Interrupt(_, _) => s.(dma := Dma.HostStep(s.dma, HostEvent(e)))
    case Clock(slave, device, pick) =>
      State(Mmio.Clock(cfg.w, s.mmio, s.poll, slave, pick.FromQemu?),
            Dma.Clock(cfg.w, s.dma, s.poll, device, pick.FromHdl?),
            Poll.Next(cfg.w, cfg.conf, s.poll, pick))
  }

  // ----- Runs -------------------------------------------------------------------------------

  predicate Legal(cfg: Config, es: seq<Event>)
    requires ValidConfig(cfg)
    decreases |es|, 0
  {
    es == [] ||
    (Legal(cfg, Front(es)) && var s := Exec(cfg, Front(es)); Allowed(cfg, s, Last(es)) && Defined(cfg, s, Last(es)))
  }

  function Exec(cfg: Config, es: seq<Event>): State
    requires ValidConfig(cfg) && Legal(cfg, es)
    decreases |es|, 1
  {
    if es == [] then Reset(cfg) else Step(cfg, Exec(cfg, Front(es)), Last(es))
  }

  /** The device's flat memory as the guest's accesses alone determine it: a write stores its low
      bytes, least significant first, at its offset plus the offset of its BAR. */
  function FlatMemory(cfg: Config, es: seq<Event>): Memory
    requires ValidConfig(cfg) && Legal(cfg, es)
  {
    if es == [] then cfg.device
    else
      var m := FlatMemory(cfg, Front(es));
      match Last(es)
      case Issue(Wr(bar, offset, size, value)) => Store(m, (offset + cfg.conf.offsets[bar]) % WORD, ToLE(value, size))
      case _ => m
  }

  // ----- The host's side of a run -----------------------------------------------------------

  /** What a step does to the host link, in the order it happens. */
  function HostEvents(cfg: Config, s: State, e: Event): seq<Host.Event>
    requires ValidConfig(cfg) && Allowed(cfg, s, e) && Defined(cfg, s, e)
  {
    match e
    case Issue(_) => []
    case Return => []
    case Clock(_, device, _) =>
      var wr := if SW.Calls(s.dma.sw, device.sw) then [Host.Push(Dma.WriteFrame(cfg.w, s.dma, device))] else [];
      var rd := if SR.Calls(s.dma.sr, Dma.SrIn(s.poll, device)) then [Host.Push(Dma.ReadFrame(device))] else [];
      if device.readFirst then rd + wr else wr + rd
    case _ => [HostEvent(e)]
  }

  function HostTrace(cfg: Config, es: seq<Event>): seq<Host.Event>
    requires ValidConfig(cfg) && Legal(cfg, es)
  {
    if es == [] then []
    else HostTrace(cfg, Front(es)) + HostEvents(cfg, Exec(cfg, Front(es)), Last(es))
  }

  /** A push made at a clock edge, or none. */
  ghost predicate Pushes(l: Host.Link, a: seq<Host.Event>, l1: Host.Link) {
    if a == [] then l1 == l else |a| == 1 && a[0].Push? && Host.Enabled(l, a[0]) && l1 == Host.Step(l, a[0])
  }

  lemma FollowPush(m0: Memory, t: seq<Host.Event>, l: Host.Link, a: seq<Host.Event>, l1: Host.Link)
    requires Host.Legal(m0, t) && Host.Alike(Host.Exec(m0, t), l) && Pushes(l, a, l1)
    ensures Host.Legal(m0, t + a) && Host.Alike(Host.Exec(m0, t + a), l1)
  {
    if a == [] {
      assert t + a == t;
    } else {
      Host.Follow(m0, t, l, a[0]);
      assert t + a == t + [a[0]];
    }
  }

  lemma FollowPushes(m0: Memory, t: seq<Host.Event>, l: Host.Link, a: seq<Host.Event>, b: seq<Host.Event>, l1: Host.Link, l2: Host.Link)
    requires Host.Legal(m0, t) && Host.Alike(Host.Exec(m0, t), l) && Pushes(l, a, l1) && Pushes(l1, b, l2)
    ensures Host.Legal(m0, t + (a + b)) && Host.Alike(Host.Exec(m0, t + (a + b)), l2)
  {
    FollowPush(m0, t, l, a, l1);
    FollowPush(m0, t + a, l1, b, l2);
    AppendAssociates(t, a, b);
  }

  lemma ClockFollows(cfg: Config, s: State, e: Event, t: seq<Host.Event>)
    requires ValidConfig(cfg) && Allowed(cfg, s, e) && Defined(cfg, s, e) && e.Clock?
    requires Host.Legal(cfg.host, t) && Host.Alike(Host.Exec(cfg.host, t), s.dma.link)
    ensures Host.Legal(cfg.host, t + HostEvents(cfg, s, e))
    ensures Host.Alike(Host.Exec(cfg.host, t + HostEvents(cfg, s, e)), Step(cfg, s, e).dma.link)
  {
    var d, i := s.dma, e.device;
    var l := Dma.Taken(d, e.pick.FromHdl?);
    var wr := if SW.Calls(d.sw, i.sw) then [Host.Push(Dma.WriteFrame(cfg.w, d, i))] else [];
    var rd := if SR.Calls(d.sr, Dma.SrIn(s.poll, i)) then [Host.Push(Dma.ReadFrame(i))] else [];
    if i.readFirst {
      var l1 := Dma.PushRead(d, s.poll, i, l);
      FollowPushes(cfg.host, t, l, rd, wr, l1, Dma.PushWrite(cfg.w, d, i, l1));
    } else {
      var l1 := Dma.PushWrite(cfg.w, d, i, l);
      FollowPushes(cfg.host, t, l, wr, rd, l1, Dma.PushRead(d, s.poll, i, l1));
    }
  }

  /** Every run of the system is, on the host's side, a run of the link. */
  lemma {:induction false} RunsTheLink(cfg: Config, es: seq<Event>)
    requires ValidConfig(cfg) && Legal(cfg, es)
    ensures Host.Legal(cfg.host, HostTrace(cfg, es))
    ensures Host.Alike(Host.Exec(cfg.host, HostTrace(cfg, es)), Exec(cfg, es).dma.link)
  {
    if es != [] {
      var s, t, e := Exec(cfg, Front(es)), HostTrace(cfg, Front(es)), Last(es);
      RunsTheLink(cfg, Front(es));
      match e
      case Issue(_) => assert t + [] == t;
      case Return => assert t + [] == t;
      case Clock(_, _, _) => ClockFollows(cfg, s, e, t);
      case _ => Host.Follow(cfg.host, t, s.dma.link, HostEvent(e));
    }
  }

  // ----- What every run keeps ---------------------------------------------------------------

  lemma FlatStep(cfg: Config, es: seq<Event>)
    requires ValidConfig(cfg) && Legal(cfg, es) && es != []
    requires Last(es).Issue? ==> Last(es).acc.bar < |cfg.conf.offsets|
    ensures FlatMemory(cfg, es)
            == if Last(es).Issue? then Mmio.Meaning(cfg.conf, FlatMemory(cfg, Front(es)), Last(es).acc)
               else FlatMemory(cfg, Front(es))
  {
  }

  ghost predicate Inv(cfg: Config, s: State, flat: Memory, a: int)
    requires ValidConfig(cfg)
  {
    && Mmio.Inv(cfg.w, cfg.conf, s.mmio, s.poll, flat)
    && Dma.Inv(cfg.w, s.dma, s.poll, a)
  }

  lemma StartsInv(cfg: Config, a: int)
    requires ValidConfig(cfg)
    ensures Inv(cfg, Reset(cfg), cfg.device, a)
  {
  }

  /** In a state with the invariant, nothing a compliant neighbour does is undefined. */
  lemma AllowedIsDefined(cfg: Config, s: State, flat: Memory, a: int, e: Event)
    requires ValidConfig(cfg) && Inv(cfg, s, flat, a) && Allowed(cfg, s, e)
    ensures Defined(cfg, s, e)
  {
    if e.Clock? {
      if e.pick.FromQemu? { Mmio.RequestPolls(cfg.w, cfg.conf, s.mmio, s.poll, flat); }
      if e.pick.FromHdl? { Dma.ReplyPolls(cfg.w, cfg.conf, s.dma, s.poll, a); }
      Mmio.AlwaysInBounds(cfg.w, cfg.conf, s.mmio, s.poll, flat);
      Dma.AlwaysInBounds(cfg.w, s.dma, s.poll, a);
      Dma.PushesAreLegal(cfg.w, s.dma, s.poll, e.device);
    }
  }

  lemma StepKeepsInv(cfg: Config, s: State, flat: Memory, a: int, e: Event)
    requires ValidConfig(cfg) && Inv(cfg, s, flat, a) && Allowed(cfg, s, e) && Defined(cfg, s, e)
    requires e.Drain? ==> Dma.HeadRight(s.dma.link, a)
    ensures Inv(cfg, Step(cfg, s, e), if e.Issue? then Mmio.Meaning(cfg.conf, flat, e.acc) else flat, a)
  {
    match e
    case Issue(acc) => Mmio.IssueKeepsInv(cfg.w, cfg.conf, s.mmio, s.poll, flat, acc);
    case Return => Mmio.ReturnKeepsInv(cfg.w, cfg.conf, s.mmio, s.poll, flat);
    case Drain => Dma.DrainKeepsInv(cfg.w, s.dma, s.poll, a);
    case GuestStore(_, _) => Dma.GuestStoreKeepsInv(cfg.w, s.dma, s.poll, a, HostEvent(e));
    case Interrupt(v, residue) => Dma.InterruptKeepsInv(cfg.w, s.dma, s.poll, a, Poll.ReqInterrupt(residue, v));
    case Clock(slave, device, pick) =>
      Mmio.ClockKeepsInv(cfg.w, cfg.conf, s.mmio, s.poll, flat, slave, pick);
      Dma.ClockKeepsInv(cfg.w, cfg.conf, s.dma, s.poll, device, a, pick);
  }

  /** No frame reads a negative address, so the invariant needs no condition there. */
  lemma {:induction false} InvAlways(cfg: Config, es: seq<Event>)
    requires ValidConfig(cfg) && Legal(cfg, es)
    ensures Inv(cfg, Exec(cfg, es), FlatMemory(cfg, es), -1)
  {
    if es == [] {
      StartsInv(cfg, -1);
    } else {
      InvAlways(cfg, Front(es));
      FlatStep(cfg, es);
      StepKeepsInv(cfg, Exec(cfg, Front(es)), FlatMemory(cfg, Front(es)), -1, Last(es));
    }
  }

  lemma MmioInvAlways(cfg: Config, es: seq<Event>)
    requires ValidConfig(cfg) && Legal(cfg, es)
    ensures Mmio.Inv(cfg.w, cfg.conf, Exec(cfg, es).mmio, Exec(cfg, es).poll, FlatMemory(cfg, es))
  {
    InvAlways(cfg, es);
  }

  // ----- The theorems -----------------------------------------------------------------------

  /** In every reachable state, every step the neighbours may take is well defined: no index, copy or
      shift leaves its buffer or word, whichever frame is drained or polled. */
  lemma NeverUndefined(cfg: Config, es: seq<Event>, e: Event)
    requires ValidConfig(cfg) && Legal(cfg, es) && Allowed(cfg, Exec(cfg, es), e)
    ensures Defined(cfg, Exec(cfg, es), e)
  {
    InvAlways(cfg, es);
    AllowedIsDefined(cfg, Exec(cfg, es), FlatMemory(cfg, es), -1, e);
  }

  /** In every reachable state exactly one token (a frame, a dispatch pulse or a busy master engine)
      is in flight when the guest is blocked in an MMIO callback and none otherwise; a dispatch pulse
      meets an idle engine; and exactly one READ is in flight between the slave read engine and QEMU
      when that engine waits for data and none otherwise. */
  lemma OneTokenEach(cfg: Config, es: seq<Event>)
    requires ValidConfig(cfg) && Legal(cfg, es)
    ensures var s := Exec(cfg, es);
            && Mmio.Tokens(s.mmio, s.poll) == (if s.mmio.cpu.Blocked? then 1 else 0)
            && (s.poll.mRd || s.poll.mWr ==> s.mmio.mr.state == MR.Idle && s.mmio.mw.state == MW.Idle)
            && Dma.ReadTokens(s.dma, s.poll) == (if s.dma.sr.state == SR.Data then 1 else 0)
  {
    InvAlways(cfg, es);
  }

  /** Whenever an MMIO read returns, in any run, its value is the little-endian value at its address
      in the flat memory determined by the guest's earlier writes alone: the anonymous response is
      its own, and no other byte was changed along the way. */
  lemma MmioRefinesFlatMemory(cfg: Config, es: seq<Event>)
    requires ValidConfig(cfg) && Legal(cfg, es) && Allowed(cfg, Exec(cfg, es), Return)
    requires Exec(cfg, es).mmio.cpu.acc.Rd?
    ensures Mmio.ReturnsFlat(cfg.conf, Exec(cfg, es).mmio.cpu.acc, Exec(cfg, es).mmio.qemuResp[0], FlatMemory(cfg, es))
  {
    MmioInvAlways(cfg, es);
    Mmio.ReadReturns(cfg.w, cfg.conf, Exec(cfg, es).mmio, Exec(cfg, es).poll, FlatMemory(cfg, es));
  }

  /** In every run, the burst that the AXI slave accepts on AR or AW is that of the blocked access: one
      beat of its size, at its offset plus the offset of its BAR. */
  lemma BusAddress(cfg: Config, es: seq<Event>)
    requires ValidConfig(cfg) && Legal(cfg, es)
    ensures var s := Exec(cfg, es).mmio;
            && (s.rmon.ar.Some? ==> s.cpu.Blocked? && s.cpu.acc.Rd? && Mmio.IsBurstOf(cfg.conf, s.cpu.acc, s.rmon.ar.value))
            && (s.wmon.aw.Some? ==> s.cpu.Blocked? && s.cpu.acc.Wr? && Mmio.IsBurstOf(cfg.conf, s.cpu.acc, s.wmon.aw.value))
  {
    MmioInvAlways(cfg, es);
    var s := Exec(cfg, es);
    Mmio.AcceptedBursts(cfg.w, cfg.conf, s.mmio, s.poll, FlatMemory(cfg, es));
  }

  /** Nothing is cut off when the sum fits the bus. */
  lemma BusAddressIsSum(cfg: Config, acc: Mmio.Access, b: Burst)
    requires Mmio.IsBurstOf(cfg.conf, acc, b) && acc.offset + cfg.conf.offsets[acc.bar] < WORD
    ensures b.addr == acc.offset + cfg.conf.offsets[acc.bar]
  {
  }

  /** In every run, with writes that stay within the window of their BAR and out of each other's, an
      MMIO read through a BAR returns the little-endian value at its offset of an array of bytes that
      the writes through that BAR alone determine, each at its own offset. */
  lemma BarIsByteArray(cfg: Config, es: seq<Event>, bar: nat, sz: nat)
    requires ValidConfig(cfg) && Legal(cfg, es) && Allowed(cfg, Exec(cfg, es), Return)
    requires bar < |cfg.conf.offsets| && cfg.conf.offsets[bar] + sz <= WORD && Mmio.InBars(cfg.conf, Issued(es))
    requires forall k :: 0 <= k < |Issued(es)| ==> Mmio.KeepsWindows(cfg.conf, Issued(es)[k], bar, sz)
    requires var acc := Exec(cfg, es).mmio.cpu.acc; acc.Rd? && acc.bar == bar && acc.offset + acc.size <= sz
    ensures var s, start := Exec(cfg, es).mmio, Mmio.Behind(cfg.conf, cfg.device, bar);
            && |s.qemuResp[0].data| == BUFF_SIZE
            && Mmio.ReturnValue(s.cpu.acc.size, s.qemuResp[0])
               == FromLE(Load(Mmio.BarMemory(bar, start, Issued(es)), s.cpu.acc.offset, s.cpu.acc.size))
  {
    MmioRefinesFlatMemory(cfg, es);
    FlatIsIssued(cfg, es);
    BlockedIsLegal(cfg, es);
    var s := Exec(cfg, es).mmio;
    Mmio.ReturnedThroughBar(cfg.conf, s.cpu.acc, s.qemuResp[0], cfg.device, Issued(es), sz);
  }

  lemma BlockedIsLegal(cfg: Config, es: seq<Event>)
    requires ValidConfig(cfg) && Legal(cfg, es) && Exec(cfg, es).mmio.cpu.Blocked?
    ensures Mmio.LegalAccess(cfg.conf, Exec(cfg, es).mmio.cpu.acc)
  {
    InvAlways(cfg, es);
  }

  /** The guest's accesses so far, in order. */
  function Issued(es: seq<Event>): seq<Mmio.Access> {
    if es == [] then [] else Issued(Front(es)) + if Last(es).Issue? then [Last(es).acc] else []
  }

  lemma {:induction false} FlatIsIssued(cfg: Config, es: seq<Event>)
    requires ValidConfig(cfg) && Legal(cfg, es)
    ensures Mmio.InBars(cfg.conf, Issued(es))
    ensures FlatMemory(cfg, es) == Mmio.AllOf(cfg.conf, cfg.device, Issued(es))
  {
    if es != [] {
      FlatIsIssued(cfg, Front(es));
      FlatStep(cfg, es);
      if Last(es).Issue? {
        Mmio.AllOfSnoc(cfg.conf, cfg.device, Issued(Front(es)), Last(es).acc);
      } else {
        assert Issued(es) == Issued(Front(es));
      }
    }
  }

  /** In every run, an MMIO read of what was written, with no write to those bytes in between, returns
      the value written, cut to the access size. */
  lemma ReadsBackWrites(cfg: Config, es: seq<Event>, before: seq<Mmio.Access>, wr: Mmio.Access, between: seq<Mmio.Access>)
    requires ValidConfig(cfg) && Legal(cfg, es) && Allowed(cfg, Exec(cfg, es), Return) && wr.Wr?
    requires Issued(es) == before + [wr] + between + [Mmio.Rd(wr.bar, wr.offset, wr.size)]
    requires Exec(cfg, es).mmio.cpu.acc == Mmio.Rd(wr.bar, wr.offset, wr.size)
    requires Mmio.SparedBetween(cfg.conf, between, wr)
    ensures |Exec(cfg, es).mmio.qemuResp[0].data| == BUFF_SIZE
    ensures Mmio.ReturnValue(wr.size, Exec(cfg, es).mmio.qemuResp[0]) == wr.value % Pow2(8 * wr.size)
  {
    MmioRefinesFlatMemory(cfg, es);
    FlatIsIssued(cfg, es);
    Mmio.ReturnedBack(cfg.conf, cfg.device, before, wr, between, Issued(es), Exec(cfg, es).mmio.qemuResp[0]);
  }

  /** Whenever the guest is not blocked, the memory behind the AXI slave is that flat memory. */
  lemma DeviceMemoryIsFlat(cfg: Config, es: seq<Event>)
    requires ValidConfig(cfg) && Legal(cfg, es) && Exec(cfg, es).mmio.cpu.Running?
    ensures Same(Exec(cfg, es).mmio.mem, FlatMemory(cfg, es))
  {
    InvAlways(cfg, es);
  }

  // ----- Device reads -----------------------------------------------------------------------

  /** No guest store disturbs byte a for the READ about to be drained, if it is one of that byte. */
  predicate ReadIsClean(cfg: Config, es: seq<Event>, a: int)
    requires ValidConfig(cfg) && Legal(cfg, es)
  {
    var l, t := Exec(cfg, es).dma.link, HostTrace(cfg, es);
    var r := Host.Drains(t);
    var p := Host.PushPoint(t, r);
    l.port.queue != [] && l.port.queue[0].op == Read && Host.Touches(l.port.queue[0], a) ==>
      p <= |t| && Races.NoRace(t, p, r, a)
  }

  /** The event accepts a device read. */
  predicate Accepts(s: State, e: Event) {
    e.Clock? && SR.Calls(s.dma.sr, Dma.SrIn(s.poll, e.device))
  }

  /** The READ of the device read accepted last was undisturbed at byte a when it was drained, or is
      still to be drained. */
  predicate Clean(cfg: Config, es: seq<Event>, a: int)
    requires ValidConfig(cfg) && Legal(cfg, es)
  {
    es == [] || Accepts(Exec(cfg, Front(es)), Last(es)) ||
    (Clean(cfg, Front(es), a) && (Last(es).Drain? ==> ReadIsClean(cfg, Front(es), a)))
  }

  lemma CleanHead(cfg: Config, es: seq<Event>, a: int)
    requires ValidConfig(cfg) && Legal(cfg, es) && ReadIsClean(cfg, es, a)
    ensures Dma.HeadRight(Exec(cfg, es).dma.link, a)
  {
    var l := Exec(cfg, es).dma.link;
    if Dma.Linked(l) && l.port.queue != [] && l.port.queue[0].op == Read && Host.Touches(l.port.queue[0], a) {
      RunsTheLink(cfg, es);
      Races.UndisturbedHead(cfg.host, HostTrace(cfg, es), a);
    }
  }

  lemma {:induction false} InvWhenClean(cfg: Config, es: seq<Event>, a: int)
    requires ValidConfig(cfg) && Legal(cfg, es) && Clean(cfg, es, a)
    ensures Inv(cfg, Exec(cfg, es), FlatMemory(cfg, es), a)
  {
    if es == [] {
      StartsInv(cfg, a);
    } else if Accepts(Exec(cfg, Front(es)), Last(es)) {
      FlatStep(cfg, es);
      InvAlways(cfg, Front(es));
      InvOfNewRead(cfg, Exec(cfg, Front(es)), FlatMemory(cfg, Front(es)), a, Last(es));
    } else {
      InvWhenClean(cfg, Front(es), a);
      FlatStep(cfg, es);
      if Last(es).Drain? { CleanHead(cfg, Front(es), a); }
      StepKeepsInv(cfg, Exec(cfg, Front(es)), FlatMemory(cfg, Front(es)), a, Last(es));
    }
  }

  lemma InvOfNewRead(cfg: Config, s: State, flat: Memory, a: int, e: Event)
    requires ValidConfig(cfg) && Inv(cfg, s, flat, -1) && Allowed(cfg, s, e) && Defined(cfg, s, e) && Accepts(s, e)
    ensures Inv(cfg, Step(cfg, s, e), flat, a)
  {
    Mmio.ClockKeepsInv(cfg.w, cfg.conf, s.mmio, s.poll, flat, e.slave, e.pick);
    Dma.AcceptKeepsInv(cfg.w, cfg.conf, s.dma, s.poll, e.device, -1, a, e.pick);
  }

  /** Whenever a beat is on the R channel, in any run, it belongs to the read being served: it has that
      read's ARID, and RLAST exactly on its last beat. */
  lemma BeatIdentified(cfg: Config, es: seq<Event>)
    requires ValidConfig(cfg) && Legal(cfg, es) && Exec(cfg, es).dma.sr.rvalid
    ensures Exec(cfg, es).dma.rd.Some?
    ensures var s := Exec(cfg, es).dma;
            var r := s.rd.value;
            s.sr.id == r.id && r.got <= r.b.len && (s.sr.rlast <==> r.got == r.b.len)
  {
    InvAlways(cfg, es);
  }

  /** And each active lane of it carries the byte that a memory changed at once by every completed
      write burst held when the read was accepted, if no guest store disturbed that byte for that
      read. */
  lemma DmaRefinesAtomicMemory(cfg: Config, es: seq<Event>, j: nat, a: int)
    requires ValidConfig(cfg) && Legal(cfg, es) && Clean(cfg, es, a)
    requires Exec(cfg, es).dma.sr.rvalid && j < cfg.w
    requires Exec(cfg, es).dma.rd.Some? && Dma.CarriesByte(cfg.w, Exec(cfg, es).dma.rd.value, j, a)
    ensures |Exec(cfg, es).dma.sr.rdata| == cfg.w
    ensures Exec(cfg, es).dma.sr.rdata[j] == Exec(cfg, es).dma.rd.value.snap(a)
  {
    ReadInvWhenClean(cfg, es, a);
    Dma.BeatShowsSnapshot(cfg.w, Exec(cfg, es).dma, Exec(cfg, es).poll, a, j);
  }

  lemma ReadInvWhenClean(cfg: Config, es: seq<Event>, a: int)
    requires ValidConfig(cfg) && Legal(cfg, es) && Clean(cfg, es, a)
    ensures Dma.ReadInv(cfg.w, Exec(cfg, es).dma, Exec(cfg, es).poll, a)
  {
    InvWhenClean(cfg, es, a);
  }

  /** The condition is exact: for a READ about to be drained in any run of the system, the host-side
      schedule of the run makes it right at byte a for all data if and only if it is undisturbed. */
  lemma ReadIsCleanExactly(cfg: Config, es: seq<Event>, a: int)
    requires ValidConfig(cfg) && Legal(cfg, es) && Exec(cfg, es).dma.link.port.queue != []
    requires var f := Exec(cfg, es).dma.link.port.queue[0]; f.op == Read && Host.Touches(f, a)
    ensures ReadIsClean(cfg, es, a) <==> Races.AlwaysRight(HostTrace(cfg, es), a)
  {
    InvAlways(cfg, es);
    RunsTheLink(cfg, es);
    Races.PostedReadsExact(cfg.host, HostTrace(cfg, es), a);
  }

  // ----- A polite guest disturbs nothing ----------------------------------------------------

  /** Throughout the run the guest stores to byte a only while no queued frame touches it. */
  predicate PoliteAt(cfg: Config, es: seq<Event>, a: int)
    requires ValidConfig(cfg) && Legal(cfg, es)
  {
    es == [] ||
    (PoliteAt(cfg, Front(es), a) &&
     (Last(es).GuestStore? ==> Host.Polite(Exec(cfg, Front(es)).dma.link, HostEvent(Last(es)), a)))
  }

  lemma {:induction false} PolitePushes(m0: Memory, t: seq<Host.Event>, x: seq<Host.Event>, a: int)
    requires Host.Legal(m0, t) && Host.AlwaysPolite(m0, t, a) && Host.Legal(m0, t + x)
    requires forall k :: 0 <= k < |x| ==> x[k].Push?
    ensures Host.AlwaysPolite(m0, t + x, a)
  {
    if x == [] {
      assert t + x == t;
    } else {
      assert Front(t + x) == t + Front(x);
      PolitePushes(m0, t, Front(x), a);
    }
  }

  lemma OnlyPushes(cfg: Config, s: State, e: Event)
    requires ValidConfig(cfg) && Allowed(cfg, s, e) && Defined(cfg, s, e) && !e.Drain? && !e.GuestStore?
    ensures forall k :: 0 <= k < |HostEvents(cfg, s, e)| ==> HostEvents(cfg, s, e)[k].Push?
  {
  }

  lemma PoliteFollows(m0: Memory, t: seq<Host.Event>, l: Host.Link, e: Host.Event, a: int)
    requires Host.Legal(m0, t) && Host.AlwaysPolite(m0, t, a) && Host.Alike(Host.Exec(m0, t), l)
    requires Host.Enabled(l, e) && Host.Polite(l, e, a)
    ensures Host.Legal(m0, t + [e]) && Host.AlwaysPolite(m0, t + [e], a)
  {
    Host.PoliteSnoc(m0, t, e, a);
  }

  lemma PoliteStep(cfg: Config, s: State, e: Event, t: seq<Host.Event>, a: int)
    requires ValidConfig(cfg) && Allowed(cfg, s, e) && Defined(cfg, s, e)
    requires Host.Legal(cfg.host, t) && Host.AlwaysPolite(cfg.host, t, a) && Host.Alike(Host.Exec(cfg.host, t), s.dma.link)
    requires e.GuestStore? ==> Host.Polite(s.dma.link, HostEvent(e), a)
    requires Host.Legal(cfg.host, t + HostEvents(cfg, s, e))
    ensures Host.AlwaysPolite(cfg.host, t + HostEvents(cfg, s, e), a)
  {
    if e.Drain? || e.GuestStore? {
      PoliteFollows(cfg.host, t, s.dma.link, HostEvent(e), a);
    } else {
      OnlyPushes(cfg, s, e);
      PolitePushes(cfg.host, t, HostEvents(cfg, s, e), a);
    }
  }

  lemma {:induction false} PoliteTrace(cfg: Config, es: seq<Event>, a: int)
    requires ValidConfig(cfg) && Legal(cfg, es) && PoliteAt(cfg, es, a)
    ensures Host.Legal(cfg.host, HostTrace(cfg, es)) && Host.AlwaysPolite(cfg.host, HostTrace(cfg, es), a)
  {
    RunsTheLink(cfg, es);
    if es != [] {
      PoliteTrace(cfg, Front(es), a);
      RunsTheLink(cfg, Front(es));
      PoliteStep(cfg, Exec(cfg, Front(es)), Last(es), HostTrace(cfg, Front(es)), a);
    }
  }

  /** So the condition holds whenever the guest stores to the byte only while no queued frame
      touches it. */
  lemma {:induction false} PoliteIsClean(cfg: Config, es: seq<Event>, a: int)
    requires ValidConfig(cfg) && Legal(cfg, es) && PoliteAt(cfg, es, a)
    ensures Clean(cfg, es, a)
  {
    if es != [] {
      PoliteIsClean(cfg, Front(es), a);
      if Last(es).Drain? { PoliteReadIsClean(cfg, Front(es), a); }
    }
  }

  lemma PoliteReadIsClean(cfg: Config, es: seq<Event>, a: int)
    requires ValidConfig(cfg) && Legal(cfg, es) && PoliteAt(cfg, es, a)
    ensures ReadIsClean(cfg, es, a)
  {
    PoliteTrace(cfg, es, a);
    RunsTheLink(cfg, es);
    InvAlways(cfg, es);
    var l := Exec(cfg, es).dma.link;
    if l.port.queue != [] && l.port.queue[0].op == Read && Host.Touches(l.port.queue[0], a) {
      Races.PoliteMeansNoRace(cfg.host, HostTrace(cfg, es), a);
    }
  }

  // ----- Interrupts -------------------------------------------------------------------------

  /** The vectors the device raised, in order. */
  function Raised(es: seq<Event>): seq<nat> {
    if es == [] then [] else Raised(Front(es)) + if Last(es).Interrupt? then [Last(es).vector] else []
  }

  lemma {:induction false} NoVectorsPushed(t: seq<Host.Event>, x: seq<Host.Event>)
    requires forall k :: 0 <= k < |x| ==> x[k].Push? && x[k].frame.op != Intr
    ensures Host.VectorsIn(Host.Pushed(t + x)) == Host.VectorsIn(Host.Pushed(t))
  {
    if x == [] {
      assert t + x == t;
    } else {
      assert Front(t + x) == t + Front(x) && Last(t + x) == Last(x);
      NoVectorsPushed(t, Front(x));
      Host.DrainedSnoc(Host.Pushed(t + Front(x)), Last(x).frame);
    }
  }

  lemma ClockVectors(cfg: Config, s: State, e: Event, t: seq<Host.Event>)
    requires ValidConfig(cfg) && Allowed(cfg, s, e) && Defined(cfg, s, e) && e.Clock?
    ensures Host.VectorsIn(Host.Pushed(t + HostEvents(cfg, s, e))) == Host.VectorsIn(Host.Pushed(t))
  {
    NoVectorsPushed(t, HostEvents(cfg, s, e));
  }

  lemma VectorsOfStep(cfg: Config, s: State, e: Event, t: seq<Host.Event>)
    requires ValidConfig(cfg) && Allowed(cfg, s, e) && Defined(cfg, s, e)
    ensures Host.VectorsIn(Host.Pushed(t + HostEvents(cfg, s, e)))
            == Host.VectorsIn(Host.Pushed(t)) + if e.Interrupt? then [e.vector] else []
  {
    var x := HostEvents(cfg, s, e);
    match e
    case Issue(_) => assert t + x == t;
    case Return => assert t + x == t;
    case Clock(_, _, _) => ClockVectors(cfg, s, e, t);
    case Drain =>
      Host.PushedSnoc(t, HostEvent(e));
      assert Host.Pushed(t + x) == Host.Pushed(t);
    case GuestStore(_, _) =>
      Host.PushedSnoc(t, HostEvent(e));
      assert Host.Pushed(t + x) == Host.Pushed(t);
    case Interrupt(v, residue) =>
      Host.PushedSnoc(t, HostEvent(e));
      Host.DrainedSnoc(Host.Pushed(t), Poll.ReqInterrupt(residue, v));
  }

  /** What the device pushes as INTR frames is what it raises. */
  lemma {:induction false} VectorsAreRaised(cfg: Config, es: seq<Event>)
    requires ValidConfig(cfg) && Legal(cfg, es)
    ensures Host.VectorsIn(Host.Pushed(HostTrace(cfg, es))) == Raised(es)
  {
    if es != [] {
      VectorsAreRaised(cfg, Front(es));
      VectorsOfStep(cfg, Exec(cfg, Front(es)), Last(es), HostTrace(cfg, Front(es)));
    }
  }

  lemma {:induction false} VectorsSplit(x: seq<Frame>, y: seq<Frame>)
    ensures Host.VectorsIn(x + y) == Host.VectorsIn(x) + Host.VectorsIn(y)
  {
    if y == [] {
      assert x + y == x;
    } else {
      assert x + y == (x + Front(y)) + [Last(y)] && y == Front(y) + [Last(y)];
      VectorsSplit(x, Front(y));
      Host.DrainedSnoc(x + Front(y), Last(y));
      Host.DrainedSnoc(Front(y), Last(y));
    }
  }

  /** In every reachable state, the vectors QEMU was notified of, followed by those of the queued INTR
      frames, are exactly the vectors the device raised, in order: none lost, none invented. */
  lemma InterruptsConserved(cfg: Config, es: seq<Event>)
    requires ValidConfig(cfg) && Legal(cfg, es)
    ensures var p := Exec(cfg, es).dma.link.port;
            p.notified + Host.VectorsIn(p.queue) == Raised(es) && |p.notified| <= |Raised(es)|
            && p.notified == Raised(es)[..|p.notified|]
  {
    RunsTheLink(cfg, es);
    VectorsAreRaised(cfg, es);
    Host.HistoryFields(cfg.host, HostTrace(cfg, es));
    Host.RecordedAlways(cfg.host, HostTrace(cfg, es));
    var l := Exec(cfg, es).dma.link;
    VectorsSplit(l.drained, l.port.queue);
  }

  lemma HeadVector(q: seq<Frame>)
    requires q != [] && q[0].op == Intr
    ensures Host.VectorsIn(q) == [q[0].vector] + Host.VectorsIn(q[1..])
  {
    assert q == [q[0]] + q[1..];
    VectorsSplit([q[0]], q[1..]);
    assert Front([q[0]]) == [];
  }

  /** Whenever QEMU is about to notify an interrupt, in any run of the system: everything the device
      pushed before it has been handled; host memory is the initial memory with exactly those of its
      writes and the guest's own stores applied, in the order of the run; and the vector is the one
      the device raised next after those notified so far. */
  lemma InterruptsFollowData(cfg: Config, es: seq<Event>)
    requires ValidConfig(cfg) && Legal(cfg, es) && Exec(cfg, es).dma.link.port.queue != []
    requires Exec(cfg, es).dma.link.port.queue[0].op == Intr
    ensures var l, pushed := Exec(cfg, es).dma.link, Host.Pushed(HostTrace(cfg, es));
            var n := |l.drained|;
            && n < |pushed| && pushed[n] == l.port.queue[0] && l.drained == pushed[..n]
            && Host.Recorded(cfg.host, l) && l.ops == Host.History(HostTrace(cfg, es))
            && Host.DmaFrames(l.ops) == Host.WritesIn(pushed[..n])
    ensures var p := Exec(cfg, es).dma.link.port;
            && |p.notified| < |Raised(es)| && p.notified == Raised(es)[..|p.notified|]
            && p.queue[0].vector == Raised(es)[|p.notified|]
  {
    RunsTheLink(cfg, es);
    Host.InterruptsFollowData(cfg.host, HostTrace(cfg, es));
    InterruptsConserved(cfg, es);
    HeadVector(Exec(cfg, es).dma.link.port.queue);
  }

  // ----- Identifiers ------------------------------------------------------------------------

  /** The MMIO request in the queue carries the number of the access, and a READ or its reply carries
      the ARID of the device read it serves. */
  lemma FramesIdentified(cfg: Config, es: seq<Event>)
    requires ValidConfig(cfg) && Legal(cfg, es)
    ensures var s := Exec(cfg, es);
            && (s.mmio.qemuReq != [] ==> s.mmio.qemuReq[0].id == |Issued(es)| % 0x1_0000_0000)
            && (forall k :: 0 <= k < |s.dma.link.port.queue| && s.dma.link.port.queue[k].op == Read ==>
                  s.dma.rd.Some? && s.dma.link.port.queue[k].id == s.dma.rd.value.id)
            && (s.dma.link.port.replies != [] ==>
                  s.dma.rd.Some? && s.dma.link.port.replies[0].id == s.dma.rd.value.id)
  {
    InvAlways(cfg, es);
    TransactionNumber(cfg, es);
    Dma.ReadsInNone(Exec(cfg, es).dma.link.port.queue);
  }

  lemma {:induction false} TransactionNumber(cfg: Config, es: seq<Event>)
    requires ValidConfig(cfg) && Legal(cfg, es)
    ensures Exec(cfg, es).mmio.txid == |Issued(es)|
  {
    if es != [] { TransactionNumber(cfg, Front(es)); }
  }
}
