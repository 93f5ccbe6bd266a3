/** The DMA path: the device's AXI bursts on the slave engines, the queue to QEMU and host memory.
    The reference is an AXI memory that changes, beat by beat, on the handshake of the last W beat,
    and that a read sees as it is on the handshake of its AR. */
module Dma {
  import opened Bytes
  import opened Axi
  import opened Frames
  import opened ReadLanes
  import Compaction
  import Poll
  import Host
  import SR = SlaveRead
  import SW = SlaveWrite

  /** A read on the wires: its burst, the reference memory when it was accepted, the beats taken. */
  datatype Reading = Reading(id: nat, b: Burst, snap: Memory, got: nat)

  datatype Side = Side(
    link: Host.Link, sr: SR.Regs, sw: SW.Regs, wmon: SW.Mon, axi: Memory, rd: Option<Reading>)

  /** What the device drives before an edge, the stack residue under the two request structs, and
      which of two requests made at the same edge is sent first. */
  datatype In = In(
    sw: SW.In, arvalid: bool, arid: nat, ar: Burst, rready: bool,
    residueR: Frame, residueW: Frame, readFirst: bool)

  function Reset(w: nat, m0: Memory): Side
    requires w > 0
  {
    Side(Host.Start(m0), SR.Reset(w), SW.Reset(w), SW.QUIET, m0, None)
  }

  function SrIn(p: Poll.Regs, i: In): SR.In {
    SR.In(p.sRd, p.data, i.arvalid, i.arid, i.ar.addr, i.ar.size, i.ar.len, i.rready)
  }

  // ----- Frames pushed at an edge -----------------------------------------------------------

  function WriteFrame(w: nat, s: Side, i: In): Frame
    requires s.sw.len + 1 <= |SW.Next(w, s.sw, i.sw).strb|
  {
    var sw' := SW.Next(w, s.sw, i.sw);
    Compaction.ReqWrite(i.residueW, Burst(s.sw.addr, s.sw.size, s.sw.len),
                        Compaction.BeatsIn(w, sw'.data, sw'.strb, s.sw.len + 1))
  }

  function ReadFrame(i: In): Frame {
    Poll.ReqRead(i.residueR, i.ar, i.arid)
  }

  predicate PushesLegal(w: nat, s: Side, p: Poll.Regs, i: In) {
    && (SW.Calls(s.sw, i.sw) ==>
        s.sw.len + 1 <= |SW.Next(w, s.sw, i.sw).strb| && WellFormed(WriteFrame(w, s, i)))
    && (SR.Calls(s.sr, SrIn(p, i)) ==> WellFormed(ReadFrame(i)))
  }

  function PushWrite(w: nat, s: Side, i: In, l: Host.Link): Host.Link
    requires SW.Calls(s.sw, i.sw) ==>
               s.sw.len + 1 <= |SW.Next(w, s.sw, i.sw).strb| && WellFormed(WriteFrame(w, s, i))
  {
    if SW.Calls(s.sw, i.sw) then Host.Step(l, Host.Push(WriteFrame(w, s, i))) else l
  }

  function PushRead(s: Side, p: Poll.Regs, i: In, l: Host.Link): Host.Link
    requires SR.Calls(s.sr, SrIn(p, i)) ==> WellFormed(ReadFrame(i))
  {
    if SR.Calls(s.sr, SrIn(p, i)) then Host.Step(l, Host.Push(ReadFrame(i))) else l
  }

  // ----- The reference ----------------------------------------------------------------------

  /** The W handshake at this edge completes a burst. */
  predicate Completes(s: Side, i: In) {
    i.sw.wvalid && s.sw.wready && s.wmon.burst.Some? && |s.wmon.beats| == s.wmon.burst.value.len
  }

  function AxiNext(w: nat, s: Side, i: In, m: Memory): Memory
    requires w > 0
  {
    if Completes(s, i)
    then WriteBeats(w, m, s.wmon.burst.value, s.wmon.beats + [WBeat(i.sw.wdata, i.sw.wstrb)])
    else m
  }

  /** The reference memory a read accepted at this edge sees. */
  function Seen(w: nat, s: Side, i: In): Memory
    requires w > 0
  {
    if i.readFirst then s.axi else AxiNext(w, s, i, s.axi)
  }

  function ReadingNext(w: nat, s: Side, i: In): Option<Reading>
    requires w > 0
  {
    if i.arvalid && s.sr.arready then
      Some(Reading(i.arid, i.ar, Seen(w, s, i), 0))
    else if s.sr.rvalid && i.rready && s.rd.Some? then
      if s.rd.value.got == s.rd.value.b.len then None else Some(s.rd.value.(got := s.rd.value.got + 1))
    else s.rd
  }

  // ----- Steps ------------------------------------------------------------------------------

  /** One clock edge; the dispatcher has taken the head of hdl_resp if `popped`. */
  function Clock(w: nat, s: Side, p: Poll.Regs, i: In, popped: bool): Side
    requires w > 0 && PushesLegal(w, s, p, i) && (popped ==> s.link.port.replies != [])
  {
    var l0 := if popped then s.link.(port := s.link.port.(replies := s.link.port.replies[1..])) else s.link;
    var l := if i.readFirst then PushWrite(w, s, i, PushRead(s, p, i, l0))
             else PushRead(s, p, i, PushWrite(w, s, i, l0));
    Side(l, SR.Next(w, s.sr, SrIn(p, i)), SW.Next(w, s.sw, i.sw), SW.Observe(s.wmon, s.sw, i.sw),
         AxiNext(w, s, i, s.axi), ReadingNext(w, s, i))
  }

  /** A drain or a guest store; the latter also changes the reference memory. */
  function HostStep(s: Side, e: Host.Event): Side
    requires Host.Enabled(s.link, e)
  {
    s.(link := Host.Step(s.link, e),
       axi := if e.GuestStore? then Store(s.axi, e.addr, e.data) else s.axi)
  }

  // ----- The device's side of the protocol --------------------------------------------------

  /** Beats have a legal size. Writes have no more beats than the collecting buffers hold, narrow or
      not, and strobe every byte they announce. Reads have one of the three shapes, and their bytes
      fit the reply buffer from the first byte's lane on. RREADY is high when a last beat is shown. */
  predicate DeviceCompliant(w: nat, s: Side, i: In)
    requires w > 0
  {
    WriteCompliant(w, s, i) && ReadCompliant(w, s, i)
  }

  predicate WriteCompliant(w: nat, s: Side, i: In)
    requires w > 0
  {
    && SW.Compliant(w, i.sw)
    && (i.sw.awvalid && s.sw.awready ==>
        var b := Burst(i.sw.awaddr, i.sw.awsize, i.sw.awlen); LegalSize(w, b) && SW.Fits(w, b))
    && (i.sw.wvalid && s.sw.wready && s.wmon.burst.Some? ==>
        && LegalBeat(w, s.wmon.burst.value, |s.wmon.beats|, WBeat(i.sw.wdata, i.sw.wstrb))
        && Compaction.FullBeat(s.wmon.burst.value, WBeat(i.sw.wdata, i.sw.wstrb)))
    && |i.residueW.data| == BUFF_SIZE
  }

  predicate ReadCompliant(w: nat, s: Side, i: In)
    requires w > 0
  {
    && i.ar.len < 256
    && (i.arvalid && s.sr.arready ==>
        LegalSize(w, i.ar) && ReadShape(w, i.ar) && i.ar.addr % w + TotalBytes(i.ar) <= BUFF_SIZE)
    && (s.sr.rvalid && s.sr.rlast ==> i.rready)
    && |i.residueR.data| == BUFF_SIZE
  }

  // ----- Writes -----------------------------------------------------------------------------

  /** The collected beats so far are legal and fully strobed. */
  predicate WriteInv(w: nat, s: Side)
    requires w > 0
  {
    && SW.Inv(w, s.sw, s.wmon)
    && (s.wmon.burst.Some? ==>
        && LegalSize(w, s.wmon.burst.value) && SW.Fits(w, s.wmon.burst.value)
        && LegalBeats(w, s.wmon.burst.value, s.wmon.beats)
        && forall k :: 0 <= k < |s.wmon.beats| ==> Compaction.FullBeat(s.wmon.burst.value, s.wmon.beats[k]))
  }

  lemma WriteStep(w: nat, s: Side, i: In)
    requires BusWidth(w) && WriteInv(w, s) && WriteCompliant(w, s, i)
    ensures SW.Inv(w, SW.Next(w, s.sw, i.sw), SW.Observe(s.wmon, s.sw, i.sw))
    ensures SW.Calls(s.sw, i.sw) <==> Completes(s, i)
    ensures var m := SW.Observe(s.wmon, s.sw, i.sw);
            m.burst.Some? ==>
              && LegalSize(w, m.burst.value) && SW.Fits(w, m.burst.value) && LegalBeats(w, m.burst.value, m.beats)
              && forall k :: 0 <= k < |m.beats| ==> Compaction.FullBeat(m.burst.value, m.beats[k])
  {
    SW.StepKeepsInv(w, s.sw, s.wmon, i.sw);
  }

  lemma SmallerThanBuffer(w: nat, b: Burst)
    requires LegalSize(w, b) && (b.len + 1) * w <= BUFF_SIZE
    ensures TotalBytes(b) <= BUFF_SIZE
  {
    MulMono(Pow2(b.size), w, b.len + 1);
  }

  /** The frame pushed on the last beat is that of the burst and all its beats. */
  lemma WriteFrameOf(w: nat, s: Side, i: In)
    requires BusWidth(w) && WriteInv(w, s) && WriteCompliant(w, s, i) && SW.Calls(s.sw, i.sw)
    ensures s.wmon.burst.Some? && s.sw.len + 1 <= |SW.Next(w, s.sw, i.sw).strb|
    ensures var b, beats := s.wmon.burst.value, s.wmon.beats + [WBeat(i.sw.wdata, i.sw.wstrb)];
            && WriteFrame(w, s, i) == Compaction.ReqWrite(i.residueW, b, beats)
            && LegalSize(w, b) && SW.Fits(w, b) && |beats| == b.len + 1 && LegalBeats(w, b, beats)
            && forall k :: 0 <= k < |beats| ==> Compaction.FullBeat(b, beats[k])
  {
    SW.StepKeepsInv(w, s.sw, s.wmon, i.sw);
    BeatsWithLast(w, s.wmon.burst.value, s.wmon.beats, WBeat(i.sw.wdata, i.sw.wstrb));
  }

  lemma BeatsWithLast(w: nat, b: Burst, beats: seq<WBeat>, last: WBeat)
    requires w > 0 && LegalBeats(w, b, beats) && LegalBeat(w, b, |beats|, last) && Compaction.FullBeat(b, last)
    requires forall k :: 0 <= k < |beats| ==> Compaction.FullBeat(b, beats[k])
    ensures LegalBeats(w, b, beats + [last])
    ensures forall k :: 0 <= k < |beats + [last]| ==> Compaction.FullBeat(b, (beats + [last])[k])
  {
  }

  /** The frame pushed on the last beat writes what the beats write, whatever the residue. */
  lemma WritePushed(w: nat, s: Side, i: In)
    requires BusWidth(w) && WriteInv(w, s) && WriteCompliant(w, s, i) && SW.Calls(s.sw, i.sw)
    ensures s.sw.len + 1 <= |SW.Next(w, s.sw, i.sw).strb| && WellFormed(WriteFrame(w, s, i))
    ensures WriteFrame(w, s, i).op == Write
    ensures forall m :: Same(Host.Apply(m, WriteFrame(w, s, i)),
                             WriteBeats(w, m, s.wmon.burst.value, s.wmon.beats + [WBeat(i.sw.wdata, i.sw.wstrb)]))
  {
    WriteFrameOf(w, s, i);
    var b, beats := s.wmon.burst.value, s.wmon.beats + [WBeat(i.sw.wdata, i.sw.wstrb)];
    SW.FitsInBytes(w, b);
    SmallerThanBuffer(w, b);
    FullCount(w, b, beats);
    FullBurstFrame(w, i.residueW, b, beats);
  }

  lemma FullBurstFrame(w: nat, residue: Frame, b: Burst, beats: seq<WBeat>)
    requires BusWidth(w) && LegalSize(w, b) && LegalBeats(w, b, beats) && |beats| == b.len + 1
    requires TotalBytes(b) <= BUFF_SIZE && |Compaction.GatherAll(beats)| == TotalBytes(b) && |residue.data| == BUFF_SIZE
    ensures var f := Compaction.ReqWrite(residue, b, beats);
            WellFormed(f) && forall m :: Same(Host.Apply(m, f), WriteBeats(w, m, b, beats))
  {
    var f := Compaction.ReqWrite(residue, b, beats);
    forall m ensures Same(Host.Apply(m, f), WriteBeats(w, m, b, beats)) {
      Compaction.CompactionExact(w, m, b, beats);
      assert Host.Apply(m, f) == Compaction.HostWrite(m, f);
    }
  }

  lemma FullCount(w: nat, b: Burst, beats: seq<WBeat>)
    requires BusWidth(w) && LegalSize(w, b) && LegalBeats(w, b, beats) && |beats| == b.len + 1
    requires forall k :: 0 <= k < |beats| ==> Compaction.FullBeat(b, beats[k])
    ensures |Compaction.GatherAll(beats)| == TotalBytes(b)
  {
    Compaction.BurstCount(w, b, beats);
  }

  // ----- Reads ------------------------------------------------------------------------------

  function ReadsIn(q: seq<Frame>): nat {
    if q == [] then 0 else ReadsIn(q[..|q| - 1]) + if q[|q| - 1].op == Read then 1 else 0
  }

  lemma {:induction false} ReadsInHead(q: seq<Frame>)
    requires q != []
    ensures ReadsIn(q) == ReadsIn(q[1..]) + if q[0].op == Read then 1 else 0
  {
    var n := |q| - 1;
    if n > 0 {
      ReadsInHead(q[..n]);
      assert q[..n][1..] == q[1..][..n - 1];
    } else {
      assert q[1..] == [] && q[..0] == [];
    }
  }

  lemma {:induction false} ReadsInNone(q: seq<Frame>)
    ensures ReadsIn(q) == 0 <==> forall k :: 0 <= k < |q| ==> q[k].op != Read
  {
    if q != [] {
      ReadsInNone(q[..|q| - 1]);
      assert forall k :: 0 <= k < |q| - 1 ==> q[..|q| - 1][k] == q[k];
    }
  }

  /** Reads in flight between the AR handshake and the arrival of the data. */
  function ReadTokens(s: Side, p: Poll.Regs): nat {
    ReadsIn(s.link.port.queue) + |s.link.port.replies| + (if p.sRd then 1 else 0)
  }

  predicate InBurst(b: Burst, a: int) {
    b.addr <= a < b.addr + TotalBytes(b)
  }

  /** The bridge's buffer shows byte a of burst b as the snapshot has it. */
  predicate Carries(w: nat, r: Reading, a: int, buf: seq<byte>)
    requires w > 0
  {
    |buf| == BUFF_SIZE &&
    (InBurst(r.b, a) ==> 0 <= a - AlignDown(r.b.addr, w) < |buf| && buf[a - AlignDown(r.b.addr, w)] == r.snap(a))
  }

  predicate RequestFor(r: Reading, f: Frame) {
    f.id == r.id && f.address == r.b.addr && f.dataSize == TotalBytes(r.b) && |f.data| == BUFF_SIZE
  }

  predicate ReplyFor(r: Reading, a: int, f: Frame) {
    RequestFor(r, f) && f.dataSize <= BUFF_SIZE && (InBurst(r.b, a) ==> f.data[a - f.address] == r.snap(a))
  }

  predicate LegalReading(w: nat, r: Reading)
    requires w > 0
  {
    LegalSize(w, r.b) && ReadShape(w, r.b) && r.b.addr % w + TotalBytes(r.b) <= BUFF_SIZE && r.b.len < 256
  }

  /** The engine's registers agree with the beats taken so far. */
  predicate Streaming(w: nat, sr: SR.Regs, r: Reading) {
    && r.id == sr.id && r.b.len == sr.len && r.got <= r.b.len
    && (sr.state == SR.Data ==> r.got == 0)
    && (sr.state == SR.Response ==> sr.cnt == r.got + (if sr.rvalid then 1 else 0))
    && (sr.state == SR.Idle ==> sr.rvalid && r.got == r.b.len)
    && (sr.rvalid ==> sr.rdata == Slice(sr.data, w * r.got, w) && (sr.rlast <==> r.got == r.b.len))
  }

  /** A request or reply under way belongs to the read and carries byte a of its snapshot. */
  predicate InTransit(l: Host.Link, r: Reading, a: int)
    requires |l.snaps| == |l.port.queue|
  {
    && (forall k :: 0 <= k < |l.port.queue| && l.port.queue[k].op == Read ==>
          RequestFor(r, l.port.queue[k]) && l.snaps[k](a) == r.snap(a))
    && (l.port.replies != [] ==> ReplyFor(r, a, l.port.replies[0]))
  }

  /** Where the read is, and what it carries of byte a there. */
  predicate ReadAt(w: nat, s: Side, p: Poll.Regs, r: Reading, a: int)
    requires w > 0 && |s.link.snaps| == |s.link.port.queue|
  {
    && LegalReading(w, r) && Streaming(w, s.sr, r) && InTransit(s.link, r, a)
    && (p.sRd ==> Carries(w, r, a, p.data))
    && (s.sr.state != SR.Data ==> Carries(w, r, a, s.sr.data))
  }

  predicate ReadInv(w: nat, s: Side, p: Poll.Regs, a: int)
    requires w > 0
  {
    && SR.Shape(s.sr) && |s.link.snaps| == |s.link.port.queue| && |p.data| == BUFF_SIZE
    && ReadTokens(s, p) == (if s.sr.state == SR.Data then 1 else 0)
    && (s.rd.None? <==> s.sr.state == SR.Idle && !s.sr.rvalid)
    && (s.rd.Some? ==> ReadAt(w, s, p, s.rd.value, a))
  }

  /** The queue holds well-formed frames, each with the atomic memory of its push. */
  predicate Linked(l: Host.Link) {
    Host.AllWellFormed(l.port.queue) && |l.snaps| == |l.port.queue|
  }

  ghost predicate Inv(w: nat, s: Side, p: Poll.Regs, a: int)
    requires w > 0
  {
    WriteInv(w, s) && Linked(s.link) && Same(s.link.atomic, s.axi) && ReadInv(w, s, p, a)
  }

  // ----- What an R handshake shows ----------------------------------------------------------

  /** Lane j of the beat being presented is an active one and stands for byte a. */
  predicate CarriesByte(w: nat, r: Reading, j: nat, a: int)
    requires w > 0
  {
    Active(w, r.b, r.got, j) && a == BeatWord(w, r.b, r.got) + j
  }

  /** Byte a, where it is an active byte of the beat on the R channel, is the snapshot's. */
  lemma BeatShowsSnapshot(w: nat, s: Side, p: Poll.Regs, a: int, j: nat)
    requires BusWidth(w) && ReadInv(w, s, p, a) && s.sr.rvalid && j < w
    requires s.rd.Some? && CarriesByte(w, s.rd.value, j, a)
    ensures |s.sr.rdata| == w && s.sr.rdata[j] == s.rd.value.snap(a)
  {
    SliceShowsSnapshot(w, s.rd.value, a, j, s.sr.data);
  }

  lemma SliceShowsSnapshot(w: nat, r: Reading, a: int, j: nat, buf: seq<byte>)
    requires BusWidth(w) && LegalReading(w, r) && r.got <= r.b.len && j < w && Carries(w, r, a, buf)
    requires Active(w, r.b, r.got, j) && a == BeatWord(w, r.b, r.got) + j
    ensures Slice(buf, w * r.got, w)[j] == r.snap(a)
  {
    ActiveInWindow(w, r.b, r.got, j);
    var x := r.got * w + j;
    assert a - AlignDown(r.b.addr, w) == x;
    assert InBurst(r.b, a);
  }

  // ----- Host-side steps --------------------------------------------------------------------

  /** A READ about to be drained meets, at byte a, the atomic memory of its push. */
  predicate HeadRight(l: Host.Link, a: int) {
    Linked(l) && l.port.queue != [] && l.port.queue[0].op == Read && Host.Touches(l.port.queue[0], a) ==>
      l.port.mem(a) == l.snaps[0](a)
  }

  lemma DrainKeepsInv(w: nat, s: Side, p: Poll.Regs, a: int)
    requires BusWidth(w) && Inv(w, s, p, a) && Host.Enabled(s.link, Host.Drain) && HeadRight(s.link, a)
    ensures Inv(w, HostStep(s, Host.Drain), p, a)
  {
    ReadsInHead(s.link.port.queue);
    if s.rd.Some? {
      if s.link.port.queue[0].op == Read { HeadAnswered(s.link, s.rd.value, a); }
      DrainTransit(s.link, s.rd.value, a);
    }
  }

  /** A drained READ that meets the right byte becomes the reply for its read. */
  lemma HeadAnswered(l: Host.Link, r: Reading, a: int)
    requires Linked(l) && InTransit(l, r, a) && l.port.queue != [] && l.port.queue[0].op == Read && HeadRight(l, a)
    ensures ReplyFor(r, a, Host.Reply(l.port.mem, l.port.queue[0]))
  {
    assert Host.Touches(l.port.queue[0], a) <==> InBurst(r.b, a);
  }

  lemma DrainTransit(l: Host.Link, r: Reading, a: int)
    requires Linked(l) && InTransit(l, r, a) && Host.Enabled(l, Host.Drain)
    requires l.port.queue[0].op == Read ==> ReplyFor(r, a, Host.Reply(l.port.mem, l.port.queue[0])) && l.port.replies == []
    ensures Linked(Host.Step(l, Host.Drain)) && InTransit(Host.Step(l, Host.Drain), r, a)
  {
  }

  lemma GuestStoreKeepsInv(w: nat, s: Side, p: Poll.Regs, a: int, e: Host.Event)
    requires BusWidth(w) && Inv(w, s, p, a) && e.GuestStore?
    ensures Inv(w, HostStep(s, e), p, a)
  {
  }

  lemma InterruptKeepsInv(w: nat, s: Side, p: Poll.Regs, a: int, f: Frame)
    requires BusWidth(w) && Inv(w, s, p, a) && WellFormed(f) && f.op == Intr
    ensures Inv(w, HostStep(s, Host.Push(f)), p, a)
  {
    assert (s.link.port.queue + [f])[..|s.link.port.queue|] == s.link.port.queue;
  }

  // ----- One clock edge: the queue ----------------------------------------------------------

  lemma PushesAreLegal(w: nat, s: Side, p: Poll.Regs, i: In)
    requires BusWidth(w) && WriteInv(w, s) && SR.Shape(s.sr) && DeviceCompliant(w, s, i)
    ensures PushesLegal(w, s, p, i)
  {
    if SW.Calls(s.sw, i.sw) { WritePushed(w, s, i); }
  }

  /** How a frame pushed at this edge extends the queue. */
  ghost predicate Extends(l: Host.Link, l': Host.Link) {
    && Linked(l') && |l.snaps| == |l.port.queue| <= |l'.port.queue|
    && (forall k :: 0 <= k < |l.port.queue| ==>
          l'.port.queue[k] == l.port.queue[k] && l'.snaps[k] == l.snaps[k])
    && l'.port.replies == l.port.replies
  }

  /** The queue grew by other frames and, if `called`, by one READ f that remembers byte a of `seen`. */
  ghost predicate Grew(l: Host.Link, l': Host.Link, a: int, called: bool, f: Frame, seen: Memory) {
    && Extends(l, l')
    && ReadsIn(l'.port.queue) == ReadsIn(l.port.queue) + (if called then 1 else 0)
    && forall k :: |l.port.queue| <= k < |l'.port.queue| && l'.port.queue[k].op == Read ==>
         called && l'.port.queue[k] == f && l'.snaps[k](a) == seen(a)
  }

  lemma GrewTwice(l: Host.Link, l1: Host.Link, l2: Host.Link, a: int, called: bool, f: Frame, seen: Memory)
    requires (Grew(l, l1, a, called, f, seen) && Grew(l1, l2, a, false, f, seen))
             || (Grew(l, l1, a, false, f, seen) && Grew(l1, l2, a, called, f, seen))
    ensures Grew(l, l2, a, called, f, seen)
  {
  }

  lemma PushWriteEffect(w: nat, s: Side, i: In, l: Host.Link, axi: Memory, a: int, f: Frame, seen: Memory)
    requires BusWidth(w) && WriteInv(w, s) && WriteCompliant(w, s, i)
    requires Linked(l) && Same(l.atomic, axi)
    requires SW.Calls(s.sw, i.sw) ==>
               s.sw.len + 1 <= |SW.Next(w, s.sw, i.sw).strb| && WellFormed(WriteFrame(w, s, i))
    ensures var l' := PushWrite(w, s, i, l);
            Grew(l, l', a, false, f, seen) && Same(l'.atomic, AxiNext(w, s, i, axi))
  {
    WriteStep(w, s, i);
    if SW.Calls(s.sw, i.sw) {
      WritePushed(w, s, i);
      var g := WriteFrame(w, s, i);
      assert (l.port.queue + [g])[..|l.port.queue|] == l.port.queue;
      forall k ensures Host.Apply(l.atomic, g)(k) == Host.Apply(axi, g)(k) {
        Host.ApplyLocal(l.atomic, axi, g, k);
      }
    }
  }

  lemma PushReadEffect(w: nat, s: Side, p: Poll.Regs, i: In, l: Host.Link, axi: Memory, a: int)
    requires w > 0 && Linked(l) && Same(l.atomic, axi)
    requires SR.Calls(s.sr, SrIn(p, i)) ==> WellFormed(ReadFrame(i))
    ensures var l' := PushRead(s, p, i, l);
            Grew(l, l', a, SR.Calls(s.sr, SrIn(p, i)), ReadFrame(i), axi) && Same(l'.atomic, axi)
  {
    if SR.Calls(s.sr, SrIn(p, i)) {
      assert (l.port.queue + [ReadFrame(i)])[..|l.port.queue|] == l.port.queue;
    }
  }

  /** After the edge: old frames keep their places and snapshots, the write (if any) has reached the
      reference memory, and the new READ (if any) remembers the reference memory its AR saw. */
  ghost predicate LinkMoved(w: nat, s: Side, p: Poll.Regs, i: In, l0: Host.Link, l': Host.Link, a: int)
    requires w > 0
  {
    && Same(l'.atomic, AxiNext(w, s, i, s.axi))
    && Grew(l0, l', a, SR.Calls(s.sr, SrIn(p, i)), ReadFrame(i), Seen(w, s, i))
  }

  function Taken(s: Side, popped: bool): Host.Link
    requires popped ==> s.link.port.replies != []
  {
    if popped then s.link.(port := s.link.port.(replies := s.link.port.replies[1..])) else s.link
  }

  lemma ReadThenWrite(w: nat, s: Side, p: Poll.Regs, i: In, l: Host.Link, a: int)
    requires BusWidth(w) && WriteInv(w, s) && WriteCompliant(w, s, i) && PushesLegal(w, s, p, i)
    requires Linked(l) && Same(l.atomic, s.axi) && i.readFirst
    ensures LinkMoved(w, s, p, i, l, PushWrite(w, s, i, PushRead(s, p, i, l)), a)
  {
    var l1 := PushRead(s, p, i, l);
    PushReadEffect(w, s, p, i, l, s.axi, a);
    PushWriteEffect(w, s, i, l1, s.axi, a, ReadFrame(i), s.axi);
    GrewTwice(l, l1, PushWrite(w, s, i, l1), a, SR.Calls(s.sr, SrIn(p, i)), ReadFrame(i), s.axi);
  }

  lemma WriteThenRead(w: nat, s: Side, p: Poll.Regs, i: In, l: Host.Link, a: int)
    requires BusWidth(w) && WriteInv(w, s) && WriteCompliant(w, s, i) && PushesLegal(w, s, p, i)
    requires Linked(l) && Same(l.atomic, s.axi) && !i.readFirst
    ensures LinkMoved(w, s, p, i, l, PushRead(s, p, i, PushWrite(w, s, i, l)), a)
  {
    var l1 := PushWrite(w, s, i, l);
    PushWriteEffect(w, s, i, l, s.axi, a, ReadFrame(i), AxiNext(w, s, i, s.axi));
    PushReadEffect(w, s, p, i, l1, AxiNext(w, s, i, s.axi), a);
    GrewTwice(l, l1, PushRead(s, p, i, l1), a, SR.Calls(s.sr, SrIn(p, i)), ReadFrame(i), AxiNext(w, s, i, s.axi));
  }

  lemma LinkStep(w: nat, s: Side, p: Poll.Regs, i: In, popped: bool, a: int)
    requires BusWidth(w) && WriteInv(w, s) && Linked(s.link) && Same(s.link.atomic, s.axi) && SR.Shape(s.sr)
    requires DeviceCompliant(w, s, i)
    requires popped ==> s.link.port.replies != []
    ensures PushesLegal(w, s, p, i)
    ensures LinkMoved(w, s, p, i, Taken(s, popped), Clock(w, s, p, i, popped).link, a)
  {
    PushesAreLegal(w, s, p, i);
    var l := Taken(s, popped);
    if i.readFirst { ReadThenWrite(w, s, p, i, l, a); } else { WriteThenRead(w, s, p, i, l, a); }
  }

  // ----- One clock edge: the read in flight -------------------------------------------------

  /** A frame taken from hdl_resp is the first one there. */
  predicate PickLegal(s: Side, pick: Poll.Pick) {
    pick.FromHdl? ==> s.link.port.replies != [] && pick.frame == s.link.port.replies[0]
  }

  /** C_poll can take any reply that is ever queued. */
  lemma ReplyPolls(w: nat, conf: Poll.Conf, s: Side, p: Poll.Regs, a: int)
    requires BusWidth(w) && ReadInv(w, s, p, a) && s.link.port.replies != []
    ensures Poll.ValidPick(w, conf, Poll.FromHdl(s.link.port.replies[0]))
  {
  }

  /** The engines index their buffers within bounds. */
  predicate InBounds(w: nat, s: Side) {
    && (s.sr.state == SR.Response ==> w * s.sr.cnt + w <= |s.sr.data|)
    && (s.sw.state == SW.Data ==> s.sw.cnt * w + w <= |s.sw.data| && s.sw.cnt < |s.sw.strb|)
  }

  lemma BeatsInBuffer(w: nat, r: Reading, cnt: nat)
    requires BusWidth(w) && LegalReading(w, r) && cnt <= r.b.len
    ensures w * cnt + w <= BUFF_SIZE
  {
    assert r.b.len == 0 ==> (r.b.len + 1) * w == w;
    assert r.b.len == 1 ==> (r.b.len + 1) * w == 2 * w;
    BeatRoom(cnt, r.b.len, w, BUFF_SIZE);
  }

  lemma AlwaysInBounds(w: nat, s: Side, p: Poll.Regs, a: int)
    requires BusWidth(w) && WriteInv(w, s) && ReadInv(w, s, p, a)
    ensures InBounds(w, s)
  {
    if s.sr.state == SR.Response { BeatsInBuffer(w, s.rd.value, s.sr.cnt); }
    if s.sw.state == SW.Data {
      SW.FitsInBytes(w, s.wmon.burst.value);
      BeatRoom(s.sw.cnt, s.sw.len, w, BUFF_SIZE);
    }
  }

  /** C_poll puts the reply's bytes where the burst's lanes will look for them. */
  lemma ReplyArrives(w: nat, r: Reading, a: int, f: Frame, data: seq<byte>)
    requires w > 0 && LegalReading(w, r) && ReplyFor(r, a, f) && |data| == BUFF_SIZE
    ensures Carries(w, r, a, Splice(data, f.address % w, f.data[..f.dataSize]))
  {
    if InBurst(r.b, a) {
      assert a - AlignDown(r.b.addr, w) == f.address % w + (a - f.address);
    }
  }

  lemma PollEffect(w: nat, conf: Poll.Conf, s: Side, p: Poll.Regs, a: int, pick: Poll.Pick)
    requires BusWidth(w) && ReadInv(w, s, p, a) && PickLegal(s, pick)
    requires Poll.ValidPick(w, conf, pick)
    ensures var p' := Poll.Next(w, conf, p, pick);
            && |p'.data| == BUFF_SIZE && p'.sRd == pick.FromHdl?
            && (pick.FromHdl? ==> s.rd.Some? && s.sr.state == SR.Data && Carries(w, s.rd.value, a, p'.data))
  {
    if pick.FromHdl? { ReplyArrives(w, s.rd.value, a, pick.frame, p.data); }
  }

  /** The reads under way after an edge: one more with a new AR, one less with data arriving. */
  lemma TokensStep(w: nat, conf: Poll.Conf, s: Side, p: Poll.Regs, i: In, a: int, pick: Poll.Pick)
    requires BusWidth(w) && PickLegal(s, pick) && Poll.ValidPick(w, conf, pick) && PushesLegal(w, s, p, i)
    requires LinkMoved(w, s, p, i, Taken(s, pick.FromHdl?), Clock(w, s, p, i, pick.FromHdl?).link, a)
    ensures ReadTokens(Clock(w, s, p, i, pick.FromHdl?), Poll.Next(w, conf, p, pick))
            == ReadTokens(s, p) - (if p.sRd then 1 else 0) + (if SR.Calls(s.sr, SrIn(p, i)) then 1 else 0)
    ensures var l := Clock(w, s, p, i, pick.FromHdl?).link; |l.snaps| == |l.port.queue|
  {
  }

  /** Frames under way stay what they are when no AR is accepted. */
  lemma TransitKept(l: Host.Link, l': Host.Link, r: Reading, a: int, f: Frame, seen: Memory)
    requires Grew(l, l', a, false, f, seen) && InTransit(l, r, a)
    ensures |l'.snaps| == |l'.port.queue| && InTransit(l', r, a)
  {
  }

  /** An AR starts a read: its request is the only READ queued, with the memory the AR saw. */
  lemma AcceptStep(w: nat, conf: Poll.Conf, s: Side, p: Poll.Regs, i: In, b: int, a: int, pick: Poll.Pick)
    requires BusWidth(w) && ReadInv(w, s, p, b) && ReadCompliant(w, s, i) && PickLegal(s, pick)
    requires Poll.ValidPick(w, conf, pick)
    requires PushesLegal(w, s, p, i) && s.sr.state == SR.Idle && i.arvalid
    requires LinkMoved(w, s, p, i, Taken(s, pick.FromHdl?), Clock(w, s, p, i, pick.FromHdl?).link, a)
    ensures ReadInv(w, Clock(w, s, p, i, pick.FromHdl?), Poll.Next(w, conf, p, pick), a)
  {
    PollEffect(w, conf, s, p, b, pick);
    var s', r' := Clock(w, s, p, i, pick.FromHdl?), ReadingNext(w, s, i).value;
    assert LegalReading(w, r') && Streaming(w, s'.sr, r');
    NewTransit(Taken(s, pick.FromHdl?), s'.link, r', a, ReadFrame(i));
    assert ReadAt(w, s', Poll.Next(w, conf, p, pick), r', a);
  }

  /** A READ pushed while none was under way is the only one. */
  lemma NewTransit(l: Host.Link, l': Host.Link, r: Reading, a: int, f: Frame)
    requires Grew(l, l', a, true, f, r.snap) && ReadsIn(l.port.queue) == 0 && l.port.replies == []
    requires RequestFor(r, f)
    ensures InTransit(l', r, a)
  {
    ReadsInNone(l.port.queue);
  }

  /** Nothing is under way. */
  lemma NoTransit(l: Host.Link, r: Reading, a: int)
    requires |l.snaps| == |l.port.queue| && ReadsIn(l.port.queue) == 0 && l.port.replies == []
    ensures InTransit(l, r, a)
  {
    ReadsInNone(l.port.queue);
  }

  /** No read is waiting for data: the last beat of the previous one may be handed over. */
  lemma QuietStep(w: nat, conf: Poll.Conf, s: Side, p: Poll.Regs, i: In, a: int, pick: Poll.Pick)
    requires BusWidth(w) && ReadInv(w, s, p, a) && ReadCompliant(w, s, i) && PickLegal(s, pick)
    requires Poll.ValidPick(w, conf, pick)
    requires PushesLegal(w, s, p, i) && s.sr.state == SR.Idle && !i.arvalid
    requires LinkMoved(w, s, p, i, Taken(s, pick.FromHdl?), Clock(w, s, p, i, pick.FromHdl?).link, a)
    ensures ReadInv(w, Clock(w, s, p, i, pick.FromHdl?), Poll.Next(w, conf, p, pick), a)
  {
    PollEffect(w, conf, s, p, a, pick);
  }

  /** A read is waiting: its data may arrive at the engine, or move one place towards it. */
  lemma DataStep(w: nat, conf: Poll.Conf, s: Side, p: Poll.Regs, i: In, a: int, pick: Poll.Pick)
    requires BusWidth(w) && ReadInv(w, s, p, a) && ReadCompliant(w, s, i) && PickLegal(s, pick)
    requires Poll.ValidPick(w, conf, pick)
    requires PushesLegal(w, s, p, i) && s.sr.state == SR.Data
    requires LinkMoved(w, s, p, i, Taken(s, pick.FromHdl?), Clock(w, s, p, i, pick.FromHdl?).link, a)
    ensures ReadInv(w, Clock(w, s, p, i, pick.FromHdl?), Poll.Next(w, conf, p, pick), a)
  {
    PollEffect(w, conf, s, p, a, pick);
    SR.ShapeKept(w, s.sr, SrIn(p, i));
    TokensStep(w, conf, s, p, i, a, pick);
    var l, r := Taken(s, pick.FromHdl?), s.rd.value;
    var s', p' := Clock(w, s, p, i, pick.FromHdl?), Poll.Next(w, conf, p, pick);
    TransitKept(l, s'.link, r, a, ReadFrame(i), Seen(w, s, i));
    assert s'.rd == Some(r);
    assert ReadAt(w, s', p', r, a);
  }

  lemma StreamStep(w: nat, sr: SR.Regs, r: Reading, i: SR.In)
    requires SR.Shape(sr) && sr.state == SR.Response && Streaming(w, sr, r)
    ensures SR.Shape(SR.Next(w, sr, i)) && SR.Next(w, sr, i).data == sr.data && SR.Next(w, sr, i).state != SR.Data
    ensures sr.rvalid && i.rready ==> r.got < r.b.len && Streaming(w, SR.Next(w, sr, i), r.(got := r.got + 1))
    ensures !(sr.rvalid && i.rready) ==> Streaming(w, SR.Next(w, sr, i), r)
  {
    if i.rready { assert r.got + 1 <= 255 || r.got == r.b.len; }
  }

  /** The burst is being streamed. */
  lemma ResponseStep(w: nat, conf: Poll.Conf, s: Side, p: Poll.Regs, i: In, a: int, pick: Poll.Pick)
    requires BusWidth(w) && ReadInv(w, s, p, a) && ReadCompliant(w, s, i) && PickLegal(s, pick)
    requires Poll.ValidPick(w, conf, pick)
    requires PushesLegal(w, s, p, i) && s.sr.state == SR.Response
    requires LinkMoved(w, s, p, i, Taken(s, pick.FromHdl?), Clock(w, s, p, i, pick.FromHdl?).link, a)
    ensures ReadInv(w, Clock(w, s, p, i, pick.FromHdl?), Poll.Next(w, conf, p, pick), a)
  {
    PollEffect(w, conf, s, p, a, pick);
    StreamStep(w, s.sr, s.rd.value, SrIn(p, i));
    TokensStep(w, conf, s, p, i, a, pick);
    var s', p', r := Clock(w, s, p, i, pick.FromHdl?), Poll.Next(w, conf, p, pick), s.rd.value;
    var r' := if s.sr.rvalid && i.rready then r.(got := r.got + 1) else r;
    assert s'.rd == Some(r') && Streaming(w, s'.sr, r');
    CarriesOn(w, r, r', a, s.sr.data);
    NothingUnderWay(w, s', p', r', a);
  }

  /** The data have arrived: the invariant is about the engine and its buffer alone. */
  lemma NothingUnderWay(w: nat, s: Side, p: Poll.Regs, r: Reading, a: int)
    requires w > 0 && SR.Shape(s.sr) && |s.link.snaps| == |s.link.port.queue| && |p.data| == BUFF_SIZE
    requires ReadTokens(s, p) == 0 && s.sr.state != SR.Data && s.rd == Some(r)
    requires LegalReading(w, r) && Streaming(w, s.sr, r) && Carries(w, r, a, s.sr.data)
    ensures ReadInv(w, s, p, a)
  {
    NoTransit(s.link, r, a);
  }

  /** What the buffer carries does not depend on how many beats were taken. */
  lemma CarriesOn(w: nat, r: Reading, r': Reading, a: int, buf: seq<byte>)
    requires w > 0 && LegalReading(w, r) && Carries(w, r, a, buf) && r' == r.(got := r'.got)
    ensures LegalReading(w, r') && Carries(w, r', a, buf)
  {
  }

  /** Every clock edge, with any compliant device and any polling choice, keeps the invariant. */
  lemma ClockKeepsInv(w: nat, conf: Poll.Conf, s: Side, p: Poll.Regs, i: In, a: int, pick: Poll.Pick)
    requires BusWidth(w) && Inv(w, s, p, a) && DeviceCompliant(w, s, i) && PickLegal(s, pick)
    requires Poll.ValidPick(w, conf, pick)
    ensures PushesLegal(w, s, p, i)
    ensures Inv(w, Clock(w, s, p, i, pick.FromHdl?), Poll.Next(w, conf, p, pick), a)
  {
    LinkStep(w, s, p, i, pick.FromHdl?, a);
    WriteStep(w, s, i);
    match s.sr.state
    case Idle =>
      if i.arvalid { AcceptStep(w, conf, s, p, i, a, a, pick); } else { QuietStep(w, conf, s, p, i, a, pick); }
    case Data => DataStep(w, conf, s, p, i, a, pick);
    case Response => ResponseStep(w, conf, s, p, i, a, pick);
  }

  /** A new read starts right at every byte, whichever byte was followed before. */
  lemma AcceptKeepsInv(w: nat, conf: Poll.Conf, s: Side, p: Poll.Regs, i: In, b: int, a: int, pick: Poll.Pick)
    requires BusWidth(w) && Inv(w, s, p, b) && DeviceCompliant(w, s, i) && PickLegal(s, pick)
    requires Poll.ValidPick(w, conf, pick) && SR.Calls(s.sr, SrIn(p, i))
    ensures PushesLegal(w, s, p, i)
    ensures Inv(w, Clock(w, s, p, i, pick.FromHdl?), Poll.Next(w, conf, p, pick), a)
  {
    LinkStep(w, s, p, i, pick.FromHdl?, a);
    WriteStep(w, s, i);
    AcceptStep(w, conf, s, p, i, b, a, pick);
  }
}
