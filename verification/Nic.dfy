/** The NIC bridge: net_rx_packet and net_tx_packet in accelerator_pcie.c, C_nic_poll and C_send_packet
    in dpi-nic.c, and the axis_m, axis_s and qemu_nic_bridge modules. A packet becomes a run of
    TKEEP/TLAST beats (AMBA 4 AXI4-Stream Protocol Specification, sections 2.4 and 2.5) and back. */
module Nic {
  import opened Bytes
  import opened Compaction

  /** ACCNICData. */
  datatype NicFrame = NicFrame(size: nat, data: seq<byte>)

  predicate LaneCount(w: nat) {
    1 <= w <= 64
  }

  /** net_rx_packet: the packet at the start of a cleared buffer. */
  function Wrap(packet: seq<byte>): NicFrame
    requires |packet| <= BUFF_SIZE
  {
    NicFrame(|packet|, packet + Zeros(BUFF_SIZE - |packet|))
  }

  // ----- C_nic_poll -------------------------------------------------------------------------

  const INT_RANGE: nat := 0x1_0000_0000

  /** A 64-bit value stored in a SystemVerilog int. */
  function ToInt(x: nat): int {
    var low := x % INT_RANGE;
    if low >= INT_RANGE / 2 then low - INT_RANGE else low
  }

  function LastIndex(w: nat, size: nat): int
    requires w > 0
  {
    if size % w != 0 then size / w else size / w - 1
  }

  /** The keep word for the last beat, as it leaves the C code. */
  function LastKeep(w: nat, size: nat): nat
    requires w > 0
  {
    if size % w != 0 then Pow2(size % w) - 1 else WORD - 1
  }

  /** m_i_req, m_i_len, m_i_last_keep and m_i_data. */
  datatype Request = Request(req: bool, len: int, keep: int, data: seq<byte>)

  function Polled(w: nat, f: NicFrame): Request
    requires w > 0
  {
    Request(true, LastIndex(w, f.size), ToInt(LastKeep(w, f.size)), f.data)
  }

  // ----- axis_m -----------------------------------------------------------------------------

  datatype Phase = Idle | Data

  datatype Source = Source(
    state: Phase, len: int, count: nat, data: seq<byte>, tvalid: bool, tdata: seq<byte>,
    tkeep: nat, lastKeep: nat, tlast: bool)

  function SourceReset(w: nat): Source {
    Source(Idle, 0, 0, Zeros(BUFF_SIZE), false, Zeros(w), 0, 0, false)
  }

  predicate Busy(m: Source, q: Request) {
    match m.state
    case Idle => q.req
    case Data => !(m.tvalid && m.count == m.len + 1)
  }

  function SourceNext(w: nat, m: Source, q: Request): Source {
    match m.state
    case Idle =>
      if !q.req then m
      else m.(state := Data, lastKeep := q.keep % Pow2(w), len := q.len, data := q.data, count := 1,
              tdata := Slice(q.data, 0, w), tlast := false, tkeep := Mask(0, w), tvalid := true)
    case Data =>
      if !m.tvalid then m
      else
        var m1 := m.(tdata := Slice(m.data, m.count * w, w));
        if m.count == m.len + 1 then m1.(tvalid := false, state := Idle)
        else if m.count == m.len then m1.(tlast := true, tkeep := m.lastKeep, count := m.count + 1)
        else m1.(tlast := false, tkeep := Mask(0, w), count := m.count + 1)
  }

  // ----- axis_s -----------------------------------------------------------------------------

  datatype Sink = Sink(state: Phase, len: nat, data: seq<byte>, size: nat)

  function SinkReset(): Sink {
    Sink(Idle, 0, Zeros(BUFF_SIZE), 0)
  }

  /** A beat on the stream; beats whose keep is null are ignored. */
  datatype TBeat = TBeat(data: seq<byte>, keep: nat, last: bool)

  function SinkNext(s: Sink, beat: Option<TBeat>): Sink {
    var s1 := if s.state == Idle then s.(len := 0, size := 0) else s;
    if beat.None? || beat.value.keep == 0 then s1
    else
      var g := Gather(beat.value.data, beat.value.keep);
      var s2 := s1.(data := Splice(s1.data, s1.size, g), size := s1.size + |g|);
      if beat.value.last then s2.(state := Idle) else s2.(state := Data, len := (s.len + 1) % 256)
  }

  /** C_send_packet is called at this edge, with the updated buffer and size. */
  predicate Sends(beat: Option<TBeat>) {
    beat.Some? && beat.value.keep != 0 && beat.value.last
  }

  // ----- The modules as clocked code --------------------------------------------------------

  class AxisM {
    const w: nat
    var state: Phase
    var len: int
    var count: nat
    var data: seq<byte>
    var tvalid: bool
    var tdata: seq<byte>
    var tkeep: nat
    var lastKeep: nat
    var tlast: bool

    function View(): Source
      reads this
    {
      Source(state, len, count, data, tvalid, tdata, tkeep, lastKeep, tlast)
    }

    constructor (w: nat)
      ensures this.w == w && View() == SourceReset(w)
    {
      this.w := w;
      state, len, count, data, tvalid := Idle, 0, 0, Zeros(BUFF_SIZE), false;
      tdata, tkeep, lastKeep, tlast := Zeros(w), 0, 0, false;
    }

    method Clock(q: Request) returns (busy: bool)
      modifies this
      ensures View() == SourceNext(w, old(View()), q)
      ensures busy == Busy(old(View()), q)
    {
      busy := false;
      if state == Idle {
        if q.req {
          busy := true;
          lastKeep, len, data, count := q.keep % Pow2(w), q.len, q.data, 1;
          tdata := ReadLanes(q.data, 0, w);
          tlast, tkeep, tvalid, state := false, Mask(0, w), true, Data;
        }
      } else {
        busy := true;
        if tvalid {
          tdata := ReadLanes(data, count * w, w);
          if count == len + 1 {
            busy, tvalid, state := false, false, Idle;
          } else if count == len {
            tlast, tkeep, count := true, lastKeep, count + 1;
          } else {
            tlast, tkeep, count := false, Mask(0, w), count + 1;
          }
        }
      }
    }
  }

  class AxisS {
    const w: nat
    var state: Phase
    var len: nat
    const data: array<byte>
    var size: nat

    function View(): Sink
      reads this, data
    {
      Sink(state, len, data[..], size)
    }

    constructor (w: nat)
      ensures this.w == w && View() == SinkReset() && fresh(data)
    {
      this.w := w;
      state, len, size := Idle, 0, 0;
      data := new byte[BUFF_SIZE](_ => 0);
    }

    method Clock(beat: Option<TBeat>) returns (send: bool)
      requires beat.Some? ==> |beat.value.data| == w
      modifies this, data
      ensures View() == SinkNext(old(View()), beat)
      ensures send == Sends(beat)
    {
      send := false;
      var len0 := len;
      if state == Idle { len, size := 0, 0; }
      if beat.Some? && beat.value.keep != 0 {
        state := Data;
        AppendKept(beat.value);
        if !beat.value.last {
          len := (len0 + 1) % 256;
        } else {
          state := Idle;
          send := true;
        }
      }
    }

    /** The loop over TKEEP bits. */
    method AppendKept(beat: TBeat)
      modifies this`size, data
      ensures data[..] == Splice(old(data[..]), old(size), Gather(beat.data, beat.keep))
      ensures size == old(size) + |Gather(beat.data, beat.keep)|
    {
      ghost var d, done: seq<byte> := beat.data, [];
      var keep, i := beat.keep, 0;
      while i < |beat.data|
        invariant 0 <= i <= |d|
        invariant done + Gather(d[i..], keep) == Gather(d, beat.keep)
        invariant size == old(size) + |done|
        invariant data[..] == Splice(old(data[..]), old(size), done)
      {
        GatherStep(done, d, i, keep);
        if keep % 2 == 1 {
          if size < data.Length { data[size] := beat.data[i]; }
          size := size + 1;
          done := done + [d[i]];
        }
        keep := keep / 2;
        i := i + 1;
      }
      assert d[|d|..] == [];
    }
  }

  // ----- The last keep word -----------------------------------------------------------------

  /** The packets the bridge carries: more than one beat, and a last beat whose keep word survives
      the passage through a 32-bit int. */
  predicate Good(w: nat, size: nat)
    requires w > 0
  {
    w < size <= BUFF_SIZE && size % w < 32
  }

  function LastBytes(w: nat, size: nat): nat
    requires w > 0
  {
    if size % w != 0 then size % w else w
  }

  lemma LastSplit(w: nat, size: nat)
    requires w > 0 && size > 0
    ensures LastIndex(w, size) >= 0 && LastIndex(w, size) * w + LastBytes(w, size) == size
    ensures 1 <= LastBytes(w, size) <= w
    ensures LastIndex(w, size) > 0 <==> size > w
  {
    var l := LastIndex(w, size);
    assert size == size / w * w + size % w;
    if size <= w && l > 0 { MulMono(1, l, w); }
  }

  lemma MinusOne(n: nat)
    ensures (-1) % Pow2(n) == Pow2(n) - 1
  {
  }

  lemma IntRangeIsPow2()
    ensures INT_RANGE == Pow2(32)
  {
    Pow2Values();
    Pow2Plus8(8);
    Pow2Plus8(16);
    Pow2Plus8(24);
  }

  lemma WideKeep(k: nat)
    requires 32 <= k
    ensures (Pow2(k) - 1) % INT_RANGE == INT_RANGE - 1
  {
    IntRangeIsPow2();
    Pow2Add(k - 32, 32);
    var p := Pow2(k - 32);
    assert Pow2(k) - 1 == (p - 1) * INT_RANGE + (INT_RANGE - 1);
    DivModUnique(Pow2(k) - 1, INT_RANGE, p - 1, INT_RANGE - 1);
  }

  lemma NarrowKeep(k: nat, w: nat)
    requires 0 < k < 32 && k < w
    ensures ToInt(Pow2(k) - 1) % Pow2(w) == Pow2(k) - 1
  {
    IntRangeIsPow2();
    Pow2Mono(k, 31);
    Pow2Mono(k, w);
    var x := Pow2(k) - 1;
    assert x < Pow2(31) && INT_RANGE == 2 * Pow2(31);
    DivModUnique(x, INT_RANGE, 0, x);
    DivModUnique(x, Pow2(w), 0, x);
  }

  /** The keep word that reaches the last beat marks exactly its bytes if and only if the last beat is
      full or has fewer than 32 bytes; otherwise every lane is marked. */
  lemma KeepSurvives(w: nat, size: nat)
    requires LaneCount(w) && size > 0
    ensures var k := ToInt(LastKeep(w, size)) % Pow2(w);
            && (k == Mask(0, LastBytes(w, size)) <==> size % w < 32)
            && (size % w >= 32 ==> k == Mask(0, w))
  {
    MinusOne(w);
    var r := size % w;
    if r == 0 {
      assert (WORD - 1) % INT_RANGE == INT_RANGE - 1;
    } else if r < 32 {
      NarrowKeep(r, w);
    } else {
      WideKeep(r);
      Pow2Mono(r, w);
    }
  }

  // ----- The stream of one packet -----------------------------------------------------------

  /** Beat k as axis_m presents it: the first beat never carries TLAST. */
  function Shown(w: nat, q: Request, k: nat): TBeat {
    var final := k == q.len && k > 0;
    TBeat(Slice(q.data, k * w, w), if final then q.keep % Pow2(w) else Mask(0, w), final)
  }

  predicate Streaming(w: nat, m: Source, q: Request) {
    && m.state == Data && m.tvalid && m.data == q.data && m.len == q.len && m.lastKeep == q.keep % Pow2(w)
    && 1 <= m.count <= q.len + 1
    && TBeat(m.tdata, m.tkeep, m.tlast) == Shown(w, q, m.count - 1)
  }

  /** Once started on a request, axis_m presents beats 0..len, one per edge, then goes idle. */
  lemma StreamAdvances(w: nat, m: Source, q: Request, q': Request)
    requires Streaming(w, m, q)
    ensures m.count <= q.len ==> Streaming(w, SourceNext(w, m, q'), q) && SourceNext(w, m, q').count == m.count + 1
    ensures m.count == q.len + 1 ==> SourceNext(w, m, q').state == Idle && !SourceNext(w, m, q').tvalid
  {
  }

  lemma StreamStarts(w: nat, m: Source, q: Request)
    requires m.state == Idle && q.req && q.len >= 0
    ensures Streaming(w, SourceNext(w, m, q), q) && SourceNext(w, m, q).count == 1
  {
    assert 0 * w == 0;
  }

  lemma KeptPrefix(d: seq<byte>, n: nat)
    requires n <= |d|
    ensures Gather(d, Mask(0, n)) == d[..n]
  {
    forall j | 0 <= j < |d| ensures Bit(Mask(0, n), j) <==> 0 <= j < n { BitMask(0, n, j); }
    GatherFull(d, Mask(0, n), 0, n);
  }

  /** The bytes kept from beat k of a frame. */
  lemma BeatBytes(w: nat, f: NicFrame, k: nat)
    requires LaneCount(w) && 0 < f.size <= |f.data| && k <= LastIndex(w, f.size)
    ensures var beat := Shown(w, Polled(w, f), k);
            && |beat.data| == w
            && (k < LastIndex(w, f.size) ==>
                k * w + w <= f.size && Gather(beat.data, beat.keep) == f.data[k * w..k * w + w])
            && (k == LastIndex(w, f.size) && Good(w, f.size) ==>
                k * w <= f.size && beat.last && Gather(beat.data, beat.keep) == f.data[k * w..f.size])
            && (Good(w, f.size) ==> beat.keep != 0)
  {
    LastSplit(w, f.size);
    KeepSurvives(w, f.size);
    var l, q := LastIndex(w, f.size), Polled(w, f);
    var d := Slice(f.data, k * w, w);
    KeptPrefix(d, w);
    KeptPrefix(d, LastBytes(w, f.size));
    Pow2Mono(0, w);
    Pow2Mono(0, LastBytes(w, f.size));
    if k < l {
      MulMono(k + 1, l, w);
      assert (k + 1) * w == k * w + w;
      assert d[..w] == f.data[k * w..k * w + w];
    } else if Good(w, f.size) {
      assert d[..LastBytes(w, f.size)] == f.data[k * w..f.size];
    }
  }

  function Stream(w: nat, q: Request): seq<TBeat>
    requires q.len >= 0
  {
    seq(q.len + 1, k requires 0 <= k => Shown(w, q, k))
  }

  function KeptBytes(beats: seq<TBeat>): seq<byte> {
    if beats == [] then []
    else KeptBytes(beats[..|beats| - 1]) + Gather(beats[|beats| - 1].data, beats[|beats| - 1].keep)
  }

  /** The stream is one AXI4-Stream packet of these bytes: TLAST on the final beat only. */
  predicate IsPacket(beats: seq<TBeat>, bytes: seq<byte>) {
    && |beats| > 0 && (forall k :: 0 <= k < |beats| ==> (beats[k].last <==> k == |beats| - 1))
    && KeptBytes(beats) == bytes
  }

  /** The chunk is the w bytes of d from a given place on. */
  predicate Keeps(w: nat, chunk: seq<byte>, d: seq<byte>, at: nat) {
    at + w <= |d| && chunk == d[at..at + w]
  }

  function KeptOf(beats: seq<TBeat>): (r: seq<seq<byte>>)
    ensures |r| == |beats| && forall k :: 0 <= k < |r| ==> r[k] == Gather(beats[k].data, beats[k].keep)
  {
    seq(|beats|, k requires 0 <= k < |beats| => Gather(beats[k].data, beats[k].keep))
  }

  function Flatten(chunks: seq<seq<byte>>): seq<byte> {
    if chunks == [] then [] else Flatten(Front(chunks)) + Last(chunks)
  }

  lemma {:induction false} KeptIsFlat(beats: seq<TBeat>)
    ensures KeptBytes(beats) == Flatten(KeptOf(beats))
  {
    if beats != [] {
      KeptIsFlat(Front(beats));
      assert Front(KeptOf(beats)) == KeptOf(Front(beats));
    }
  }

  /** The chunks are the leading bytes of d, w at a time. */
  predicate InTurn(w: nat, chunks: seq<seq<byte>>, d: seq<byte>) {
    chunks == [] || (InTurn(w, Front(chunks), d) && Keeps(w, Last(chunks), d, Times(|chunks| - 1, w)))
  }

  lemma {:induction false} AllInTurn(w: nat, chunks: seq<seq<byte>>, d: seq<byte>)
    requires forall j :: 0 <= j < |chunks| ==> Keeps(w, chunks[j], d, Times(j, w))
    ensures InTurn(w, chunks, d)
  {
    if chunks != [] { AllInTurn(w, Front(chunks), d); }
  }

  lemma {:induction false} FlattenInTurn(w: nat, chunks: seq<seq<byte>>, d: seq<byte>)
    requires InTurn(w, chunks, d)
    ensures Times(|chunks|, w) <= |d| && Flatten(chunks) == d[..Times(|chunks|, w)]
  {
    if chunks != [] {
      var n := |chunks| - 1;
      FlattenInTurn(w, Front(chunks), d);
      SplitAt(d, Times(n, w), Times(n, w) + w);
    }
  }

  lemma KeptBeforeLast(w: nat, f: NicFrame, k: nat)
    requires LaneCount(w) && 0 < f.size <= |f.data| && k <= LastIndex(w, f.size)
    ensures k * w <= f.size && KeptBytes(Stream(w, Polled(w, f))[..k]) == f.data[..k * w]
  {
    var beats, d := Stream(w, Polled(w, f))[..k], f.data[..f.size];
    var chunks := KeptOf(beats);
    forall j | 0 <= j < k ensures Keeps(w, chunks[j], d, Times(j, w)) {
      MiddleBytes(w, f, j);
      assert beats[j] == Shown(w, Polled(w, f), j);
    }
    TimesIsProduct(k, w);
    AllInTurn(w, chunks, d);
    FlattenInTurn(w, chunks, d);
    KeptIsFlat(beats);
    assert d[..k * w] == f.data[..k * w];
  }

  lemma MiddleBytes(w: nat, f: NicFrame, k: nat)
    requires LaneCount(w) && 0 < f.size <= |f.data| && k < LastIndex(w, f.size)
    ensures var beat := Shown(w, Polled(w, f), k);
            Keeps(w, Gather(beat.data, beat.keep), f.data[..f.size], Times(k, w))
  {
    BeatBytes(w, f, k);
    TimesIsProduct(k, w);
    assert f.data[..f.size][k * w..k * w + w] == f.data[k * w..k * w + w];
  }

  lemma SplitAt(d: seq<byte>, i: nat, j: nat)
    requires i <= j <= |d|
    ensures d[..i] + d[i..j] == d[..j]
  {
  }

  /** The beats axis_m hands over in the course of some edges, given the request registers before
      each; it does not look at TREADY, so every edge with TVALID hands one over. */
  function Emitted(w: nat, m: Source, qs: seq<Request>): seq<TBeat>
    decreases |qs|
  {
    if qs == [] then []
    else (if m.tvalid then [TBeat(m.tdata, m.tkeep, m.tlast)] else []) + Emitted(w, SourceNext(w, m, qs[0]), qs[1..])
  }

  function After(w: nat, m: Source, qs: seq<Request>): Source
    decreases |qs|
  {
    if qs == [] then m else After(w, SourceNext(w, m, qs[0]), qs[1..])
  }

  lemma {:induction false} EmitsRest(w: nat, m: Source, q: Request, qs: seq<Request>)
    requires Streaming(w, m, q) && |qs| == q.len + 2 - m.count
    ensures Emitted(w, m, qs) == Stream(w, q)[m.count - 1..]
    ensures After(w, m, qs).state == Idle && !After(w, m, qs).tvalid
    decreases |qs|
  {
    var m', rest := SourceNext(w, m, qs[0]), qs[1..];
    StreamAdvances(w, m, q, qs[0]);
    if m.count <= q.len {
      EmitsRest(w, m', q, rest);
      StreamTail(w, q, m.count - 1);
    } else {
      StreamTail(w, q, q.len);
      assert rest == [];
    }
  }

  lemma StreamTail(w: nat, q: Request, k: nat)
    requires k <= q.len
    ensures Stream(w, q)[k..] == [Shown(w, q, k)] + Stream(w, q)[k + 1..]
    ensures k == q.len ==> Stream(w, q)[k + 1..] == []
  {
  }

  /** Started on a request from rest, axis_m emits its stream in len + 2 edges and is at rest again,
      whatever the request registers hold meanwhile. */
  lemma EmitsStream(w: nat, m: Source, qs: seq<Request>)
    requires m.state == Idle && !m.tvalid && qs != [] && qs[0].req && qs[0].len >= 0 && |qs| == qs[0].len + 2
    ensures Emitted(w, m, qs) == Stream(w, qs[0])
    ensures After(w, m, qs).state == Idle && !After(w, m, qs).tvalid
  {
    StreamStarts(w, m, qs[0]);
    EmitsRest(w, SourceNext(w, m, qs[0]), qs[0], qs[1..]);
    assert Stream(w, qs[0])[0..] == Stream(w, qs[0]);
  }

  lemma StreamIsPacket(w: nat, packet: seq<byte>)
    requires LaneCount(w) && 0 < |packet| <= BUFF_SIZE
    ensures LastIndex(w, |packet|) >= 0
    ensures IsPacket(Stream(w, Polled(w, Wrap(packet))), packet) <==> Good(w, |packet|)
  {
    var f, n := Wrap(packet), |packet|;
    LastSplit(w, n);
    var l, q := LastIndex(w, n), Polled(w, f);
    var beats := Stream(w, q);
    KeptBeforeLast(w, f, l);
    BeatBytes(w, f, l);
    assert beats[..|beats| - 1] == beats[..l];
    assert f.data[..n] == packet;
    if Good(w, n) {
      assert f.data[..l * w] + f.data[l * w..n] == f.data[..n];
    } else if n > w {
      KeepSurvives(w, n);
      KeptPrefix(beats[l].data, w);
      assert |KeptBytes(beats)| == l * w + w;
    } else {
      assert !beats[l].last;
    }
  }

  /** A non-empty packet, wrapped by QEMU, polled and handed to axis_m at rest, leaves on its wires as
      one well-formed stream packet with the same bytes, if and only if it is longer than one beat and
      its last beat is full or shorter than 32 bytes; and axis_m is at rest again in any case. */
  lemma StreamExact(w: nat, packet: seq<byte>, m: Source, qs: seq<Request>)
    requires LaneCount(w) && 0 < |packet| <= BUFF_SIZE && m.state == Idle && !m.tvalid
    requires |qs| == LastIndex(w, |packet|) + 2 > 0 && qs[0] == Polled(w, Wrap(packet))
    ensures IsPacket(Emitted(w, m, qs), packet) <==> Good(w, |packet|)
    ensures After(w, m, qs).state == Idle && !After(w, m, qs).tvalid
  {
    StreamIsPacket(w, packet);
    EmitsStream(w, m, qs);
  }

  // ----- The bridge, looped back ------------------------------------------------------------

  /** The queue from QEMU, the request registers, both modules with the stream wired from one to the
      other, the packets handed back to QEMU; and, for reference, the frame between the two and all
      packets handed in. */
  datatype Net = Net(
    queue: seq<NicFrame>, q: Request, m: Source, s: Sink, sent: seq<seq<byte>>,
    now: Option<NicFrame>, arrived: seq<seq<byte>>)

  /** The OS hands over a packet; or a clock edge, with the poller seeing a queued frame or not. */
  datatype Event = Arrive(packet: seq<byte>) | Tick(ready: bool)

  function NetReset(w: nat): Net {
    Net([], Request(false, 0, 0, Zeros(BUFF_SIZE)), SourceReset(w), SinkReset(), [], None, [])
  }

  predicate Allowed(w: nat, e: Event)
    requires w > 0
  {
    e.Arrive? ==> Good(w, |e.packet|)
  }

  function OnStream(m: Source): Option<TBeat> {
    if m.tvalid then Some(TBeat(m.tdata, m.tkeep, m.tlast)) else None
  }

  predicate Polls(n: Net, ready: bool) {
    !Busy(n.m, n.q) && ready && n.queue != []
  }

  /** net_tx_packet: what QEMU's network stack receives. */
  function Unwrap(size: nat, data: seq<byte>): seq<byte> {
    if size <= |data| then data[..size] else data
  }

  function Step(w: nat, n: Net, e: Event): Net
    requires w > 0 && Allowed(w, e)
  {
    match e
    case Arrive(packet) => n.(queue := n.queue + [Wrap(packet)], arrived := n.arrived + [packet])
    case Tick(ready) =>
      var beat := OnStream(n.m);
      var s' := SinkNext(n.s, beat);
      Net(if Polls(n, ready) then n.queue[1..] else n.queue,
          if Busy(n.m, n.q) then n.q
          else if Polls(n, ready) then Polled(w, n.queue[0]) else n.q.(req := false),
          SourceNext(w, n.m, n.q), s',
          if Sends(beat) then n.sent + [Unwrap(s'.size, s'.data)] else n.sent,
          if Polls(n, ready) then Some(n.queue[0]) else if Sends(beat) then None else n.now,
          n.arrived)
  }

  predicate GoodFrame(w: nat, f: NicFrame)
    requires w > 0
  {
    |f.data| == BUFF_SIZE && Good(w, f.size)
  }

  function Payload(f: NicFrame): seq<byte> {
    Unwrap(f.size, f.data)
  }

  function Payloads(q: seq<NicFrame>): seq<seq<byte>> {
    seq(|q|, k requires 0 <= k < |q| => Payload(q[k]))
  }

  /** axis_s has collected the first `at` bytes of the frame. */
  predicate Collected(s: Sink, f: NicFrame, at: nat) {
    && s.state == (if at == 0 then Idle else Data) && |s.data| == BUFF_SIZE
    && at <= |s.data| && at <= |f.data|
    && (at > 0 ==> s.size == at && s.data[..at] == f.data[..at])
  }

  predicate Inv(w: nat, n: Net)
    requires w > 0
  {
    && (forall k :: 0 <= k < |n.queue| ==> GoodFrame(w, n.queue[k]))
    && n.arrived == n.sent + (if n.now.Some? then [Payload(n.now.value)] else []) + Payloads(n.queue)
    && (n.now.None? ==> !n.q.req && n.m.state == Idle)
    && (n.now.Some? ==> GoodFrame(w, n.now.value) && n.q == Polled(w, n.now.value))
    && (n.m.state == Idle ==> !n.m.tvalid && n.s.state == Idle && |n.s.data| == BUFF_SIZE)
    && (n.m.state == Data ==> Streaming(w, n.m, n.q) && Collected(n.s, n.now.value, (n.m.count - 1) * w))
  }

  /** axis_s appends the kept bytes of a beat to the `at` bytes it has. */
  lemma SinkTakes(s: Sink, beat: TBeat, at: nat)
    requires beat.keep != 0 && |s.data| == BUFF_SIZE && at + |Gather(beat.data, beat.keep)| <= BUFF_SIZE
    requires at == if s.state == Idle then 0 else s.size
    ensures var g, s' := Gather(beat.data, beat.keep), SinkNext(s, Some(beat));
            && |s'.data| == BUFF_SIZE && s'.size == at + |g| && s'.data[..at + |g|] == s.data[..at] + g
            && s'.state == (if beat.last then Idle else Data)
  {
  }

  /** With a prefix of the frame collected, a beat of its next bytes extends the prefix. */
  lemma SinkExtends(s: Sink, f: NicFrame, beat: TBeat, at: nat, to: nat)
    requires beat.keep != 0 && |s.data| == BUFF_SIZE == |f.data| && at <= to <= BUFF_SIZE
    requires at == (if s.state == Idle then 0 else s.size) && s.data[..at] == f.data[..at]
    requires Gather(beat.data, beat.keep) == f.data[at..to]
    ensures var s' := SinkNext(s, Some(beat));
            && |s'.data| == BUFF_SIZE && s'.size == to && s'.data[..to] == f.data[..to]
            && s'.state == (if beat.last then Idle else Data)
  {
    SinkTakes(s, beat, at);
    assert f.data[..at] + f.data[at..to] == f.data[..to];
  }

  /** axis_s takes a beat before the last. */
  lemma CollectMiddle(w: nat, s: Sink, f: NicFrame, k: nat)
    requires LaneCount(w) && GoodFrame(w, f) && k < LastIndex(w, f.size) && Collected(s, f, k * w)
    ensures !Shown(w, Polled(w, f), k).last
    ensures Collected(SinkNext(s, Some(Shown(w, Polled(w, f), k))), f, k * w + w)
  {
    BeatBytes(w, f, k);
    SinkExtends(s, f, Shown(w, Polled(w, f), k), k * w, k * w + w);
  }

  /** On the last beat, axis_s hands the whole packet over. */
  lemma CollectLast(w: nat, s: Sink, f: NicFrame)
    requires LaneCount(w) && GoodFrame(w, f) && LastIndex(w, f.size) >= 0
    requires Collected(s, f, LastIndex(w, f.size) * w)
    ensures var beat := Shown(w, Polled(w, f), LastIndex(w, f.size));
            var s' := SinkNext(s, Some(beat));
            && Sends(Some(beat)) && s'.state == Idle && |s'.data| == BUFF_SIZE
            && Unwrap(s'.size, s'.data) == Payload(f)
  {
    var l := LastIndex(w, f.size);
    BeatBytes(w, f, l);
    SinkExtends(s, f, Shown(w, Polled(w, f), l), l * w, f.size);
  }

  lemma PayloadsHead(q: seq<NicFrame>)
    requires q != []
    ensures Payloads(q) == [Payload(q[0])] + Payloads(q[1..])
  {
  }

  lemma NextOffset(k: nat, w: nat)
    ensures k * w + w == (k + 1) * w
  {
  }

  /** An edge between the first beat and the last: nothing is polled, nothing is handed over. */
  lemma MiddleTick(w: nat, n: Net, ready: bool)
    requires LaneCount(w) && Inv(w, n) && n.m.state == Data && n.m.count <= n.q.len
    ensures Inv(w, Step(w, n, Tick(ready)))
  {
    var k, n' := n.m.count - 1, Step(w, n, Tick(ready));
    StreamAdvances(w, n.m, n.q, n.q);
    CollectMiddle(w, n.s, n.now.value, k);
    NextOffset(k, w);
    assert n'.m.count - 1 == k + 1;
    assert n'.s == SinkNext(n.s, Some(Shown(w, n.q, k)));
  }

  /** The edge of the last beat: the packet is handed over, and the next one may be polled. */
  lemma LastTick(w: nat, n: Net, ready: bool)
    requires LaneCount(w) && Inv(w, n) && n.m.state == Data && n.m.count == n.q.len + 1
    ensures Inv(w, Step(w, n, Tick(ready)))
  {
    StreamAdvances(w, n.m, n.q, n.q);
    CollectLast(w, n.s, n.now.value);
    HandedOver(n.arrived, n.sent, Payload(n.now.value), n.queue);
    assert Step(w, n, Tick(ready)).sent == n.sent + [Payload(n.now.value)];
  }

  lemma HandedOver(arrived: seq<seq<byte>>, sent: seq<seq<byte>>, x: seq<byte>, queue: seq<NicFrame>)
    requires arrived == sent + [x] + Payloads(queue)
    ensures arrived == (sent + [x]) + [] + Payloads(queue)
    ensures queue != [] ==> arrived == (sent + [x]) + [Payload(queue[0])] + Payloads(queue[1..])
  {
    if queue != [] { PayloadsHead(queue); }
  }

  /** An edge with axis_m idle. */
  lemma IdleTick(w: nat, n: Net, ready: bool)
    requires LaneCount(w) && Inv(w, n) && n.m.state == Idle
    ensures Inv(w, Step(w, n, Tick(ready)))
  {
    if n.queue != [] { PayloadsHead(n.queue); }
    if n.now.Some? {
      LastSplit(w, n.now.value.size);
      StreamStarts(w, n.m, n.q);
      assert 0 * w == 0;
    }
  }

  lemma TickKeepsInv(w: nat, n: Net, ready: bool)
    requires LaneCount(w) && Inv(w, n)
    ensures Inv(w, Step(w, n, Tick(ready)))
  {
    if n.m.state == Idle { IdleTick(w, n, ready); }
    else if n.m.count <= n.q.len { MiddleTick(w, n, ready); }
    else { LastTick(w, n, ready); }
  }

  lemma ArriveKeepsInv(w: nat, n: Net, packet: seq<byte>)
    requires LaneCount(w) && Inv(w, n) && Good(w, |packet|)
    ensures Inv(w, Step(w, n, Arrive(packet)))
  {
    assert Payload(Wrap(packet)) == packet;
    assert Payloads(n.queue + [Wrap(packet)]) == Payloads(n.queue) + [packet];
  }

  predicate AllAllowed(w: nat, es: seq<Event>)
    requires w > 0
  {
    forall k :: 0 <= k < |es| ==> Allowed(w, es[k])
  }

  function Exec(w: nat, es: seq<Event>): Net
    requires w > 0 && AllAllowed(w, es)
  {
    if es == [] then NetReset(w) else Step(w, Exec(w, es[..|es| - 1]), es[|es| - 1])
  }

  /** In every run, the packets handed back are the packets handed in, in order, each once, followed
      by at most one in the bridge and those still queued: nothing is lost, repeated, merged or cut,
      back-to-back packets included. */
  lemma {:induction false} NoLossNoDuplication(w: nat, es: seq<Event>)
    requires LaneCount(w) && AllAllowed(w, es)
    ensures var n := Exec(w, es);
            && Inv(w, n)
            && n.arrived == n.sent + (if n.now.Some? then [Payload(n.now.value)] else []) + Payloads(n.queue)
            && n.sent <= n.arrived
  {
    if es != [] {
      NoLossNoDuplication(w, es[..|es| - 1]);
      var n := Exec(w, es[..|es| - 1]);
      match es[|es| - 1]
      case Arrive(packet) => ArriveKeepsInv(w, n, packet);
      case Tick(ready) => TickKeepsInv(w, n, ready);
    }
  }

  // ----- The bridge gets through its work ---------------------------------------------------

  /** Edges from the poll of a frame to the handover of its packet: one to start, one for each beat. */
  function EdgesFor(w: nat, f: NicFrame): int
    requires w > 0
  {
    LastIndex(w, f.size) + 2
  }

  function EdgesForAll(w: nat, q: seq<NicFrame>): int
    requires w > 0
  {
    if q == [] then 0 else EdgesFor(w, q[0]) + EdgesForAll(w, q[1..])
  }

  /** Edges until the bridge is empty: what the current frame still takes, or one to poll the first,
      and then what each queued frame takes, each being polled on the edge its predecessor ends. */
  function EdgesLeft(w: nat, n: Net): int
    requires w > 0
  {
    EdgesForAll(w, n.queue) +
    if n.now.None? then (if n.queue == [] then 0 else 1)
    else if n.m.state == Idle then EdgesFor(w, n.now.value)
    else EdgesFor(w, n.now.value) - n.m.count
  }

  lemma {:induction false} EdgesPositive(w: nat, q: seq<NicFrame>)
    requires w > 0 && forall k :: 0 <= k < |q| ==> GoodFrame(w, q[k])
    ensures EdgesForAll(w, q) >= 2 * |q|
  {
    if q != [] {
      LastSplit(w, q[0].size);
      EdgesPositive(w, q[1..]);
    }
  }

  lemma EdgesLeftPositive(w: nat, n: Net)
    requires LaneCount(w) && Inv(w, n)
    ensures EdgesLeft(w, n) >= 0
    ensures EdgesLeft(w, n) == 0 <==> n.queue == [] && n.now.None?
  {
    EdgesPositive(w, n.queue);
    if n.now.Some? { LastSplit(w, n.now.value.size); }
  }

  /** With the poller seeing the queue, every edge is one less to go. */
  lemma EdgeCloser(w: nat, n: Net)
    requires LaneCount(w) && Inv(w, n) && EdgesLeft(w, n) > 0
    ensures EdgesLeft(w, Step(w, n, Tick(true))) == EdgesLeft(w, n) - 1
  {
    EdgesLeftPositive(w, n);
    if n.now.Some? { LastSplit(w, n.now.value.size); }
    if n.m.state == Data {
      StreamAdvances(w, n.m, n.q, n.q);
      if n.m.count == n.q.len + 1 {
        CollectLast(w, n.s, n.now.value);
      } else {
        CollectMiddle(w, n.s, n.now.value, n.m.count - 1);
      }
    } else if n.now.Some? {
      StreamStarts(w, n.m, n.q);
    }
  }

  /** The bridge after k such edges. */
  function AfterTicks(w: nat, n: Net, k: nat): Net
    requires w > 0
  {
    if k == 0 then n else Step(w, AfterTicks(w, n, k - 1), Tick(true))
  }

  lemma {:induction false} TicksCount(w: nat, n: Net, k: nat)
    requires LaneCount(w) && Inv(w, n) && k <= EdgesLeft(w, n)
    ensures var n' := AfterTicks(w, n, k);
            Inv(w, n') && EdgesLeft(w, n') == EdgesLeft(w, n) - k && n'.arrived == n.arrived
  {
    if k > 0 {
      TicksCount(w, n, k - 1);
      EdgeCloser(w, AfterTicks(w, n, k - 1));
      TickKeepsInv(w, AfterTicks(w, n, k - 1), true);
    }
  }

  function Ticks(k: nat): seq<Event> {
    if k == 0 then [] else Ticks(k - 1) + [Tick(true)]
  }

  lemma ExecSnoc(w: nat, es: seq<Event>, e: Event)
    requires w > 0 && AllAllowed(w, es) && Allowed(w, e)
    ensures AllAllowed(w, es + [e]) && Exec(w, es + [e]) == Step(w, Exec(w, es), e)
  {
    assert (es + [e])[..|es|] == es;
  }

  lemma OneMoreTick(w: nat, es: seq<Event>, t: seq<Event>)
    requires w > 0 && AllAllowed(w, es) && AllAllowed(w, es + t)
    ensures AllAllowed(w, es + (t + [Tick(true)]))
    ensures Exec(w, es + (t + [Tick(true)])) == Step(w, Exec(w, es + t), Tick(true))
  {
    AppendAssociates(es, t, [Tick(true)]);
    ExecSnoc(w, es + t, Tick(true));
  }

  lemma {:induction false} ExecTicks(w: nat, es: seq<Event>, k: nat)
    requires w > 0 && AllAllowed(w, es)
    ensures AllAllowed(w, es + Ticks(k)) && Exec(w, es + Ticks(k)) == AfterTicks(w, Exec(w, es), k)
  {
    if k == 0 {
      assert es + Ticks(0) == es;
    } else {
      ExecTicks(w, es, k - 1);
      OneMoreTick(w, es, Ticks(k - 1));
    }
  }

  /** From every reachable state, that many edges with the poller seeing the queue hand back every
      packet handed in: nothing is left in the bridge or its queue. */
  lemma EverythingDelivered(w: nat, es: seq<Event>)
    requires LaneCount(w) && AllAllowed(w, es)
    ensures EdgesLeft(w, Exec(w, es)) >= 0
    ensures var es' := es + Ticks(EdgesLeft(w, Exec(w, es)));
            && AllAllowed(w, es') && Exec(w, es').queue == [] && Exec(w, es').now.None?
            && Exec(w, es').sent == Exec(w, es').arrived == Exec(w, es).arrived
  {
    NoLossNoDuplication(w, es);
    EdgesLeftPositive(w, Exec(w, es));
    var k := EdgesLeft(w, Exec(w, es));
    ExecTicks(w, es, k);
    TicksCount(w, Exec(w, es), k);
    var n := AfterTicks(w, Exec(w, es), k);
    EdgesLeftPositive(w, n);
    assert n.sent + [] + Payloads(n.queue) == n.sent;
  }
}
