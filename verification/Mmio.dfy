/** The MMIO path: a guest access pushes one frame, the HDL side turns it into one AXI burst against
    the device's address space, and the callback blocks for one response that carries no identifier. */
module Mmio {
  import opened Bytes
  import opened Axi
  import opened Frames
  import Compaction
  import Poll
  import MR = MasterRead
  import MW = MasterWrite

  // ----- The QEMU callbacks -----------------------------------------------------------------

  datatype Access =
    | Rd(bar: nat, offset: nat, size: nat)
    | Wr(bar: nat, offset: nat, size: nat, value: nat)

  /** mmio_read_bar / mmio_write_bar up to the send: the struct is cleared, then filled in. */
  function RequestFrame(acc: Access, txid: nat): Frame {
    match acc
    case Rd(bar, offset, size) => Frame(txid % 0x1_0000_0000, size, offset, Read, bar, Zeros(BUFF_SIZE), 0)
    case Wr(bar, offset, size, value) =>
      Frame(txid % 0x1_0000_0000, size, offset, Write, bar, ToLE(value, 8) + Zeros(BUFF_SIZE - 8), 0)
  }

  predicate AccessSize(n: nat) {
    n == 1 || n == 2 || n == 4 || n == 8
  }

  /** mmio_read_bar after the receive: a little-endian value of the access size, 0 for other sizes. */
  function ReturnValue(size: nat, response: Frame): (r: nat)
    requires |response.data| == BUFF_SIZE
    ensures size != 1 && size != 2 && size != 4 && size != 8 ==> r == 0
  {
    if AccessSize(size) then FromLE(response.data[..size]) else 0
  }

  datatype Cpu = Running | Blocked(acc: Access)

  // ----- The path as a state machine --------------------------------------------------------

  /** The vCPU, the two sockets, the two master engines, and the AXI slave they talk to: its memory
      and the record of its handshakes with each engine. */
  datatype Side = Side(
    cpu: Cpu, txid: nat, qemuReq: seq<Frame>, qemuResp: seq<Frame>,
    mr: MR.Regs, mw: MW.Regs, mem: Memory, rmon: MR.Mon, wmon: MW.Mon)

  /** What the AXI slave drives before an edge, and the stack residue under the response structs. */
  datatype In = In(
    arready: bool, rvalid: bool, rlast: bool, rdata: seq<byte>,
    awready: bool, wready: bool, bvalid: bool, residue: Frame)

  function Reset(w: nat, m0: Memory): Side {
    Side(Running, 0, [], [], MR.RESET, MW.Reset(w), m0, MR.QUIET, MW.QUIET)
  }

  function MrIn(p: Poll.Regs, i: In): MR.In {
    MR.In(p.mRd, p.addr, p.len, p.size, i.arready, i.rvalid, i.rlast, i.rdata)
  }

  function RequestOf(p: Poll.Regs): MW.Request {
    MW.Request(p.addr, p.len, p.size, p.strb, p.data)
  }

  function MwIn(p: Poll.Regs, i: In): MW.In {
    MW.In(p.mWr, RequestOf(p), i.awready, i.wready, i.bvalid)
  }

  function StrobedBeats(beats: seq<MW.MBeat>): seq<WBeat> {
    seq(|beats|, k requires 0 <= k < |beats| => WBeat(beats[k].data, beats[k].strb))
  }

  /** The AXI slave answers the burst it accepted: active lanes of each beat carry its memory. */
  predicate SlaveCompliant(w: nat, s: Side, p: Poll.Regs, i: In)
    requires w > 0
  {
    && MR.Compliant(w, s.rmon, MrIn(p, i)) && MW.Compliant(s.mw, s.wmon, MwIn(p, i))
    && |i.residue.data| == BUFF_SIZE
    && (i.rvalid ==> forall j :: 0 <= j < w && Active(w, s.rmon.ar.value, |s.rmon.beats|, j) ==>
          i.rdata[j] == s.mem(BeatWord(w, s.rmon.ar.value, |s.rmon.beats|) + j))
  }

  /** Responses pushed to QEMU at this edge. */
  function Responses(w: nat, s: Side, p: Poll.Regs, i: In): seq<Frame>
    requires w > 0
  {
    var mr' := MR.Next(w, s.mr, MrIn(p, i));
    (if MR.Responds(s.mr, MrIn(p, i)) then [Poll.RespRead(w, i.residue, mr'.addr, mr'.data)] else [])
    + (if MW.Responds(s.mw, MwIn(p, i)) then [i.residue] else [])
  }

  /** One clock edge; the dispatcher has taken the head of qemu_req if `popped`. */
  function Clock(w: nat, s: Side, p: Poll.Regs, i: In, popped: bool): Side
    requires w > 0
    requires popped ==> s.qemuReq != []
  {
    s.(qemuReq := if popped then s.qemuReq[1..] else s.qemuReq,
       qemuResp := s.qemuResp + Responses(w, s, p, i),
       mr := MR.Next(w, s.mr, MrIn(p, i)), mw := MW.Next(w, s.mw, MwIn(p, i)),
       rmon := MR.Observe(w, s.rmon, s.mr, MrIn(p, i)), wmon := MW.Observe(s.wmon, s.mw, MwIn(p, i)),
       mem := if i.bvalid && s.wmon.aw.Some?
              then WriteBeats(w, s.mem, s.wmon.aw.value, StrobedBeats(s.wmon.beats)) else s.mem)
  }

  function Issue(s: Side, acc: Access): Side {
    s.(cpu := Blocked(acc), txid := s.txid + 1, qemuReq := s.qemuReq + [RequestFrame(acc, s.txid + 1)])
  }

  function Return(s: Side): Side
    requires s.qemuResp != []
  {
    s.(cpu := Running, qemuResp := s.qemuResp[1..])
  }

  // ----- What an access means ---------------------------------------------------------------

  /** QEMU's memory core only issues naturally aligned accesses of these sizes. */
  predicate LegalAccess(conf: Poll.Conf, acc: Access) {
    && acc.bar < |conf.offsets| && AccessSize(acc.size)
    && Address(conf, acc) % acc.size == 0
  }

  /** The offset within the BAR plus where the BAR sits on the bus. */
  function Address(conf: Poll.Conf, acc: Access): nat
    requires acc.bar < |conf.offsets|
  {
    (acc.offset + conf.offsets[acc.bar]) % WORD
  }

  /** The flat byte memory after an access. */
  function Meaning(conf: Poll.Conf, flat: Memory, acc: Access): Memory
    requires acc.bar < |conf.offsets|
  {
    if acc.Wr? then Store(flat, Address(conf, acc), ToLE(acc.value, acc.size)) else flat
  }

  function BurstOf(conf: Poll.Conf, acc: Access): Burst
    requires acc.bar < |conf.offsets|
  {
    Burst(Address(conf, acc), Poll.Log2(acc.size), 0)
  }

  predicate InBars(conf: Poll.Conf, accs: seq<Access>) {
    forall k :: 0 <= k < |accs| ==> accs[k].bar < |conf.offsets|
  }

  /** A memory after some accesses. */
  function AllOf(conf: Poll.Conf, flat: Memory, accs: seq<Access>): Memory
    requires InBars(conf, accs)
  {
    if accs == [] then flat else Meaning(conf, AllOf(conf, flat, Front(accs)), Last(accs))
  }

  lemma AllOfSnoc(conf: Poll.Conf, flat: Memory, accs: seq<Access>, acc: Access)
    requires InBars(conf, accs) && acc.bar < |conf.offsets|
    ensures InBars(conf, accs + [acc])
    ensures AllOf(conf, flat, accs + [acc]) == Meaning(conf, AllOf(conf, flat, accs), acc)
  {
    assert Front(accs + [acc]) == accs;
  }

  lemma InBarsParts(conf: Poll.Conf, x: seq<Access>, y: seq<Access>)
    requires InBars(conf, x + y)
    ensures InBars(conf, x) && InBars(conf, y)
  {
    assert forall k :: 0 <= k < |x| ==> x[k] == (x + y)[k];
    assert forall k :: 0 <= k < |y| ==> y[k] == (x + y)[|x| + k];
  }

  lemma {:induction false} AllOfParts(conf: Poll.Conf, flat: Memory, x: seq<Access>, y: seq<Access>)
    requires InBars(conf, x) && InBars(conf, y)
    ensures InBars(conf, x + y)
    ensures AllOf(conf, flat, x + y) == AllOf(conf, AllOf(conf, flat, x), y)
  {
    if y == [] {
      assert x + y == x;
    } else {
      assert x + y == (x + Front(y)) + [Last(y)];
      AllOfParts(conf, flat, x, Front(y));
      AllOfSnoc(conf, flat, x + Front(y), Last(y));
    }
  }

  /** The access is no write to any of the n bytes from addr on. */
  predicate Spares(conf: Poll.Conf, acc: Access, addr: nat, n: nat)
    requires acc.bar < |conf.offsets|
  {
    acc.Wr? ==> Address(conf, acc) + acc.size <= addr || addr + n <= Address(conf, acc)
  }

  predicate AllSpare(conf: Poll.Conf, accs: seq<Access>, addr: nat, n: nat)
    requires InBars(conf, accs)
  {
    forall k :: 0 <= k < |accs| ==> Spares(conf, accs[k], addr, n)
  }

  lemma SparedOnce(conf: Poll.Conf, m: Memory, acc: Access, addr: nat, n: nat)
    requires acc.bar < |conf.offsets| && Spares(conf, acc, addr, n)
    ensures Load(Meaning(conf, m, acc), addr, n) == Load(m, addr, n)
  {
  }

  lemma {:induction false} SparedBytes(conf: Poll.Conf, flat: Memory, accs: seq<Access>, addr: nat, n: nat)
    requires InBars(conf, accs) && AllSpare(conf, accs, addr, n)
    ensures Load(AllOf(conf, flat, accs), addr, n) == Load(flat, addr, n)
  {
    if accs != [] {
      SparedBytes(conf, flat, Front(accs), addr, n);
      SparedOnce(conf, AllOf(conf, flat, Front(accs)), Last(accs), addr, n);
    }
  }

  lemma WrittenBytes(conf: Poll.Conf, m: Memory, wr: Access)
    requires wr.Wr? && wr.bar < |conf.offsets|
    ensures FromLE(Load(Meaning(conf, m, wr), Address(conf, wr), wr.size)) == wr.value % Pow2(8 * wr.size)
  {
    assert Load(Meaning(conf, m, wr), Address(conf, wr), wr.size) == ToLE(wr.value, wr.size);
    LERoundTrip(wr.value, wr.size);
  }

  /** What a write stored is read back, cut to the access size, after any accesses that spare it. */
  lemma ReadBack(conf: Poll.Conf, flat: Memory, before: seq<Access>, wr: Access, between: seq<Access>, rd: Access)
    requires InBars(conf, before + [wr] + between + [rd]) && InBars(conf, between) && wr.Wr? && rd.Rd?
    requires wr.bar < |conf.offsets| && AllSpare(conf, between, Address(conf, wr), wr.size)
    ensures FromLE(Load(AllOf(conf, flat, before + [wr] + between + [rd]), Address(conf, wr), wr.size))
            == wr.value % Pow2(8 * wr.size)
  {
    InBarsParts(conf, before + [wr] + between, [rd]);
    InBarsParts(conf, before + [wr], between);
    InBarsParts(conf, before, [wr]);
    assert rd == [rd][0];
    AllOfSnoc(conf, flat, before + [wr] + between, rd);
    AllOfParts(conf, flat, before + [wr], between);
    AllOfSnoc(conf, flat, before, wr);
    SparedBytes(conf, AllOf(conf, flat, before + [wr]), between, Address(conf, wr), wr.size);
    WrittenBytes(conf, AllOf(conf, flat, before), wr);
  }

  /** For accesses of one BAR that do not run off the end of the bus, sparing is a matter of offsets. */
  lemma SparesByOffset(conf: Poll.Conf, acc: Access, other: Access)
    requires acc.bar == other.bar < |conf.offsets|
    requires acc.offset + acc.size + conf.offsets[acc.bar] <= WORD && acc.size > 0
    requires other.offset + other.size + conf.offsets[acc.bar] <= WORD && other.size > 0
    ensures Spares(conf, acc, Address(conf, other), other.size)
            <==> acc.Rd? || acc.offset + acc.size <= other.offset || other.offset + other.size <= acc.offset
  {
  }

  // ----- A BAR as a byte array --------------------------------------------------------------

  /** The bytes behind a BAR, by offset, after some accesses. */
  function BarMemory(bar: nat, m: Memory, accs: seq<Access>): Memory {
    if accs == [] then m
    else
      var acc, before := Last(accs), BarMemory(bar, m, Front(accs));
      if acc.Wr? && acc.bar == bar then Store(before, acc.offset, ToLE(acc.value, acc.size)) else before
  }

  /** Writes through the BAR stay in its window of sz bytes, and those through others out of it. */
  predicate KeepsWindows(conf: Poll.Conf, acc: Access, bar: nat, sz: nat)
    requires bar < |conf.offsets| && acc.bar < |conf.offsets|
  {
    acc.Wr? ==>
      if acc.bar == bar then acc.offset + acc.size <= sz
      else Address(conf, acc) + acc.size <= conf.offsets[bar] || conf.offsets[bar] + sz <= Address(conf, acc)
  }

  /** The device's bytes behind a BAR, by offset. */
  function Behind(conf: Poll.Conf, flat: Memory, bar: nat): Memory
    requires bar < |conf.offsets|
  {
    x => flat(conf.offsets[bar] + x)
  }

  /** Then each byte of the flat memory in the window is the byte of the array at its offset. */
  lemma {:induction false} BarView(conf: Poll.Conf, flat: Memory, accs: seq<Access>, bar: nat, sz: nat, o: nat)
    requires bar < |conf.offsets| && conf.offsets[bar] + sz <= WORD && o < sz && InBars(conf, accs)
    requires forall k :: 0 <= k < |accs| ==> KeepsWindows(conf, accs[k], bar, sz)
    ensures AllOf(conf, flat, accs)(conf.offsets[bar] + o) == BarMemory(bar, Behind(conf, flat, bar), accs)(o)
  {
    if accs != [] {
      BarView(conf, flat, Front(accs), bar, sz, o);
      BarViewStep(conf, AllOf(conf, flat, Front(accs)),
                  BarMemory(bar, Behind(conf, flat, bar), Front(accs)), Last(accs), bar, sz, o);
    }
  }

  lemma WindowLoads(conf: Poll.Conf, flat: Memory, accs: seq<Access>, bar: nat, sz: nat, o: nat, n: nat)
    requires bar < |conf.offsets| && conf.offsets[bar] + sz <= WORD && o + n <= sz && InBars(conf, accs)
    requires forall k :: 0 <= k < |accs| ==> KeepsWindows(conf, accs[k], bar, sz)
    ensures Load(AllOf(conf, flat, accs), conf.offsets[bar] + o, n) == Load(BarMemory(bar, Behind(conf, flat, bar), accs), o, n)
  {
    var l, r := Load(AllOf(conf, flat, accs), conf.offsets[bar] + o, n), Load(BarMemory(bar, Behind(conf, flat, bar), accs), o, n);
    forall i | 0 <= i < n ensures l[i] == r[i] {
      BarView(conf, flat, accs, bar, sz, o + i);
    }
  }

  /** An access within a window that does not run off the end of the bus is where its offset says. */
  lemma AddressInWindow(conf: Poll.Conf, acc: Access, sz: nat)
    requires acc.bar < |conf.offsets| && acc.offset < sz && conf.offsets[acc.bar] + sz <= WORD
    ensures Address(conf, acc) == conf.offsets[acc.bar] + acc.offset
  {
  }

  lemma BarViewStep(conf: Poll.Conf, m: Memory, bytes: Memory, acc: Access, bar: nat, sz: nat, o: nat)
    requires bar < |conf.offsets| && conf.offsets[bar] + sz <= WORD && o < sz && acc.bar < |conf.offsets|
    requires KeepsWindows(conf, acc, bar, sz) && m(conf.offsets[bar] + o) == bytes(o)
    ensures Meaning(conf, m, acc)(conf.offsets[bar] + o)
            == if acc.Wr? && acc.bar == bar then Store(bytes, acc.offset, ToLE(acc.value, acc.size))(o) else bytes(o)
  {
    if acc.Wr? && acc.bar == bar && acc.size > 0 {
      assert Address(conf, acc) == acc.offset + conf.offsets[bar];
    }
  }

  /** Guest accesses aligned within their BAR are aligned on the bus for every size, if and only if
      the BAR's AXI offset is a multiple of 8. */
  lemma AlignedBars(conf: Poll.Conf, bar: nat)
    requires bar < |conf.offsets|
    ensures (forall acc: Access | acc.bar == bar && AccessSize(acc.size) && acc.offset % acc.size == 0 ::
               LegalAccess(conf, acc))
            <==> conf.offsets[bar] % 8 == 0
  {
    var base := conf.offsets[bar];
    if base % 8 == 0 {
      forall acc: Access | acc.bar == bar && AccessSize(acc.size) && acc.offset % acc.size == 0
        ensures LegalAccess(conf, acc)
      {
        AlignedSum(acc.offset, base, acc.size);
      }
    } else {
      TruncationKeeps(0 + base, 8, WORD / 8);
      assert !LegalAccess(conf, Rd(bar, 0, 8));
    }
  }

  lemma AlignedSum(x: nat, y: nat, n: nat)
    requires AccessSize(n) && x % n == 0 && y % 8 == 0
    ensures (x + y) % WORD % n == 0
  {
    SumOfMultiples(x, y, n, 8 / n);
    TruncationKeeps(x + y, n, WORD / n);
  }

  lemma SumOfMultiples(x: nat, y: nat, n: nat, m: nat)
    requires n > 0 && m > 0 && n * m == 8 && x % n == 0 && y % 8 == 0
    ensures (x + y) % n == 0
  {
    var u, v := x / n, y / 8;
    assert x == u * n && y == v * (n * m);
    assert v * (n * m) == v * m * n;
    DivModUnique(x + y, n, u + v * m, 0);
  }

  lemma TruncationKeeps(t: nat, c: nat, p: nat)
    requires c > 0 && p > 0
    ensures c * p > 0 && t % (c * p) % c == t % c
  {
    ModSplit(t, c, p);
    DivModUnique(t % (c * p), c, t / c % p, t % c);
  }

  /** The access is a write to a byte window at the start of BAR x. */
  predicate WritesWithin(conf: Poll.Conf, x: nat, size: nat, acc: Access) {
    acc.Wr? && acc.bar == x && LegalAccess(conf, acc) && acc.offset + acc.size <= size
  }

  /** The access leaves a window of addresses alone. */
  ghost predicate LeavesAlone(conf: Poll.Conf, flat: Memory, acc: Access, lo: nat, size: nat)
    requires acc.bar < |conf.offsets|
  {
    forall a :: lo <= a < lo + size ==> Meaning(conf, flat, acc)(a) == flat(a)
  }

  /** Writes through BAR x never change a byte of BAR y, whatever the memory, if and only if their
      windows on the bus are disjoint. */
  lemma BarsIndependent(conf: Poll.Conf, x: nat, sx: nat, y: nat, sy: nat)
    requires x < |conf.offsets| && y < |conf.offsets|
    requires conf.offsets[x] + sx <= WORD && conf.offsets[y] + sy <= WORD
    ensures (forall flat: Memory, acc: Access | WritesWithin(conf, x, sx, acc) ::
               LeavesAlone(conf, flat, acc, conf.offsets[y], sy))
            <==> sx == 0 || sy == 0 || conf.offsets[x] + sx <= conf.offsets[y] || conf.offsets[y] + sy <= conf.offsets[x]
  {
    var ox, oy := conf.offsets[x], conf.offsets[y];
    if sx == 0 || sy == 0 || ox + sx <= oy || oy + sy <= ox {
      forall flat: Memory, acc: Access | WritesWithin(conf, x, sx, acc)
        ensures LeavesAlone(conf, flat, acc, oy, sy)
      {
        assert Address(conf, acc) == acc.offset + ox;
      }
    } else {
      var a := if ox < oy then oy else ox;
      var acc, blank: Memory := Wr(x, a - ox, 1, 1), _ => 0;
      assert Address(conf, acc) == a && WritesWithin(conf, x, sx, acc);
      assert ToLE(1, 1) == [1];
      assert Meaning(conf, blank, acc)(a) != blank(a);
      assert !LeavesAlone(conf, blank, acc, oy, sy);
    }
  }

  // ----- Lanes of an access -----------------------------------------------------------------

  lemma AccessBurst(w: nat, conf: Poll.Conf, acc: Access)
    requires BusWidth(w) && LegalAccess(conf, acc)
    ensures Pow2(Poll.Log2(acc.size)) == acc.size && Poll.Log2(acc.size) < 8
    ensures Poll.AxiLen(w, acc.size) == 0
    ensures LegalSize(w, BurstOf(conf, acc))
    ensures var b, at := BurstOf(conf, acc), Address(conf, acc) % w;
            && LaneLow(w, b, 0) == at && LaneHigh(w, b, 0) == at + acc.size <= w
            && BeatWord(w, b, 0) + at == Address(conf, acc)
  {
    Pow2Values();
    assert Poll.Floor(2) == 1;
    assert Poll.Floor(4) == 2;
    assert Poll.Floor(8) == 3;
    LaneBounds(w, BurstOf(conf, acc), 0);
  }

  /** The request registers hold this write. */
  predicate WriteRequest(w: nat, conf: Poll.Conf, acc: Access, q: MW.Request)
    requires w > 0
  {
    && acc.Wr? && LegalAccess(conf, acc)
    && q.addr == Address(conf, acc) && q.len == 0 && q.size == Poll.Log2(acc.size) && |q.data| == BUFF_SIZE
    && var at := Address(conf, acc) % w;
       && at + acc.size <= w <= BUFF_SIZE
       && q.strb == Mask(at, acc.size) % WORD
       && q.data[at..at + acc.size] == ToLE(acc.value, acc.size)
  }

  predicate ReadRequest(conf: Poll.Conf, acc: Access, b: Burst) {
    acc.Rd? && LegalAccess(conf, acc) && b == BurstOf(conf, acc)
  }

  /** Polling the frame of an access presents exactly that access. */
  lemma DispatchAccess(w: nat, conf: Poll.Conf, acc: Access, txid: nat, p: Poll.Regs)
    requires BusWidth(w) && LegalAccess(conf, acc) && |p.data| == BUFF_SIZE
    ensures var f := RequestFrame(acc, txid);
            var p' := Poll.Next(w, conf, p, Poll.FromQemu(f));
            && p'.mRd == acc.Rd? && p'.mWr == acc.Wr? && !p'.sRd && |p'.data| == BUFF_SIZE
            && (acc.Rd? ==> ReadRequest(conf, acc, Burst(p'.addr, p'.size, p'.len)))
            && (acc.Wr? ==> WriteRequest(w, conf, acc, RequestOf(p')))
  {
    AccessBurst(w, conf, acc);
    if acc.Wr? {
      PlacedBytes(acc.value, acc.size, p.data, Address(conf, acc) % w, RequestFrame(acc, txid).data);
      DispatchWrite(w, conf, acc, txid, p);
    } else {
      DispatchRead(w, conf, acc, txid, p);
    }
  }

  lemma DispatchRead(w: nat, conf: Poll.Conf, acc: Access, txid: nat, p: Poll.Regs)
    requires 0 < w <= BUFF_SIZE && LegalAccess(conf, acc) && acc.Rd? && Poll.AxiLen(w, acc.size) == 0
    ensures var p' := Poll.Next(w, conf, p, Poll.FromQemu(RequestFrame(acc, txid)));
            p'.mRd && !p'.mWr && !p'.sRd && p'.data == p.data && ReadRequest(conf, acc, Burst(p'.addr, p'.size, p'.len))
  {
  }

  lemma DispatchWrite(w: nat, conf: Poll.Conf, acc: Access, txid: nat, p: Poll.Regs)
    requires 0 < w <= BUFF_SIZE && LegalAccess(conf, acc) && |p.data| == BUFF_SIZE && acc.Wr?
    requires Poll.AxiLen(w, acc.size) == 0 && Address(conf, acc) % w + acc.size <= w
    requires var at := Address(conf, acc) % w;
             Splice(p.data, at, RequestFrame(acc, txid).data[..BUFF_SIZE - at])[at..at + acc.size]
             == ToLE(acc.value, acc.size)
    ensures var p' := Poll.Next(w, conf, p, Poll.FromQemu(RequestFrame(acc, txid)));
            !p'.mRd && p'.mWr && !p'.sRd && |p'.data| == BUFF_SIZE && WriteRequest(w, conf, acc, RequestOf(p'))
  {
  }

  /** The value's low bytes, copied with the whole frame buffer to a lane offset. */
  lemma PlacedBytes(value: nat, n: nat, was: seq<byte>, at: nat, data: seq<byte>)
    requires n <= 8 && |was| == BUFF_SIZE && at + n <= BUFF_SIZE && data == ToLE(value, 8) + Zeros(BUFF_SIZE - 8)
    ensures Splice(was, at, data[..BUFF_SIZE - at])[at..at + n] == ToLE(value, n)
  {
    ToLEPrefix(value, 8, n);
    assert data[..n] == ToLE(value, 8)[..n];
    assert Splice(was, at, data[..BUFF_SIZE - at])[at..at + n] == data[..n];
  }

  lemma WriteStrobes(w: nat, at: nat, n: nat, j: nat)
    requires BusWidth(w) && at + n <= w && j < w
    ensures Bit(Mask(at, n) % WORD % Pow2(w), j) <==> at <= j < at + n
  {
    WordIsPow2();
    BitTruncate(Mask(at, n) % WORD, w, j);
    BitTruncate(Mask(at, n), 64, j);
    BitMask(at, n, j);
  }

  lemma StrobesOnWindow(w: nat, at: nat, n: nat, strb: nat)
    requires BusWidth(w) && at + n <= w && strb == Mask(at, n) % WORD % Pow2(w)
    ensures forall j :: 0 <= j < w ==> (Bit(strb, j) <==> at <= j < at + n)
  {
    forall j | 0 <= j < w ensures Bit(strb, j) <==> at <= j < at + n { WriteStrobes(w, at, n, j); }
  }

  lemma OneBeat(w: nat, m: Memory, b: Burst, beat: MW.MBeat)
    requires w > 0
    ensures WriteBeats(w, m, b, StrobedBeats([beat])) == WriteBeat(m, BeatWord(w, b, 0), WBeat(beat.data, beat.strb))
  {
    var beats := StrobedBeats([beat]);
    assert beats == [WBeat(beat.data, beat.strb)];
    assert beats[..0] == [];
  }

  /** The single strobed beat of a write request stores the access's bytes at its address and
      changes nothing else, whatever the other lanes carry. */
  lemma WriteBeatStores(w: nat, conf: Poll.Conf, acc: Access, q: MW.Request, m: Memory)
    requires BusWidth(w) && WriteRequest(w, conf, acc, q)
    ensures Same(WriteBeats(w, m, BurstOf(conf, acc), StrobedBeats([MW.Wanted(w, q, 0)])),
                 Meaning(conf, m, acc))
  {
    AccessBurst(w, conf, acc);
    var at, beat := Address(conf, acc) % w, MW.Wanted(w, q, 0);
    BeatOfRequest(w, q, at, acc.size);
    StrobesOnWindow(w, at, acc.size, beat.strb);
    SingleBeatStores(w, m, BurstOf(conf, acc), beat, at, acc.size, ToLE(acc.value, acc.size));
  }

  lemma BeatOfRequest(w: nat, q: MW.Request, at: nat, n: nat)
    requires at + n <= w <= |q.data| && q.len == 0
    ensures var beat := MW.Wanted(w, q, 0);
            |beat.data| == w && beat.data[at..at + n] == q.data[at..at + n] && beat.strb == q.strb % Pow2(w)
  {
    assert w * 0 == 0;
  }

  lemma SingleBeatStores(w: nat, m: Memory, b: Burst, beat: MW.MBeat, at: nat, n: nat, d: seq<byte>)
    requires w > 0 && at + n <= w && |beat.data| == w && beat.data[at..at + n] == d
    requires forall j :: 0 <= j < w ==> (Bit(beat.strb, j) <==> at <= j < at + n)
    requires BeatWord(w, b, 0) + at == b.addr
    ensures Same(WriteBeats(w, m, b, StrobedBeats([beat])), Store(m, b.addr, d))
  {
    OneBeat(w, m, b, beat);
    Compaction.WindowStore(m, BeatWord(w, b, 0), WBeat(beat.data, beat.strb), at, at + n);
  }

  /** The lanes of the single beat of a read, extracted by C_resp_read, are the addressed bytes. */
  lemma ReadBeatLoads(w: nat, conf: Poll.Conf, acc: Access, rdata: seq<byte>, buf: seq<byte>, residue: Frame, m: Memory)
    requires BusWidth(w) && LegalAccess(conf, acc)
    requires |rdata| == w && |buf| == BUFF_SIZE && Slice(buf, 0, w) == rdata && |residue.data| == BUFF_SIZE
    requires forall j :: 0 <= j < w && Active(w, BurstOf(conf, acc), 0, j) ==>
               rdata[j] == m(BeatWord(w, BurstOf(conf, acc), 0) + j)
    ensures |Poll.RespRead(w, residue, Address(conf, acc), buf).data| == BUFF_SIZE
    ensures Poll.RespRead(w, residue, Address(conf, acc), buf).data[..acc.size]
            == Load(m, Address(conf, acc), acc.size)
  {
    ActiveBytes(w, conf, acc, rdata, m);
    RespondedBytes(w, Address(conf, acc), acc.size, rdata, buf, residue);
  }

  /** The active lanes of a single beat carry the memory's bytes. */
  predicate LanesLoaded(w: nat, b: Burst, rdata: seq<byte>, m: Memory)
    requires w > 0 && |rdata| == w
  {
    forall j :: 0 <= j < w && Active(w, b, 0, j) ==> rdata[j] == m(BeatWord(w, b, 0) + j)
  }

  lemma LaneByte(w: nat, conf: Poll.Conf, acc: Access, rdata: seq<byte>, m: Memory, k: nat)
    requires BusWidth(w) && LegalAccess(conf, acc) && |rdata| == w && LanesLoaded(w, BurstOf(conf, acc), rdata, m)
    requires k < acc.size
    ensures var at := Address(conf, acc) % w;
            at + acc.size <= w && rdata[at + k] == m(Address(conf, acc) + k)
  {
    AccessLanes(w, conf, acc, Address(conf, acc) % w + k);
  }

  lemma ActiveBytes(w: nat, conf: Poll.Conf, acc: Access, rdata: seq<byte>, m: Memory)
    requires BusWidth(w) && LegalAccess(conf, acc) && |rdata| == w && LanesLoaded(w, BurstOf(conf, acc), rdata, m)
    ensures var at := Address(conf, acc) % w;
            at + acc.size <= w && rdata[at..at + acc.size] == Load(m, Address(conf, acc), acc.size)
  {
    var addr, at := Address(conf, acc), Address(conf, acc) % w;
    LaneByte(w, conf, acc, rdata, m, 0);
    forall k | 0 <= k < acc.size ensures rdata[at..at + acc.size][k] == Load(m, addr, acc.size)[k] {
      LaneByte(w, conf, acc, rdata, m, k);
    }
  }

  /** The active lanes of an access are those of its bytes. */
  lemma AccessLanes(w: nat, conf: Poll.Conf, acc: Access, j: nat)
    requires BusWidth(w) && LegalAccess(conf, acc)
    ensures var at := Address(conf, acc) % w;
            && at + acc.size <= w && BeatWord(w, BurstOf(conf, acc), 0) + at == Address(conf, acc)
            && (Active(w, BurstOf(conf, acc), 0, j) <==> at <= j < at + acc.size)
  {
    AccessBurst(w, conf, acc);
  }

  lemma RespondedBytes(w: nat, addr: nat, n: nat, rdata: seq<byte>, buf: seq<byte>, residue: Frame)
    requires 0 < w <= BUFF_SIZE && addr % w + n <= w
    requires |rdata| == w && |buf| == BUFF_SIZE && Slice(buf, 0, w) == rdata && |residue.data| == BUFF_SIZE
    ensures var data := Poll.RespRead(w, residue, addr, buf).data;
            |data| == BUFF_SIZE && data[..n] == rdata[addr % w..addr % w + n]
  {
    assert buf[..w] == Slice(buf, 0, w);
    var at := addr % w;
    assert buf[at..at + n] == buf[..w][at..at + n];
  }

  // ----- The invariant ----------------------------------------------------------------------

  function Count(b: bool): nat {
    if b then 1 else 0
  }

  /** Everything in flight on behalf of the guest: frames, pulses and busy engines. */
  function Tokens(s: Side, p: Poll.Regs): nat {
    |s.qemuReq| + Count(p.mRd) + Count(p.mWr) + Count(s.mr.state == MR.Data) + Count(s.mw.state != MW.Idle)
    + |s.qemuResp|
  }

  /** The slave's memory, with the write in flight (if it has not been answered) applied. */
  function Settled(conf: Poll.Conf, s: Side): Memory
    requires s.cpu.Blocked? ==> s.cpu.acc.bar < |conf.offsets|
  {
    if s.cpu.Blocked? && s.qemuResp == [] then Meaning(conf, s.mem, s.cpu.acc) else s.mem
  }

  ghost predicate Inv(w: nat, conf: Poll.Conf, s: Side, p: Poll.Regs, flat: Memory)
    requires w > 0
  {
    && |p.data| == BUFF_SIZE
    && MR.Inv(w, s.mr, s.rmon) && MW.Inv(w, s.mw, s.wmon)
    && Tokens(s, p) == (if s.cpu.Running? then 0 else 1)
    && (s.cpu.Blocked? ==> LegalAccess(conf, s.cpu.acc) && InFlight(w, conf, s, p, s.cpu.acc))
    && Same(flat, Settled(conf, s))
  }

  /** Wherever the token is, it carries the blocked access. */
  ghost predicate InFlight(w: nat, conf: Poll.Conf, s: Side, p: Poll.Regs, acc: Access)
    requires w > 0 && LegalAccess(conf, acc)
  {
    Requested(w, conf, s, p, acc) && Answered(conf, s, acc)
  }

  predicate Requested(w: nat, conf: Poll.Conf, s: Side, p: Poll.Regs, acc: Access)
    requires w > 0
  {
    && (s.qemuReq != [] ==> s.qemuReq[0] == RequestFrame(acc, s.txid))
    && (p.mRd ==> ReadRequest(conf, acc, Burst(p.addr, p.size, p.len)))
    && (p.mWr ==> WriteRequest(w, conf, acc, RequestOf(p)))
    && (s.rmon.want.Some? ==> ReadRequest(conf, acc, s.rmon.want.value))
    && (s.wmon.want.Some? ==> WriteRequest(w, conf, acc, s.wmon.want.value))
  }

  predicate Answered(conf: Poll.Conf, s: Side, acc: Access)
    requires LegalAccess(conf, acc)
  {
    s.qemuResp != [] ==>
      && |s.qemuResp[0].data| == BUFF_SIZE
      && (acc.Rd? ==> s.qemuResp[0].data[..acc.size] == Load(s.mem, Address(conf, acc), acc.size))
  }

  lemma IssueKeepsInv(w: nat, conf: Poll.Conf, s: Side, p: Poll.Regs, flat: Memory, acc: Access)
    requires w > 0 && Inv(w, conf, s, p, flat) && s.cpu.Running? && LegalAccess(conf, acc)
    ensures Inv(w, conf, Issue(s, acc), p, Meaning(conf, flat, acc))
  {
  }

  lemma ReturnKeepsInv(w: nat, conf: Poll.Conf, s: Side, p: Poll.Regs, flat: Memory)
    requires w > 0 && Inv(w, conf, s, p, flat) && s.cpu.Blocked? && s.qemuResp != []
    ensures Inv(w, conf, Return(s), p, flat)
    ensures |s.qemuResp[0].data| == BUFF_SIZE
    ensures s.cpu.acc.Rd? ==>
              ReturnValue(s.cpu.acc.size, s.qemuResp[0])
              == FromLE(Load(flat, Address(conf, s.cpu.acc), s.cpu.acc.size))
  {
    var acc := s.cpu.acc;
    if acc.Rd? {
      assert Load(s.mem, Address(conf, acc), acc.size) == Load(flat, Address(conf, acc), acc.size);
    }
  }

  lemma RequestFits(w: nat, conf: Poll.Conf, acc: Access)
    requires BusWidth(w) && LegalAccess(conf, acc)
    ensures MR.Fits(w, BurstOf(conf, acc))
    ensures forall q :: WriteRequest(w, conf, acc, q) ==> MW.Fits(w, q)
  {
    AccessBurst(w, conf, acc);
  }

  // ----- One clock edge ---------------------------------------------------------------------

  /** The slave keeps to the protocol, and a frame taken from qemu_req is the first one there. */
  predicate ClockLegal(w: nat, s: Side, p: Poll.Regs, i: In, pick: Poll.Pick)
    requires w > 0
  {
    && SlaveCompliant(w, s, p, i)
    && (pick.FromQemu? ==> s.qemuReq != [] && pick.frame == s.qemuReq[0])
  }

  /** C_poll can take any request frame that is ever queued. */
  lemma RequestPolls(w: nat, conf: Poll.Conf, s: Side, p: Poll.Regs, flat: Memory)
    requires BusWidth(w) && Inv(w, conf, s, p, flat) && s.qemuReq != []
    ensures Poll.ValidPick(w, conf, Poll.FromQemu(s.qemuReq[0]))
  {
  }

  /** The engines index their buffers within bounds. */
  predicate InBounds(w: nat, s: Side) {
    && (s.mr.state == MR.Data ==> s.mr.cnt * w + w <= |s.mr.data|)
    && (s.mw.state == MW.Data ==> w * s.mw.cnt + w <= |s.mw.data|)
  }

  lemma AlwaysInBounds(w: nat, conf: Poll.Conf, s: Side, p: Poll.Regs, flat: Memory)
    requires BusWidth(w) && Inv(w, conf, s, p, flat)
    ensures InBounds(w, s)
  {
    if s.mr.state == MR.Data { BeatRoom(s.mr.cnt, s.mr.len, w, BUFF_SIZE); }
    if s.mw.state == MW.Data { BeatRoom(s.mw.cnt, s.mw.len, w, BUFF_SIZE); }
  }

  lemma EnginesStep(w: nat, conf: Poll.Conf, s: Side, p: Poll.Regs, flat: Memory, i: In)
    requires BusWidth(w) && Inv(w, conf, s, p, flat) && SlaveCompliant(w, s, p, i)
    ensures MR.Inv(w, MR.Next(w, s.mr, MrIn(p, i)), MR.Observe(w, s.rmon, s.mr, MrIn(p, i)))
    ensures MW.Inv(w, MW.Next(w, s.mw, MwIn(p, i)), MW.Observe(s.wmon, s.mw, MwIn(p, i)))
    ensures p.mRd ==> s.mr.state == MR.Idle && s.mw.state == MW.Idle
    ensures p.mWr ==> s.mr.state == MR.Idle && s.mw.state == MW.Idle
  {
    if s.cpu.Blocked? { RequestFits(w, conf, s.cpu.acc); }
    MR.StepKeepsInv(w, s.mr, s.rmon, MrIn(p, i));
    MW.StepKeepsInv(w, s.mw, s.wmon, MwIn(p, i));
  }

  /** The read engine's answer is the answer to the blocked access. */
  lemma ReadResponse(w: nat, conf: Poll.Conf, s: Side, p: Poll.Regs, flat: Memory, i: In)
    requires BusWidth(w) && Inv(w, conf, s, p, flat) && SlaveCompliant(w, s, p, i)
    requires MR.Responds(s.mr, MrIn(p, i))
    ensures s.cpu.Blocked? && s.cpu.acc.Rd? && !i.bvalid
    ensures var acc, mr' := s.cpu.acc, MR.Next(w, s.mr, MrIn(p, i));
            && |mr'.data| == BUFF_SIZE
            && Poll.RespRead(w, i.residue, mr'.addr, mr'.data).data[..acc.size] == Load(s.mem, Address(conf, acc), acc.size)
  {
    var acc, j := s.cpu.acc, MrIn(p, i);
    RequestFits(w, conf, acc);
    MR.StepKeepsInv(w, s.mr, s.rmon, j);
    var mr' := MR.Next(w, s.mr, j);
    assert s.rmon.beats == [];
    assert Slice(mr'.data, 0 * w, w) == ([] + [i.rdata])[0];
    ReadBeatLoads(w, conf, acc, i.rdata, mr'.data, i.residue, s.mem);
  }

  /** The value returned is the flat memory's at the offset plus the offset of the BAR. */
  ghost predicate ReturnsFlat(conf: Poll.Conf, acc: Access, response: Frame, flat: Memory) {
    && acc.bar < |conf.offsets| && |response.data| == BUFF_SIZE
    && ReturnValue(acc.size, response)
       == FromLE(Load(flat, (acc.offset + conf.offsets[acc.bar]) % WORD, acc.size))
  }

  lemma ReturnedValue(conf: Poll.Conf, acc: Access, response: Frame, flat: Memory)
    requires ReturnsFlat(conf, acc, response, flat)
    ensures ReturnValue(acc.size, response) == FromLE(Load(flat, Address(conf, acc), acc.size))
  {
  }

  /** None of the accesses writes to the bytes of wr, which are at its offset plus that of its BAR. */
  predicate SparedBetween(conf: Poll.Conf, between: seq<Access>, wr: Access) {
    && wr.bar < |conf.offsets| && InBars(conf, between)
    && AllSpare(conf, between, (wr.offset + conf.offsets[wr.bar]) % WORD, wr.size)
  }

  lemma ReturnedBack(conf: Poll.Conf, flat: Memory, before: seq<Access>, wr: Access, between: seq<Access>,
                     all: seq<Access>, response: Frame)
    requires wr.Wr? && SparedBetween(conf, between, wr) && InBars(conf, all)
    requires all == before + [wr] + between + [Rd(wr.bar, wr.offset, wr.size)]
    requires ReturnsFlat(conf, Rd(wr.bar, wr.offset, wr.size), response, AllOf(conf, flat, all))
    ensures ReturnValue(wr.size, response) == wr.value % Pow2(8 * wr.size)
  {
    ReadBack(conf, flat, before, wr, between, Rd(wr.bar, wr.offset, wr.size));
    ReturnedValue(conf, Rd(wr.bar, wr.offset, wr.size), response, AllOf(conf, flat, all));
  }

  /** Seen through its BAR, a read returns what the array of bytes behind the BAR holds at its offset. */
  lemma ReturnedThroughBar(conf: Poll.Conf, acc: Access, response: Frame, flat: Memory, accs: seq<Access>, sz: nat)
    requires InBars(conf, accs) && ReturnsFlat(conf, acc, response, AllOf(conf, flat, accs)) && acc.size > 0
    requires conf.offsets[acc.bar] + sz <= WORD && acc.offset + acc.size <= sz
    requires forall k :: 0 <= k < |accs| ==> KeepsWindows(conf, accs[k], acc.bar, sz)
    ensures ReturnValue(acc.size, response)
            == FromLE(Load(BarMemory(acc.bar, Behind(conf, flat, acc.bar), accs), acc.offset, acc.size))
  {
    AddressInWindow(conf, acc, sz);
    WindowLoads(conf, flat, accs, acc.bar, sz, acc.offset, acc.size);
  }

  lemma ReadReturns(w: nat, conf: Poll.Conf, s: Side, p: Poll.Regs, flat: Memory)
    requires w > 0 && Inv(w, conf, s, p, flat) && s.cpu.Blocked? && s.qemuResp != [] && s.cpu.acc.Rd?
    ensures ReturnsFlat(conf, s.cpu.acc, s.qemuResp[0], flat)
  {
    ReturnKeepsInv(w, conf, s, p, flat);
  }

  /** The bursts the slave has accepted are those of the blocked access. */
  lemma AcceptedBursts(w: nat, conf: Poll.Conf, s: Side, p: Poll.Regs, flat: Memory)
    requires BusWidth(w) && Inv(w, conf, s, p, flat)
    ensures s.rmon.ar.Some? ==> s.cpu.Blocked? && s.cpu.acc.Rd? && IsBurstOf(conf, s.cpu.acc, s.rmon.ar.value)
    ensures s.wmon.aw.Some? ==> s.cpu.Blocked? && s.cpu.acc.Wr? && IsBurstOf(conf, s.cpu.acc, s.wmon.aw.value)
  {
    if s.cpu.Blocked? { AccessBurst(w, conf, s.cpu.acc); }
  }

  predicate IsBurstOf(conf: Poll.Conf, acc: Access, b: Burst) {
    && acc.bar < |conf.offsets| && b.len == 0 && Pow2(b.size) == acc.size
    && b.addr == (acc.offset + conf.offsets[acc.bar]) % WORD
  }

  /** When the slave answers a write, its memory takes exactly the blocked access. */
  lemma WriteResponse(w: nat, conf: Poll.Conf, s: Side, p: Poll.Regs, flat: Memory, i: In)
    requires BusWidth(w) && Inv(w, conf, s, p, flat) && SlaveCompliant(w, s, p, i)
    requires i.bvalid
    ensures s.cpu.Blocked? && s.cpu.acc.Wr? && s.wmon.aw.Some? && s.mw.state != MW.Idle
    ensures Same(WriteBeats(w, s.mem, s.wmon.aw.value, StrobedBeats(s.wmon.beats)), Meaning(conf, s.mem, s.cpu.acc))
  {
    MW.StepKeepsInv(w, s.mw, s.wmon, MwIn(p, i));
    var acc, q := s.cpu.acc, s.wmon.want.value;
    assert s.wmon.beats == [MW.Wanted(w, q, 0)];
    WriteBeatStores(w, conf, acc, q, s.mem);
  }

  /** The token moves one place, or stays: it is never lost and never duplicated. */
  lemma TokensStep(w: nat, conf: Poll.Conf, s: Side, p: Poll.Regs, flat: Memory, i: In, pick: Poll.Pick)
    requires BusWidth(w) && Inv(w, conf, s, p, flat) && ClockLegal(w, s, p, i, pick)
    requires Poll.ValidPick(w, conf, pick)
    ensures Tokens(Clock(w, s, p, i, pick.FromQemu?), Poll.Next(w, conf, p, pick)) == Tokens(s, p)
  {
    EnginesStep(w, conf, s, p, flat, i);
    if i.bvalid { MW.StepKeepsInv(w, s.mw, s.wmon, MwIn(p, i)); }
    TokenSum(w, conf, s, p, i, pick);
  }

  lemma TokenSum(w: nat, conf: Poll.Conf, s: Side, p: Poll.Regs, i: In, pick: Poll.Pick)
    requires w > 0 && Poll.ValidPick(w, conf, pick) && (pick.FromQemu? ==> s.qemuReq != [])
    requires p.mRd ==> s.mr.state == MR.Idle
    requires (p.mWr ==> s.mw.state == MW.Idle) && (i.bvalid ==> s.mw.state == MW.Response)
    ensures Tokens(Clock(w, s, p, i, pick.FromQemu?), Poll.Next(w, conf, p, pick)) == Tokens(s, p)
  {
    ReadTokenMoves(w, s.mr, MrIn(p, i));
    WriteTokenMoves(w, s.mw, MwIn(p, i));
    ResponseCount(w, s, p, i);
    PulseCount(w, conf, p, pick);
  }

  lemma ResponseCount(w: nat, s: Side, p: Poll.Regs, i: In)
    requires w > 0
    ensures |Responses(w, s, p, i)| == Count(MR.Responds(s.mr, MrIn(p, i))) + Count(MW.Responds(s.mw, MwIn(p, i)))
  {
  }

  lemma PulseCount(w: nat, conf: Poll.Conf, p: Poll.Regs, pick: Poll.Pick)
    requires w > 0 && Poll.ValidPick(w, conf, pick)
    ensures var p' := Poll.Next(w, conf, p, pick); Count(p'.mRd) + Count(p'.mWr) == Count(pick.FromQemu?)
  {
  }

  lemma ReadTokenMoves(w: nat, r: MR.Regs, i: MR.In)
    requires i.reqValid ==> r.state == MR.Idle
    ensures Count(MR.Next(w, r, i).state == MR.Data) + Count(MR.Responds(r, i))
            == Count(r.state == MR.Data) + Count(i.reqValid)
  {
  }

  lemma WriteTokenMoves(w: nat, r: MW.Regs, i: MW.In)
    requires (i.reqValid ==> r.state == MW.Idle) && (MW.Responds(r, i) ==> r.state == MW.Response)
    ensures Count(MW.Next(w, r, i).state != MW.Idle) + Count(MW.Responds(r, i))
            == Count(r.state != MW.Idle) + Count(i.reqValid)
  {
  }

  lemma RequestedStep(w: nat, conf: Poll.Conf, s: Side, p: Poll.Regs, flat: Memory, i: In, pick: Poll.Pick)
    requires BusWidth(w) && Inv(w, conf, s, p, flat) && ClockLegal(w, s, p, i, pick)
    requires Poll.ValidPick(w, conf, pick)
    requires s.cpu.Blocked?
    ensures |Poll.Next(w, conf, p, pick).data| == BUFF_SIZE
    ensures Requested(w, conf, Clock(w, s, p, i, pick.FromQemu?), Poll.Next(w, conf, p, pick), s.cpu.acc)
  {
    if pick.FromQemu? { DispatchAccess(w, conf, s.cpu.acc, s.txid, p); }
  }

  lemma AnsweredStep(w: nat, conf: Poll.Conf, s: Side, p: Poll.Regs, flat: Memory, i: In, popped: bool)
    requires BusWidth(w) && Inv(w, conf, s, p, flat) && SlaveCompliant(w, s, p, i)
    requires s.cpu.Blocked? && (popped ==> s.qemuReq != [])
    ensures Answered(conf, Clock(w, s, p, i, popped), s.cpu.acc)
  {
    if MR.Responds(s.mr, MrIn(p, i)) {
      ReadResponse(w, conf, s, p, flat, i);
    } else if i.bvalid {
      WriteResponse(w, conf, s, p, flat, i);
    }
  }

  /** Every clock edge, with any compliant slave and any polling choice, keeps the invariant. */
  lemma ClockKeepsInv(w: nat, conf: Poll.Conf, s: Side, p: Poll.Regs, flat: Memory, i: In, pick: Poll.Pick)
    requires BusWidth(w) && Inv(w, conf, s, p, flat) && ClockLegal(w, s, p, i, pick)
    requires Poll.ValidPick(w, conf, pick)
    ensures Inv(w, conf, Clock(w, s, p, i, pick.FromQemu?), Poll.Next(w, conf, p, pick), flat)
  {
    EnginesStep(w, conf, s, p, flat, i);
    if i.bvalid { WriteResponse(w, conf, s, p, flat, i); }
    TokensStep(w, conf, s, p, flat, i, pick);
    var s' := Clock(w, s, p, i, pick.FromQemu?);
    if s.cpu.Blocked? {
      RequestedStep(w, conf, s, p, flat, i, pick);
      AnsweredStep(w, conf, s, p, flat, i, pick.FromQemu?);
      SettledStep(w, conf, s, p, flat, i, pick);
    }
  }

  lemma SettledStep(w: nat, conf: Poll.Conf, s: Side, p: Poll.Regs, flat: Memory, i: In, pick: Poll.Pick)
    requires BusWidth(w) && Inv(w, conf, s, p, flat) && ClockLegal(w, s, p, i, pick)
    requires Poll.ValidPick(w, conf, pick)
    requires s.cpu.Blocked?
    ensures Same(flat, Settled(conf, Clock(w, s, p, i, pick.FromQemu?)))
  {
    if i.bvalid {
      WriteResponse(w, conf, s, p, flat, i);
    } else if MR.Responds(s.mr, MrIn(p, i)) {
      ReadResponse(w, conf, s, p, flat, i);
    }
  }
}
