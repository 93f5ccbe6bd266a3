/** C_poll and log2c in dpi-pcie.c, and the per-clock dispatch in axi4_ip_mod.sv. */
module Poll {
  import opened Bytes
  import opened Axi
  import opened Frames

  // ----- Size encoding ----------------------------------------------------------------------

  function BitAnd(x: nat, y: nat): nat {
    if x == 0 || y == 0 then 0
    else 2 * BitAnd(x / 2, y / 2) + (if x % 2 == 1 && y % 2 == 1 then 1 else 0)
  }

  /** The position of the highest set bit. */
  function Floor(x: nat): nat {
    if x <= 1 then 0 else 1 + Floor(x / 2)
  }

  lemma {:induction false} FloorBounds(x: nat)
    requires x >= 1
    ensures Pow2(Floor(x)) <= x < 2 * Pow2(Floor(x))
  {
    if x > 1 { FloorBounds(x / 2); }
  }

  lemma {:induction false} AndSelf(x: nat)
    ensures BitAnd(x, x) == x
  {
    if x > 0 { AndSelf(x / 2); }
  }

  lemma AndEven(h: nat)
    requires h >= 1
    ensures BitAnd(2 * h, 2 * h - 1) == 2 * BitAnd(h, h - 1)
  {
    assert 2 * h / 2 == h && (2 * h - 1) / 2 == h - 1;
  }

  lemma AndOdd(h: nat)
    requires h >= 1
    ensures BitAnd(2 * h + 1, 2 * h) == 2 * h
  {
    AndSelf(h);
    assert (2 * h + 1) / 2 == h && 2 * h / 2 == h;
  }

  lemma FloorHalf(h: nat, x: nat)
    requires h >= 1 && x / 2 == h
    ensures Pow2(Floor(x)) == 2 * Pow2(Floor(h))
  {
  }

  /** x & (x - 1) is zero exactly for powers of two. */
  lemma {:induction false} PowerTest(x: nat)
    requires x >= 1
    ensures BitAnd(x, x - 1) == 0 <==> x == Pow2(Floor(x))
  {
    if x > 1 {
      var h := x / 2;
      FloorHalf(h, x);
      if x == 2 * h {
        AndEven(h);
        PowerTest(h);
      } else {
        AndOdd(h);
      }
    }
  }

  /** ceil(log2 x), and 0 for x = 0. */
  function Log2(x: nat): nat {
    if x == 0 || x == Pow2(Floor(x)) then Floor(x) else Floor(x) + 1
  }

  /** Log2(x) is the least n with x <= 2^n. */
  lemma Log2Least(x: nat, n: nat)
    requires x >= 1
    ensures x <= Pow2(n) <==> Log2(x) <= n
  {
    FloorBounds(x);
    var f := Floor(x);
    if n < f {
      Pow2Mono(n, f);
    } else if n > f {
      Pow2Mono(f + 1, n);
    }
  }

  method Log2c(x: nat) returns (log: nat)
    ensures log == Log2(x)
  {
    // x - 1 wraps for x = 0, where the conjunction is 0 all the same
    log := if x > 0 && BitAnd(x, x - 1) != 0 then 1 else 0;
    if x > 0 { PowerTest(x); }
    ghost var log0 := log;
    var y: nat := x / 2;
    while y != 0
      invariant y == 0 ==> log == log0 + Floor(x)
      invariant y != 0 ==> log + 1 + Floor(y) == log0 + Floor(x)
      decreases y
    {
      log := log + 1;
      y := y / 2;
    }
  }

  /** Beats minus one for `size` bytes on a w-byte bus. */
  function AxiLen(w: nat, size: nat): nat
    requires w > 0
  {
    if size <= w then 0 else if size % w != 0 then size / w else size / w - 1
  }

  lemma AxiLenLeast(w: nat, size: nat, len: nat)
    requires w > 0
    ensures size <= (len + 1) * w <==> AxiLen(w, size) <= len
  {
    var q, r := size / w, size % w;
    assert size == q * w + r;
    if size <= w {
      MulMono(1, len + 1, w);
    } else if len + 1 <= q {
      MulMono(len + 1, q, w);
      if len + 1 < q { MulMono(len + 2, q, w); }
      assert (len + 2) * w == (len + 1) * w + w;
    } else {
      MulMono(q + 1, len + 1, w);
      assert (q + 1) * w == q * w + w;
    }
  }

  /** The formula (len + 1) * (1 << width) of the request functions recovers the size that was
      encoded, exactly for powers of two up to the bus width. */
  lemma EncodingInverts(w: nat, size: nat)
    requires w > 0 && size >= 1
    ensures (AxiLen(w, size) + 1) * Pow2(Log2(size)) == size <==> size <= w && size == Pow2(Floor(size))
  {
    FloorBounds(size);
    AxiLenLeast(w, size, 0);
    var n := AxiLen(w, size) + 1;
    if n == 1 {
      assert n * Pow2(Log2(size)) == Pow2(Log2(size));
    } else {
      MulMono(2, n, Pow2(Log2(size)));
      Log2Least(size, Log2(size));
    }
  }

  // ----- Polling ----------------------------------------------------------------------------

  /** The part of ACCConf that C_poll uses: where each BAR sits in the AXI address space. */
  datatype Conf = Conf(offsets: seq<nat>)

  predicate ValidConf(conf: Conf) {
    |conf.offsets| == 6
  }

  /** What the dispatcher drives towards the engines, including the three registered pulses. */
  datatype Regs = Regs(
    addr: nat, len: nat, size: nat, strb: nat, data: seq<byte>, mRd: bool, mWr: bool, sRd: bool)

  const RESET := Regs(0, 0, 0, 0, Zeros(BUFF_SIZE), false, false, false)

  /** Which socket zpoller_wait reports, with the frame received from it. */
  datatype Pick = Nothing | FromInit | FromQemu(frame: Frame) | FromHdl(frame: Frame)

  /** C_poll on this frame indexes and copies within its arrays and shifts within an int. */
  predicate ValidPick(w: nat, conf: Conf, pick: Pick)
    requires w > 0
  {
    match pick
    case Nothing => true
    case FromInit => true
    case FromQemu(f) =>
      |f.data| == BUFF_SIZE && f.bar < |conf.offsets| && w <= BUFF_SIZE && (f.op != Read ==> f.dataSize <= 30)
    case FromHdl(f) => |f.data| == BUFF_SIZE && f.address % w + f.dataSize <= BUFF_SIZE
  }

  function Next(w: nat, conf: Conf, p: Regs, pick: Pick): Regs
    requires w > 0 && ValidPick(w, conf, pick)
  {
    match pick
    case Nothing => p.(mRd := false, mWr := false, sRd := false)
    case FromInit => p.(mRd := false, mWr := false, sRd := false)
    case FromQemu(f) =>
      var addr := (f.address + conf.offsets[f.bar]) % WORD;
      var at := addr % w;
      if f.op == Read
      then p.(addr := addr, len := AxiLen(w, f.dataSize), size := Log2(f.dataSize),
              mRd := true, mWr := false, sRd := false)
      else p.(addr := addr, len := AxiLen(w, f.dataSize), size := Log2(f.dataSize),
              strb := Mask(at, f.dataSize) % WORD,
              data := Splice(p.data, at, f.data[..BUFF_SIZE - at]),
              mRd := false, mWr := true, sRd := false)
    case FromHdl(f) =>
      p.(data := Splice(p.data, f.address % w, f.data[..f.dataSize]), mRd := false, mWr := false, sRd := true)
  }

  /** What a request frame of any size is presented as: at its BAR's place on the bus, with the least
      length whose beats hold it and the least size code whose beats are as large as it. */
  lemma RequestPresented(w: nat, conf: Conf, p: Regs, f: Frame, len: nat, n: nat)
    requires w > 0 && ValidPick(w, conf, FromQemu(f))
    ensures var p' := Next(w, conf, p, FromQemu(f));
            && p'.addr == (f.address + conf.offsets[f.bar]) % WORD
            && p'.mRd == (f.op == Read) && p'.mWr == (f.op != Read) && !p'.sRd
            && (f.dataSize <= (len + 1) * w <==> p'.len <= len)
            && (f.dataSize >= 1 ==> (f.dataSize <= Pow2(n) <==> p'.size <= n))
            && (f.op == Read ==> p'.strb == p.strb && p'.data == p.data)
  {
    AxiLenLeast(w, f.dataSize, len);
    if f.dataSize >= 1 { Log2Least(f.dataSize, n); }
  }

  /** And a write's strobes and bytes, lane by lane. */
  lemma WritePresented(w: nat, conf: Conf, p: Regs, f: Frame, j: nat)
    requires w > 0 && ValidPick(w, conf, FromQemu(f)) && f.op != Read && |p.data| == BUFF_SIZE
    ensures var p' := Next(w, conf, p, FromQemu(f));
            var at := p'.addr % w;
            && |p'.data| == BUFF_SIZE
            && (j < 64 ==> (Bit(p'.strb, j) <==> at <= j < at + f.dataSize))
            && (j < BUFF_SIZE ==> p'.data[j] == if j < at then p.data[j] else f.data[j - at])
  {
    var at := (f.address + conf.offsets[f.bar]) % WORD % w;
    WordIsPow2();
    BitTruncate(Mask(at, f.dataSize), 64, j);
    BitMask(at, f.dataSize, j);
  }

  /** A reply from QEMU raises its own pulse and puts its bytes from its address's lane on. */
  lemma ReplyPresented(w: nat, conf: Conf, p: Regs, f: Frame, j: nat)
    requires w > 0 && ValidPick(w, conf, FromHdl(f)) && j < |p.data| == BUFF_SIZE
    ensures var p', at := Next(w, conf, p, FromHdl(f)), f.address % w;
            && p'.sRd && !p'.mRd && !p'.mWr && |p'.data| == BUFF_SIZE
            && p'.data[j] == if at <= j < at + f.dataSize then f.data[j - at] else p.data[j]
  {
  }

  class Dispatcher {
    const w: nat
    const conf: Conf
    var addr: nat
    var len: nat
    var size: nat
    var strb: nat
    const data: array<byte>
    var mRd: bool
    var mWr: bool
    var sRd: bool

    function View(): Regs
      reads this, data
    {
      Regs(addr, len, size, strb, data[..], mRd, mWr, sRd)
    }

    constructor (w: nat, conf: Conf)
      ensures this.w == w && this.conf == conf && View() == RESET && fresh(data)
    {
      this.w, this.conf := w, conf;
      addr, len, size, strb := 0, 0, 0, 0;
      data := new byte[BUFF_SIZE](_ => 0);
      mRd, mWr, sRd := false, false, false;
    }

    /** One clock edge: call C_poll and register the pulse it asks for; a request for the
        configuration is answered with it. */
    method Clock(pick: Pick) returns (answer: Option<Conf>)
      requires w > 0 && ValidPick(w, conf, pick)
      modifies this, data
      ensures View() == Next(w, conf, old(View()), pick)
      ensures answer == if pick.FromInit? then Some(conf) else None
    {
      answer := None;
      match pick
      case Nothing =>
        mRd, mWr, sRd := false, false, false;
      case FromInit =>
        answer := Some(conf);
        mRd, mWr, sRd := false, false, false;
      case FromQemu(f) =>
        TakeRequest(f);
      case FromHdl(f) =>
        WriteLanes(data, f.address % w, f.data[..f.dataSize]);
        mRd, mWr, sRd := false, false, true;
    }

    method TakeRequest(f: Frame)
      requires w > 0 && ValidPick(w, conf, FromQemu(f))
      modifies this, data
      ensures View() == Next(w, conf, old(View()), FromQemu(f))
    {
      addr := (f.address + conf.offsets[f.bar]) % WORD;
      len := 0;
      if f.dataSize > w {
        len := if f.dataSize % w != 0 then f.dataSize / w else f.dataSize / w - 1;
      }
      size := Log2c(f.dataSize);
      if f.op == Read {
        mRd, mWr, sRd := true, false, false;
      } else {
        ghost var was := data[..];
        PlaceWrite(addr % w, f);
        assert data[..] == Splice(was, addr % w, f.data[..BUFF_SIZE - addr % w]);
        mRd, mWr, sRd := false, true, false;
      }
    }

    /** Strobes and bytes of a write, moved up to the address's lane: exactly the lanes of the access
        are strobed, they carry its bytes, and the lanes below keep what they held. */
    method PlaceWrite(at: nat, f: Frame)
      requires |f.data| == BUFF_SIZE && at <= BUFF_SIZE
      modifies this`strb, data
      ensures strb == Mask(at, f.dataSize) % WORD
      ensures forall j :: 0 <= j < 64 ==> (Bit(strb, j) <==> at <= j < at + f.dataSize)
      ensures forall k :: 0 <= k < data.Length ==> data[k] == if at <= k < BUFF_SIZE then f.data[k - at] else old(data[k])
    {
      ShiftedMask(at, f.dataSize);
      strb := ShiftLeft(1, f.dataSize) - 1;
      strb := ShiftLeft(strb, at) % WORD;
      forall j | 0 <= j < 64 ensures Bit(strb, j) <==> at <= j < at + f.dataSize {
        WordIsPow2();
        BitTruncate(Mask(at, f.dataSize), 64, j);
        BitMask(at, f.dataSize, j);
      }
      WriteLanes(data, at, f.data[..BUFF_SIZE - at]);
    }
  }

  // ----- The request and response functions -------------------------------------------------

  /** C_req_read: the frame asks for (len+1) << width bytes; the rest is stack residue. */
  function ReqRead(residue: Frame, b: Burst, id: nat): Frame {
    residue.(dataSize := TotalBytes(b), address := b.addr, op := Read, id := id)
  }

  /** C_req_interrupt. */
  function ReqInterrupt(residue: Frame, vector: nat): Frame {
    residue.(op := Intr, vector := vector)
  }

  /** C_resp_read: the engine's buffer from the address's lane on. */
  function RespRead(w: nat, residue: Frame, addr: nat, data: seq<byte>): (f: Frame)
    requires w > 0
    ensures |residue.data| == |data| ==>
              |f.data| == |data| && forall k :: addr % w <= k < |data| ==> f.data[k - addr % w] == data[k]
  {
    var at := addr % w;
    residue.(data := Splice(residue.data, 0, if at <= |data| then data[at..] else []))
  }
}
