/** The DMA read path: C_req_read asks for (len+1) << width bytes, QEMU fills them, C_poll places
    them at the start address's offset in a bus word, and axi4_s_r slices the buffer into beats. */
module ReadLanes {
  import opened Bytes
  import opened Axi
  import opened Frames
  import Poll
  import Host
  import SR = SlaveRead

  /** The frame that reaches C_poll in answer to burst b. */
  function Answer(host: Memory, residue: Frame, b: Burst, id: nat): Frame {
    Host.Reply(host, Poll.ReqRead(residue, b, id))
  }

  /** The beats of burst b on the R channel: requested, filled by QEMU, copied to the dispatcher's
      buffer and sliced by the engine. */
  function OnBus(w: nat, conf: Poll.Conf, p: Poll.Regs, host: Memory, residue: Frame, b: Burst, id: nat): seq<SR.RBeat>
    requires w > 0 && |residue.data| == BUFF_SIZE && b.addr % w + TotalBytes(b) <= BUFF_SIZE
  {
    SR.Beats(w, id, b.len, Poll.Next(w, conf, p, Poll.FromHdl(Answer(host, residue, b, id))).data, 0)
  }

  /** Each active lane of each beat carries the host byte at its own address. */
  predicate LanesRight(w: nat, beats: seq<SR.RBeat>, host: Memory, b: Burst)
    requires w > 0
  {
    |beats| == b.len + 1 && forall i, j :: 0 <= i <= b.len && 0 <= j < w ==> LaneRight(w, beats[i].data, host, b, i, j)
  }

  predicate LaneRight(w: nat, data: seq<byte>, host: Memory, b: Burst, i: nat, j: nat)
    requires w > 0 && j < w
  {
    |data| == w && (Active(w, b, i, j) ==> data[j] == host(BeatWord(w, b, i) + j))
  }

  /** A buffer after the answer to burst b was copied over what it held before. */
  function Fill(w: nat, stale: seq<byte>, host: Memory, b: Burst): seq<byte>
    requires w > 0
  {
    Splice(stale, b.addr % w, Load(host, b.addr, TotalBytes(b)))
  }

  lemma BeatFromFill(w: nat, conf: Poll.Conf, p: Poll.Regs, host: Memory, residue: Frame, b: Burst, id: nat, i: nat)
    requires w > 0 && |residue.data| == BUFF_SIZE && b.addr % w + TotalBytes(b) <= BUFF_SIZE && i <= b.len
    ensures |OnBus(w, conf, p, host, residue, b, id)| == b.len + 1
    ensures OnBus(w, conf, p, host, residue, b, id)[i].data == Slice(Fill(w, p.data, host, b), i * w, w)
  {
    var f := Answer(host, residue, b, id);
    assert f.data[..f.dataSize] == Load(host, b.addr, TotalBytes(b));
    SR.BeatAt(w, id, b.len, Poll.Next(w, conf, p, Poll.FromHdl(f)).data, 0, i);
    assert w * (0 + i) == i * w;
  }

  /** Full-width beats, a single beat, or two narrow beats that straddle a bus word. */
  predicate ReadShape(w: nat, b: Burst)
    requires w > 0
  {
    || Pow2(b.size) == w
    || b.len == 0
    || (b.len == 1 && AlignDown(b.addr, Pow2(b.size)) % w + Pow2(b.size) == w)
  }

  // ----- Where each beat lives --------------------------------------------------------------

  lemma WordOf(a: nat, w: nat, k: nat, r: nat)
    requires w > 0 && r < w && a % w == 0
    ensures AlignDown(a + k * w + r, w) == a + k * w
    ensures (a + k * w + r) % w == r
  {
    AddMultiple(a + r, w, k);
    DivModUnique(a + r, w, a / w, r);
  }

  lemma AlignedIsMultiple(a: nat, n: nat)
    requires n > 0
    ensures AlignDown(a, n) % n == 0
  {
    DivModUnique(AlignDown(a, n), n, a / n, 0);
  }

  lemma FullWidthBeat(w: nat, b: Burst, i: nat)
    requires w > 0 && Pow2(b.size) == w && 0 < i <= b.len
    ensures BeatAddr(b, i) == BeatWord(w, b, i) == AlignDown(b.addr, w) + i * w
    ensures b.addr % w <= i * w && i * w + w <= TotalBytes(b)
  {
    AlignedIsMultiple(b.addr, w);
    WordOf(AlignDown(b.addr, w), w, i, 0);
    MulMono(i + 1, b.len + 1, w);
    MulMono(1, i, w);
  }

  lemma StraddlingBeat(w: nat, b: Burst)
    requires BusWidth(w) && LegalSize(w, b)
    requires AlignDown(b.addr, Pow2(b.size)) % w + Pow2(b.size) == w
    ensures BeatAddr(b, 1) == BeatWord(w, b, 1) == AlignDown(b.addr, w) + w
    ensures LaneHigh(w, b, 1) == Pow2(b.size)
    ensures b.addr % w >= w - Pow2(b.size)
  {
    var n := Pow2(b.size);
    var q := SizeDivides(w, b.size);
    WordSplit(b.addr, n, q);
    AlignedIsMultiple(b.addr, w);
    WordOf(AlignDown(b.addr, w), w, 1, 0);
    assert BeatAddr(b, 1) == AlignDown(b.addr, w) + 1 * w;
    WordSplit(BeatAddr(b, 1), n, q);
  }

  /** In a well-shaped read, beat i travels in the i-th bus word after the first,
      and its active lanes lie in the window the response fills. */
  lemma ActiveInWindow(w: nat, b: Burst, i: nat, j: nat)
    requires BusWidth(w) && LegalSize(w, b) && ReadShape(w, b)
    requires i <= b.len && j < w && Active(w, b, i, j)
    ensures BeatWord(w, b, i) == AlignDown(b.addr, w) + i * w
    ensures b.addr % w <= i * w + j < b.addr % w + TotalBytes(b)
  {
    if i == 0 {
      FirstBeatWindow(w, b, j);
    } else if Pow2(b.size) == w {
      FullWidthBeat(w, b, i);
    } else {
      StraddlingBeat(w, b);
      assert TotalBytes(b) == 2 * Pow2(b.size);
    }
  }

  lemma FirstBeatWindow(w: nat, b: Burst, j: nat)
    requires BusWidth(w) && LegalSize(w, b) && Active(w, b, 0, j)
    ensures b.addr % w <= j < b.addr % w + TotalBytes(b)
  {
    LaneBounds(w, b, 0);
    MulMono(1, b.len + 1, Pow2(b.size));
  }

  lemma ShapeSuffices(w: nat, stale: seq<byte>, host: Memory, b: Burst, i: nat, j: nat)
    requires BusWidth(w) && LegalSize(w, b) && ReadShape(w, b) && |stale| == BUFF_SIZE
    requires b.addr % w + TotalBytes(b) <= BUFF_SIZE
    requires i <= b.len && j < w
    ensures LaneRight(w, Slice(Fill(w, stale, host, b), i * w, w), host, b, i, j)
  {
    if Active(w, b, i, j) {
      ActiveInWindow(w, b, i, j);
      PickLane(w, stale, host, b, i * w, j);
    }
  }

  lemma PickLane(w: nat, stale: seq<byte>, host: Memory, b: Burst, at: nat, j: nat)
    requires w > 0 && j < w && |stale| == BUFF_SIZE && at + j < BUFF_SIZE
    ensures Slice(Fill(w, stale, host, b), at, w)[j] ==
            if b.addr % w <= at + j < b.addr % w + TotalBytes(b)
            then host(AlignDown(b.addr, w) + at + j) else stale[at + j]
  {
  }

  // ----- Any other shape shows a wrong byte -------------------------------------------------

  /** A memory holding 1 at address a only. */
  function Spot(a: int): Memory {
    k => if k == a then 1 else 0
  }

  /** A beat whose bus word is not the i-th one is served from the wrong place. */
  lemma MisplacedBeat(w: nat, b: Burst, i: nat, j: nat)
    requires BusWidth(w) && LegalSize(w, b) && i <= b.len && j < w && Active(w, b, i, j)
    requires b.addr % w + TotalBytes(b) <= BUFF_SIZE
    requires BeatWord(w, b, i) != AlignDown(b.addr, w) + i * w
    ensures var host := Spot(BeatWord(w, b, i) + j);
            !LaneRight(w, Slice(Fill(w, Zeros(BUFF_SIZE), host, b), i * w, w), host, b, i, j)
  {
    var host := Spot(BeatWord(w, b, i) + j);
    if i * w + j < BUFF_SIZE {
      PickLane(w, Zeros(BUFF_SIZE), host, b, i * w, j);
    }
  }

  /** A badly shaped read has such a beat: its second or its third. */
  lemma BadShape(w: nat, b: Burst) returns (i: nat, j: nat)
    requires BusWidth(w) && LegalSize(w, b) && !ReadShape(w, b)
    ensures i <= b.len && j < w && Active(w, b, i, j)
    ensures BeatWord(w, b, i) != AlignDown(b.addr, w) + i * w
  {
    var n := Pow2(b.size);
    var q := SizeDivides(w, b.size);
    WordSplit(b.addr, n, q);
    var first, off := AlignDown(b.addr, w), AlignDown(b.addr, n) % w;
    AlignedIsMultiple(b.addr, w);
    i := if off + n < w then 1 else 2;
    j := LaneLow(w, b, i);
    LaneBounds(w, b, i);
    if i == 1 {
      WordOf(first, w, 0, off + n);
      assert BeatAddr(b, 1) == first + 0 * w + (off + n);
    } else {
      HalfWord(n, q);
      WordOf(first, w, 1, n);
      assert BeatAddr(b, 2) == first + 1 * w + n;
    }
  }

  lemma HalfWord(n: nat, q: nat)
    requires n > 0 && q > 0 && n != n * q
    ensures n < n * q
  {
    MulMono(2, q, n);
  }

  lemma ShapeGivesLanes(w: nat, conf: Poll.Conf, p: Poll.Regs, host: Memory, residue: Frame, b: Burst, id: nat)
    requires BusWidth(w) && LegalSize(w, b) && ReadShape(w, b) && b.addr % w + TotalBytes(b) <= BUFF_SIZE
    requires |p.data| == BUFF_SIZE && |residue.data| == BUFF_SIZE
    ensures LanesRight(w, OnBus(w, conf, p, host, residue, b, id), host, b)
  {
    var beats := OnBus(w, conf, p, host, residue, b, id);
    BeatFromFill(w, conf, p, host, residue, b, id, 0);
    forall i, j | 0 <= i <= b.len && 0 <= j < w ensures LaneRight(w, beats[i].data, host, b, i, j) {
      BeatFromFill(w, conf, p, host, residue, b, id, i);
      ShapeSuffices(w, p.data, host, b, i, j);
    }
  }

  lemma BadShapeShows(w: nat, conf: Poll.Conf, b: Burst, id: nat) returns (p: Poll.Regs, host: Memory, residue: Frame)
    requires BusWidth(w) && LegalSize(w, b) && !ReadShape(w, b) && b.addr % w + TotalBytes(b) <= BUFF_SIZE
    ensures |p.data| == BUFF_SIZE && |residue.data| == BUFF_SIZE
    ensures !LanesRight(w, OnBus(w, conf, p, host, residue, b, id), host, b)
  {
    var i, j := BadShape(w, b);
    p, host, residue := Poll.RESET, Spot(BeatWord(w, b, i) + j), Frame(0, 0, 0, Noop, 0, Zeros(BUFF_SIZE), 0);
    MisplacedBeat(w, b, i, j);
    BeatFromFill(w, conf, p, host, residue, b, id, i);
  }

  /** On the R channel every active lane of every beat carries the host byte at its own address, for
      every host memory and whatever the buffers held before, exactly for the three read shapes. */
  lemma ReadLanesExact(w: nat, conf: Poll.Conf, b: Burst, id: nat)
    requires BusWidth(w) && LegalSize(w, b) && b.addr % w + TotalBytes(b) <= BUFF_SIZE
    ensures (forall p: Poll.Regs, host: Memory, residue: Frame | |p.data| == BUFF_SIZE && |residue.data| == BUFF_SIZE ::
               LanesRight(w, OnBus(w, conf, p, host, residue, b, id), host, b))
            <==> ReadShape(w, b)
  {
    if ReadShape(w, b) {
      forall p: Poll.Regs, host: Memory, residue: Frame | |p.data| == BUFF_SIZE && |residue.data| == BUFF_SIZE
        ensures LanesRight(w, OnBus(w, conf, p, host, residue, b, id), host, b)
      {
        ShapeGivesLanes(w, conf, p, host, residue, b, id);
      }
    } else {
      var p, host, residue := BadShapeShows(w, conf, b, id);
    }
  }

  // ----- When the copy of the answer stays in its buffer ------------------------------------

  /** Among multiples of n, adding less than n matters only at the bound itself. */
  lemma SumInUnits(n: nat, x: nat, y: nat, s: nat, bound: nat, r: nat)
    requires s == n * x && bound == n * y && s <= bound && r < n
    ensures s + r <= bound <==> r == 0 || s < bound
  {
    if x < y {
      MulMono(x + 1, y, n);
      assert (x + 1) * n == n * x + n;
    } else {
      MulMono(y, x, n);
    }
  }

  lemma OffsetInPage(c: nat, w: nat)
    requires BusWidth(w)
    ensures c % w <= c % 4096
  {
    ModSplit(c, w, 4096 / w);
    assert w * (4096 / w) == 4096;
  }

  lemma InUnits(w: nat, n: nat, q: nat, c: nat, len: nat)
    requires BusWidth(w) && n > 0 && q > 0 && w == n * q && c % n == 0
    ensures c % w + (len + 1) * n == n * (c / n % q + (len + 1))
    ensures BUFF_SIZE == n * (q * (4096 / w))
  {
    ModSplit(c, n, q);
    Distribute(n, c / n % q, len + 1);
    Associate(n, q, 4096 / w);
    assert w * (4096 / w) == 4096;
  }

  lemma Distribute(n: nat, x: nat, y: nat)
    ensures n * (x + y) == n * x + y * n
  {
  }

  /** For a read within one 4 KB page, C_poll's copy of the answer stays within its buffer if and only
      if the start is aligned to the beat size or the beats end short of a whole buffer. */
  lemma AnswerCopyExact(w: nat, conf: Poll.Conf, host: Memory, residue: Frame, b: Burst, id: nat)
    requires BusWidth(w) && LegalSize(w, b) && WithinPage(b) && |residue.data| == BUFF_SIZE
    ensures Poll.ValidPick(w, conf, Poll.FromHdl(Answer(host, residue, b, id)))
            <==> b.addr % Pow2(b.size) == 0 || AlignDown(b.addr, Pow2(b.size)) % w + TotalBytes(b) < BUFF_SIZE
  {
    var n, c := Pow2(b.size), AlignDown(b.addr, Pow2(b.size));
    var q := SizeDivides(w, b.size);
    WordSplit(b.addr, n, q);
    AlignedIsMultiple(b.addr, n);
    OffsetInPage(c, w);
    InUnits(w, n, q, c, b.len);
    SumInUnits(n, c / n % q + (b.len + 1), q * (4096 / w), c % w + TotalBytes(b), BUFF_SIZE, b.addr % n);
  }

  /** A whole page read from an odd address is legal on a 64-byte bus, has a good shape, and all its
      active lanes lie in the page and have a place in a buffer of 4096 bytes; yet the copy runs one
      byte past the buffer. */
  lemma PageReadOverruns(conf: Poll.Conf, host: Memory, residue: Frame, id: nat)
    requires |residue.data| == BUFF_SIZE
    ensures var b := Burst(1, 6, 63);
            && LegalSize(64, b) && ReadShape(64, b) && WithinPage(b) && b.len < 256
            && (forall i, j :: 0 <= i <= b.len && 0 <= j < 64 && Active(64, b, i, j) ==>
                  BeatWord(64, b, i) == i * 64 && i * 64 + j < BUFF_SIZE)
            && !Poll.ValidPick(64, conf, Poll.FromHdl(Answer(host, residue, b, id)))
  {
    Pow2Values();
    var b := Burst(1, 6, 63);
    forall i, j | 0 <= i <= b.len && 0 <= j < 64 && Active(64, b, i, j)
      ensures BeatWord(64, b, i) == i * 64 && i * 64 + j < BUFF_SIZE
    {
      ActiveInWindow(64, b, i, j);
    }
  }
}
