/** C_req_write: the strobed bytes of a collected AXI write burst become one flat host write. */
module Compaction {
  import opened Bytes
  import opened Axi
  import opened Frames

  /** The strobed lanes of one beat, in ascending lane order. */
  function Gather(d: seq<byte>, strb: nat): (r: seq<byte>)
    ensures |r| <= |d|
  {
    if d == [] then []
    else (if strb % 2 == 1 then [d[0]] else []) + Gather(d[1..], strb / 2)
  }

  /** How many of the low j bits are set. */
  function CountBits(strb: nat, j: nat): nat {
    if j == 0 then 0 else CountBits(strb, j - 1) + if Bit(strb, j - 1) then 1 else 0
  }

  lemma {:induction false} CountShifted(strb: nat, j: nat)
    requires j > 0
    ensures CountBits(strb, j) == strb % 2 + CountBits(strb / 2, j - 1)
  {
    if j > 1 { CountShifted(strb, j - 1); }
  }

  /** Whatever the strobes: as many bytes are gathered as lanes are strobed, and each strobed lane's
      byte comes after those of the strobed lanes below it. */
  lemma {:induction false} GatherExact(d: seq<byte>, strb: nat)
    ensures |Gather(d, strb)| == CountBits(strb, |d|)
    ensures forall j :: 0 <= j < |d| && Bit(strb, j) ==>
              CountBits(strb, j) < |Gather(d, strb)| && Gather(d, strb)[CountBits(strb, j)] == d[j]
  {
    if d != [] {
      var rest := Gather(d[1..], strb / 2);
      GatherExact(d[1..], strb / 2);
      CountShifted(strb, |d|);
      forall j | 0 <= j < |d| && Bit(strb, j)
        ensures CountBits(strb, j) < |Gather(d, strb)| && Gather(d, strb)[CountBits(strb, j)] == d[j]
      {
        if j > 0 {
          CountShifted(strb, j);
          assert Bit(strb / 2, j - 1);
          assert rest[CountBits(strb / 2, j - 1)] == d[1..][j - 1];
        }
      }
    }
  }

  function GatherAll(beats: seq<WBeat>): seq<byte> {
    if beats == [] then []
    else GatherAll(beats[..|beats| - 1]) + Gather(beats[|beats| - 1].data, beats[|beats| - 1].strb)
  }

  /** The frame C_req_write sends; `residue` is what the uninitialised ACCData held before. */
  function ReqWrite(residue: Frame, b: Burst, beats: seq<WBeat>): Frame {
    residue.(dataSize := TotalBytes(b), address := b.addr, op := Write,
             data := Splice(residue.data, 0, GatherAll(beats)))
  }

  /** What QEMU does to host memory with such a frame. */
  function HostWrite(m: Memory, f: Frame): Memory
    requires WellFormed(f) && f.op == Write
  {
    Store(m, f.address, f.data[..f.dataSize])
  }

  // ----- The C loop -------------------------------------------------------------------------

  /** The beats held in an engine's data and strobe buffers. */
  function BeatsIn(w: nat, data: seq<byte>, strb: seq<nat>, n: nat): (r: seq<WBeat>)
    requires n <= |strb|
    ensures |r| == n
    ensures forall i :: 0 <= i < n ==> r[i] == WBeat(Slice(data, i * w, w), strb[i])
  {
    seq(n, i requires 0 <= i < n => WBeat(Slice(data, i * w, w), strb[i]))
  }

  /** Compacts the strobed bytes into `acc`, shifting each strobe word down as the C loop does. */
  method CompactStrobed(w: nat, len: nat, data: array<byte>, strb: array<nat>, acc: array<byte>)
    requires w > 0 && len < strb.Length && (len + 1) * w <= data.Length <= acc.Length
    requires acc != data
    modifies strb, acc
    ensures acc[..] == Splice(old(acc[..]), 0, GatherAll(BeatsIn(w, old(data[..]), old(strb[..]), len + 1)))
    ensures forall x :: 0 <= x < strb.Length ==>
              strb[x] == if x <= len then ShiftRight(old(strb[x]), w) else old(strb[x])
  {
    ghost var beats := BeatsIn(w, data[..], strb[..], len + 1);
    ghost var strb0, acc0 := strb[..], acc[..];
    var i, k := 0, 0;
    while i <= len
      invariant 0 <= i <= len + 1
      invariant k == |GatherAll(beats[..i])| <= i * w <= acc.Length
      invariant acc[..] == Splice(acc0, 0, GatherAll(beats[..i]))
      invariant forall x :: 0 <= x < strb.Length ==> strb[x] == if x < i then ShiftRight(strb0[x], w) else strb0[x]
    {
      NextBeat(w, data[..], strb0, len, i);
      k := CompactBeat(w, i, k, data, strb, acc);
      i := i + 1;
    }
    assert beats[..len + 1] == beats;
  }

  /** One turn of the loop over strobe bits: the bit decides the next byte. */
  lemma GatherStep(done: seq<byte>, d: seq<byte>, j: nat, strb: nat)
    requires j < |d|
    ensures done + Gather(d[j..], strb) == (if strb % 2 == 1 then done + [d[j]] else done) + Gather(d[j + 1..], strb / 2)
  {
    assert d[j..][1..] == d[j + 1..];
  }

  lemma SpliceSnoc(buf: seq<byte>, at: nat, done: seq<byte>, x: byte)
    requires at + |done| < |buf|
    ensures Splice(buf, at, done)[at + |done| := x] == Splice(buf, at, done + [x])
  {
  }

  lemma NextBeat(w: nat, data: seq<byte>, strb: seq<nat>, len: nat, i: nat)
    requires i <= len < |strb| && (len + 1) * w <= |data|
    ensures i * w + w == (i + 1) * w <= |data|
    ensures var beats := BeatsIn(w, data, strb, len + 1);
            beats[..i + 1][..i] == beats[..i] && beats[i].data == data[i * w..i * w + w] && beats[i].strb == strb[i]
  {
    MulMono(i + 1, len + 1, w);
    assert (i + 1) * w == i * w + w;
  }

  method CompactBeat(w: nat, i: nat, k0: nat, data: array<byte>, strb: array<nat>, acc: array<byte>)
      returns (k: nat)
    requires i < strb.Length && i * w + w <= data.Length <= acc.Length && k0 <= i * w
    requires acc != data
    modifies strb, acc
    ensures forall x :: 0 <= x < strb.Length ==>
              strb[x] == if x == i then ShiftRight(old(strb[x]), w) else old(strb[x])
    ensures k == k0 + |Gather(data[i * w..i * w + w], old(strb[i]))|
    ensures k <= i * w + w
    ensures acc[..] == Splice(old(acc[..]), k0, Gather(data[i * w..i * w + w], old(strb[i])))
  {
    var base := i * w;
    ghost var d, s0, acc0 := data[base..base + w], strb[i], acc[..];
    ghost var done: seq<byte> := [];
    k := k0;
    var j := 0;
    while j < w
      invariant 0 <= j <= w
      invariant done + Gather(d[j..], strb[i]) == Gather(d, s0)
      invariant k == k0 + |done| && |done| <= j
      invariant ShiftRight(strb[i], w - j) == ShiftRight(s0, w)
      invariant acc[..] == Splice(acc0, k0, done)
      invariant forall x :: 0 <= x < strb.Length && x != i ==> strb[x] == old(strb[x])
    {
      assert d[j] == data[base + j];
      GatherStep(done, d, j, strb[i]);
      if strb[i] % 2 == 1 {
        SpliceSnoc(acc0, k0, done, d[j]);
        acc[k] := data[base + j];
        k := k + 1;
        done := done + [d[j]];
      }
      strb[i] := strb[i] / 2;
      j := j + 1;
    }
    assert d[w..] == [];
  }

  /** C_req_write: fills in the uninitialised struct and returns the frame to send. */
  method RequestWrite(w: nat, residue: Frame, b: Burst, data: array<byte>, strb: array<nat>) returns (f: Frame)
    requires w > 0 && |residue.data| == BUFF_SIZE
    requires b.len < strb.Length && (b.len + 1) * w <= data.Length <= BUFF_SIZE
    modifies strb
    ensures f == ReqWrite(residue, b, BeatsIn(w, data[..], old(strb[..]), b.len + 1))
  {
    var acc := new byte[BUFF_SIZE](k requires 0 <= k < |residue.data| => residue.data[k]);
    assert acc[..] == residue.data;
    CompactStrobed(w, b.len, data, strb, acc);
    f := residue.(dataSize := (b.len + 1) * Pow2(b.size), address := b.addr, op := Write, data := acc[..]);
  }

  // ----- What the compacted bytes are -------------------------------------------------------

  /** Strobes confined to a window gather at most the window, and all of it only if all are set. */
  lemma {:induction false} GatherWindow(d: seq<byte>, strb: nat, lo: nat, hi: nat)
    requires lo <= hi <= |d|
    requires forall j :: 0 <= j < |d| && Bit(strb, j) ==> lo <= j < hi
    ensures |Gather(d, strb)| <= hi - lo
    ensures |Gather(d, strb)| == hi - lo ==> forall j :: lo <= j < hi ==> Bit(strb, j)
  {
    if d != [] {
      var lo', hi' := if lo == 0 then 0 else lo - 1, if hi == 0 then 0 else hi - 1;
      forall j | 0 <= j < |d[1..]| && Bit(strb / 2, j) ensures lo' <= j < hi' {
        assert Bit(strb, j + 1);
      }
      assert Bit(strb, 0) == (strb % 2 == 1);
      GatherWindow(d[1..], strb / 2, lo', hi');
      if |Gather(d, strb)| == hi - lo {
        forall j | lo <= j < hi ensures Bit(strb, j) {
          if j > 0 { assert Bit(strb / 2, j - 1); }
        }
      }
    }
  }

  lemma ShiftedWindow(strb: nat, n: nat, lo: nat, hi: nat, lo': nat, hi': nat)
    requires forall j :: 0 <= j < n ==> (Bit(strb, j) <==> lo <= j < hi)
    requires lo' == (if lo == 0 then 0 else lo - 1) && hi' == (if hi == 0 then 0 else hi - 1)
    ensures forall j :: 0 <= j < n - 1 ==> (Bit(strb / 2, j) <==> lo' <= j < hi')
  {
    forall j | 0 <= j < n - 1 ensures Bit(strb / 2, j) <==> lo' <= j < hi' {
      assert Bit(strb, j + 1) == Bit(strb / 2, j);
    }
  }

  /** Conversely, strobes on the whole window gather the whole window. */
  lemma {:induction false} GatherFull(d: seq<byte>, strb: nat, lo: nat, hi: nat)
    requires lo <= hi <= |d|
    requires forall j :: 0 <= j < |d| ==> (Bit(strb, j) <==> lo <= j < hi)
    ensures Gather(d, strb) == d[lo..hi]
  {
    if d != [] {
      var lo', hi' := if lo == 0 then 0 else lo - 1, if hi == 0 then 0 else hi - 1;
      ShiftedWindow(strb, |d|, lo, hi, lo', hi');
      GatherFull(d[1..], strb / 2, lo', hi');
      assert Bit(strb, 0) <==> lo == 0 < hi;
      HeadOfWindow(d, lo, hi, lo', hi');
      assert Gather(d, strb) == (if lo == 0 < hi then [d[0]] else []) + Gather(d[1..], strb / 2);
    }
  }

  lemma HeadOfWindow(d: seq<byte>, lo: nat, hi: nat, lo': nat, hi': nat)
    requires d != [] && lo <= hi <= |d|
    requires lo' == (if lo == 0 then 0 else lo - 1) && hi' == (if hi == 0 then 0 else hi - 1)
    ensures d[lo..hi] == (if lo == 0 < hi then [d[0]] else []) + d[1..][lo'..hi']
  {
    if lo == 0 < hi {
      assert d[..hi] == [d[0]] + d[1..][..hi - 1];
      assert d[lo..hi] == d[..hi] && d[1..][lo'..hi'] == d[1..][..hi - 1];
    } else if hi > 0 {
      assert d[lo..hi] == d[1..][lo - 1..hi - 1];
    }
  }

  /** Every active lane of the beat is strobed, and no other. */
  predicate StrobesActive(w: nat, b: Burst, i: nat, beat: WBeat)
    requires w > 0
  {
    forall j :: 0 <= j < w ==> (Bit(beat.strb, j) <==> Active(w, b, i, j))
  }

  lemma BeatCount(w: nat, b: Burst, i: nat, beat: WBeat)
    requires BusWidth(w) && LegalSize(w, b) && LegalBeat(w, b, i, beat)
    ensures |Gather(beat.data, beat.strb)| <= Pow2(b.size)
    ensures |Gather(beat.data, beat.strb)| == Pow2(b.size) ==>
              && BeatAddr(b, i) % Pow2(b.size) == 0
              && LaneLow(w, b, i) + Pow2(b.size) == LaneHigh(w, b, i) <= w
              && Gather(beat.data, beat.strb) == beat.data[LaneLow(w, b, i)..LaneHigh(w, b, i)]
              && StrobesActive(w, b, i, beat)
  {
    LaneBounds(w, b, i);
    GatherWindow(beat.data, beat.strb, LaneLow(w, b, i), LaneHigh(w, b, i));
    if |Gather(beat.data, beat.strb)| == Pow2(b.size) {
      GatherFull(beat.data, beat.strb, LaneLow(w, b, i), LaneHigh(w, b, i));
    }
  }

  predicate FullBeat(b: Burst, beat: WBeat) {
    |Gather(beat.data, beat.strb)| == Pow2(b.size)
  }

  lemma {:induction false} GatherSum(beats: seq<WBeat>, n: nat)
    requires forall i :: 0 <= i < |beats| ==> |Gather(beats[i].data, beats[i].strb)| <= n
    ensures |GatherAll(beats)| <= Times(|beats|, n)
    ensures |GatherAll(beats)| == Times(|beats|, n) <==>
            forall i :: 0 <= i < |beats| ==> |Gather(beats[i].data, beats[i].strb)| == n
  {
    if beats != [] {
      var front := beats[..|beats| - 1];
      assert forall i :: 0 <= i < |front| ==> front[i] == beats[i];
      GatherSum(front, n);
    }
  }

  /** Every beat is fully strobed exactly when a whole burst's worth of bytes is gathered. */
  lemma BurstCount(w: nat, b: Burst, beats: seq<WBeat>)
    requires BusWidth(w) && LegalSize(w, b) && LegalBeats(w, b, beats) && |beats| == b.len + 1
    ensures |GatherAll(beats)| <= TotalBytes(b)
    ensures |GatherAll(beats)| == TotalBytes(b) <==> forall i :: 0 <= i < |beats| ==> FullBeat(b, beats[i])
  {
    forall i | 0 <= i < |beats| ensures |Gather(beats[i].data, beats[i].strb)| <= Pow2(b.size) {
      BeatCount(w, b, i, beats[i]);
    }
    GatherSum(beats, Pow2(b.size));
    TimesIsProduct(|beats|, Pow2(b.size));
  }

  lemma WindowStore(m: Memory, base: int, beat: WBeat, lo: nat, hi: nat)
    requires lo <= hi <= |beat.data|
    requires forall j :: 0 <= j < |beat.data| ==> (Bit(beat.strb, j) <==> lo <= j < hi)
    ensures Same(WriteBeat(m, base, beat), Store(m, base + lo, beat.data[lo..hi]))
  {
    forall k ensures WriteBeat(m, base, beat)(k) == Store(m, base + lo, beat.data[lo..hi])(k) {
      if base <= k < base + |beat.data| { assert Bit(beat.strb, k - base) <==> lo <= k - base < hi; }
    }
  }

  /** The i-th fully strobed beat writes the i-th slice of the burst. */
  lemma FullBeatIsStore(w: nat, m: Memory, b: Burst, i: nat, beat: WBeat)
    requires BusWidth(w) && LegalSize(w, b) && LegalBeat(w, b, i, beat) && FullBeat(b, beat)
    requires b.addr % Pow2(b.size) == 0
    ensures Same(WriteBeat(m, BeatWord(w, b, i), beat),
                 Store(m, b.addr + Times(i, Pow2(b.size)), Gather(beat.data, beat.strb)))
  {
    LaneBounds(w, b, i);
    BeatCount(w, b, i, beat);
    AlignedBeats(b, i);
    TimesIsProduct(i, Pow2(b.size));
    WindowStore(m, BeatWord(w, b, i), beat, LaneLow(w, b, i), LaneHigh(w, b, i));
  }

  lemma {:induction false} FullBeatsAreStore(w: nat, m: Memory, b: Burst, beats: seq<WBeat>)
    requires BusWidth(w) && LegalSize(w, b) && LegalBeats(w, b, beats)
    requires b.addr % Pow2(b.size) == 0
    requires forall i :: 0 <= i < |beats| ==> FullBeat(b, beats[i])
    ensures |GatherAll(beats)| == Times(|beats|, Pow2(b.size))
    ensures Same(WriteBeats(w, m, b, beats), Store(m, b.addr, GatherAll(beats)))
  {
    if beats != [] {
      var n := |beats| - 1;
      var front := beats[..n];
      assert forall i :: 0 <= i < n ==> front[i] == beats[i];
      FullBeatsAreStore(w, m, b, front);
      FullBeatIsStore(w, WriteBeats(w, m, b, front), b, n, beats[n]);
      OneMoreStore(m, WriteBeats(w, m, b, front), WriteBeats(w, m, b, beats), b.addr,
                   GatherAll(front), Gather(beats[n].data, beats[n].strb));
    }
  }

  lemma OneMoreStore(m: Memory, m1: Memory, m2: Memory, a: int, x: seq<byte>, y: seq<byte>)
    requires Same(m1, Store(m, a, x)) && Same(m2, Store(m1, a + |x|, y))
    ensures Same(m2, Store(m, a, x + y))
  {
    StoreConcat(m, a, x, y);
    StoreSame(m1, Store(m, a, x), a + |x|, y);
  }

  lemma StoreSame(l: Memory, r: Memory, a: int, d: seq<byte>)
    requires Same(l, r)
    ensures Same(Store(l, a, d), Store(r, a, d))
  {
  }

  lemma FullBurstIsStore(w: nat, m: Memory, b: Burst, beats: seq<WBeat>)
    requires BusWidth(w) && LegalSize(w, b) && LegalBeats(w, b, beats) && |beats| == b.len + 1
    requires |GatherAll(beats)| == TotalBytes(b)
    ensures Same(WriteBeats(w, m, b, beats), Store(m, b.addr, GatherAll(beats)))
  {
    BurstCount(w, b, beats);
    BeatCount(w, b, 0, beats[0]);
    FullBeatsAreStore(w, m, b, beats);
  }

  /** The flat host write equals the beat-by-beat AXI write, whatever the uninitialised frame held,
      exactly when the strobes mark as many bytes as the frame declares. */
  lemma CompactionExact(w: nat, m: Memory, b: Burst, beats: seq<WBeat>)
    requires BusWidth(w) && LegalSize(w, b) && LegalBeats(w, b, beats) && |beats| == b.len + 1
    requires TotalBytes(b) <= BUFF_SIZE
    ensures (forall residue: Frame | |residue.data| == BUFF_SIZE ::
               Same(HostWrite(m, ReqWrite(residue, b, beats)), WriteBeats(w, m, b, beats)))
            <==> |GatherAll(beats)| == TotalBytes(b)
  {
    BurstCount(w, b, beats);
    var g := GatherAll(beats);
    if |g| == TotalBytes(b) {
      FullBurstIsStore(w, m, b, beats);
      forall residue: Frame | |residue.data| == BUFF_SIZE
        ensures Same(HostWrite(m, ReqWrite(residue, b, beats)), WriteBeats(w, m, b, beats))
      {
        assert ReqWrite(residue, b, beats).data[..TotalBytes(b)] == g;
      }
    } else {
      var residue := ResidueLeaks(m, b, beats, WriteBeats(w, m, b, beats));
    }
  }

  lemma LastDeclaredByte(m: Memory, f: Frame, k: nat)
    requires WellFormed(f) && f.op == Write && k < f.dataSize
    ensures HostWrite(m, f)(f.address + k) == f.data[k]
  {
  }

  /** With fewer strobed bytes than declared, some stack residue reaches host memory. */
  lemma ResidueLeaks(m: Memory, b: Burst, beats: seq<WBeat>, goal: Memory) returns (residue: Frame)
    requires |GatherAll(beats)| < TotalBytes(b) <= BUFF_SIZE
    ensures |residue.data| == BUFF_SIZE
    ensures HostWrite(m, ReqWrite(residue, b, beats))(b.addr + |GatherAll(beats)|)
            != goal(b.addr + |GatherAll(beats)|)
  {
    var k := |GatherAll(beats)|;
    var other: byte := if goal(b.addr + k) == 0 then 1 else 0;
    residue := Frame(0, 0, 0, Noop, 0, Zeros(BUFF_SIZE)[k := other], 0);
    LastDeclaredByte(m, ReqWrite(residue, b, beats), k);
  }

  /** Same condition in the master's terms: aligned start, every active lane strobed. */
  lemma CountMeansFullyStrobed(w: nat, b: Burst, beats: seq<WBeat>)
    requires BusWidth(w) && LegalSize(w, b) && LegalBeats(w, b, beats) && |beats| == b.len + 1
    ensures |GatherAll(beats)| == TotalBytes(b) <==>
            && b.addr % Pow2(b.size) == 0
            && forall i :: 0 <= i < |beats| ==> StrobesActive(w, b, i, beats[i])
  {
    BurstCount(w, b, beats);
    forall i | 0 <= i < |beats|
      ensures FullBeat(b, beats[i]) ==> StrobesActive(w, b, i, beats[i])
      ensures i == 0 && FullBeat(b, beats[i]) ==> b.addr % Pow2(b.size) == 0
      ensures b.addr % Pow2(b.size) == 0 && StrobesActive(w, b, i, beats[i]) ==> FullBeat(b, beats[i])
    {
      FullMeansStrobed(w, b, i, beats[i]);
    }
    assert FullBeat(b, beats[0]) ==> b.addr % Pow2(b.size) == 0;
  }

  lemma FullMeansStrobed(w: nat, b: Burst, i: nat, beat: WBeat)
    requires BusWidth(w) && LegalSize(w, b) && LegalBeat(w, b, i, beat)
    ensures FullBeat(b, beat) ==> StrobesActive(w, b, i, beat) && BeatAddr(b, i) % Pow2(b.size) == 0
    ensures b.addr % Pow2(b.size) == 0 && StrobesActive(w, b, i, beat) ==> FullBeat(b, beat)
  {
    BeatCount(w, b, i, beat);
    if b.addr % Pow2(b.size) == 0 && StrobesActive(w, b, i, beat) {
      AlignedBeats(b, i);
      LaneBounds(w, b, i);
      GatherFull(beat.data, beat.strb, LaneLow(w, b, i), LaneHigh(w, b, i));
    }
  }
}
