/** Reference semantics of AXI4 INCR bursts: beat addresses, byte lanes and strobed writes
    (AMBA AXI and ACE Protocol Specification, sections A3.4.1 and A3.4.3). Nothing here
    mentions how the bridge works. */
module Axi {
  import opened Bytes

  /** The data-bus widths, in bytes, the bridge is built for. */
  predicate BusWidth(w: nat) {
    w == 8 || w == 16 || w == 32 || w == 64
  }

  /** AxADDR, AxSIZE (log2 of the bytes per beat) and AxLEN (beats minus one). */
  datatype Burst = Burst(addr: nat, size: nat, len: nat)

  datatype WBeat = WBeat(data: seq<byte>, strb: nat)

  predicate LegalSize(w: nat, b: Burst) {
    Pow2(b.size) <= w
  }

  function TotalBytes(b: Burst): nat {
    (b.len + 1) * Pow2(b.size)
  }

  function AlignDown(a: nat, n: nat): nat
    requires n > 0
  {
    a - a % n
  }

  /** The burst does not cross a 4 KB boundary (section A3.4.1). */
  predicate WithinPage(b: Burst) {
    AlignDown(b.addr, Pow2(b.size)) % 4096 + TotalBytes(b) <= 4096
  }

  function BeatAddr(b: Burst, i: nat): nat {
    if i == 0 then b.addr else AlignDown(b.addr, Pow2(b.size)) + i * Pow2(b.size)
  }

  /** The bus word a beat travels in. */
  function BeatWord(w: nat, b: Burst, i: nat): nat
    requires w > 0
  {
    AlignDown(BeatAddr(b, i), w)
  }

  function LaneLow(w: nat, b: Burst, i: nat): nat
    requires w > 0
  {
    BeatAddr(b, i) % w
  }

  function LaneHigh(w: nat, b: Burst, i: nat): nat
    requires w > 0
  {
    AlignDown(BeatAddr(b, i), Pow2(b.size)) % w + Pow2(b.size)
  }

  /** Lane j of beat i carries a byte of the burst. */
  predicate Active(w: nat, b: Burst, i: nat, j: nat)
    requires w > 0
  {
    LaneLow(w, b, i) <= j < LaneHigh(w, b, i)
  }

  function WriteBeat(m: Memory, base: int, beat: WBeat): Memory {
    k => if base <= k < base + |beat.data| && Bit(beat.strb, k - base) then beat.data[k - base] else m(k)
  }

  /** Memory after the beats of a burst, applied one beat at a time. */
  function WriteBeats(w: nat, m: Memory, b: Burst, beats: seq<WBeat>): Memory
    requires w > 0
  {
    if beats == [] then m
    else
      var i := |beats| - 1;
      WriteBeat(WriteBeats(w, m, b, beats[..i]), BeatWord(w, b, i), beats[i])
  }

  /** A beat as a legal master drives it: full-width data and strobes on active lanes only. */
  predicate LegalBeat(w: nat, b: Burst, i: nat, beat: WBeat)
    requires w > 0
  {
    && |beat.data| == w
    && forall j :: 0 <= j < w && Bit(beat.strb, j) ==> Active(w, b, i, j)
  }

  predicate LegalBeats(w: nat, b: Burst, beats: seq<WBeat>)
    requires w > 0
  {
    forall i :: 0 <= i < |beats| ==> LegalBeat(w, b, i, beats[i])
  }

  // ----- Arithmetic of lanes ----------------------------------------------------------------

  lemma SizeDivides(w: nat, size: nat) returns (q: nat)
    requires BusWidth(w) && Pow2(size) <= w
    ensures q > 0 && w == Pow2(size) * q
  {
    Pow2Values();
    var k := if w == 8 then 3 else if w == 16 then 4 else if w == 32 then 5 else 6;
    if size > k { Pow2Mono(k, size); }
    Pow2Add(size, k - size);
    q := Pow2(k - size);
  }

  /** Where an address falls in its bus word, measured in units of n bytes. */
  lemma WordSplit(a: nat, n: nat, q: nat)
    requires n > 0 && q > 0
    ensures n * q > 0
    ensures AlignDown(a, n) % (n * q) + n <= n * q
    ensures a % (n * q) == AlignDown(a, n) % (n * q) + a % n
    ensures AlignDown(a, n * q) == AlignDown(AlignDown(a, n), n * q)
  {
    ModSplit(a, n, q);
    var c := AlignDown(a, n);
    assert c == n * (a / n);
    DivModUnique(c, n, a / n, 0);
    ModSplit(c, n, q);
    MulMono(a / n % q + 1, q, n);
  }

  lemma LaneBounds(w: nat, b: Burst, i: nat)
    requires BusWidth(w) && LegalSize(w, b)
    ensures LaneLow(w, b, i) < LaneHigh(w, b, i) <= w
    ensures LaneHigh(w, b, i) - LaneLow(w, b, i) == Pow2(b.size) - BeatAddr(b, i) % Pow2(b.size)
    ensures BeatWord(w, b, i) + LaneLow(w, b, i) == BeatAddr(b, i)
  {
    var q := SizeDivides(w, b.size);
    WordSplit(BeatAddr(b, i), Pow2(b.size), q);
  }

  lemma AddMultiple(a: nat, n: nat, k: nat)
    requires n > 0
    ensures (a + k * n) % n == a % n
  {
    assert a + k * n == (a / n + k) * n + a % n;
    DivModUnique(a + k * n, n, a / n + k, a % n);
  }

  lemma AlignedBeats(b: Burst, i: nat)
    requires b.addr % Pow2(b.size) == 0
    ensures BeatAddr(b, i) == b.addr + i * Pow2(b.size)
    ensures BeatAddr(b, i) % Pow2(b.size) == 0
  {
    AddMultiple(b.addr, Pow2(b.size), i);
  }
}
