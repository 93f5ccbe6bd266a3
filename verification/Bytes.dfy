/** Bytes, byte-addressed memories, fixed-size buffers and strobe words shared by every module. */
module Bytes {

  type byte = x: int | 0 <= x < 256

  /** BUFF_SIZE in acc.h and DTMP in every HDL module. */
  const BUFF_SIZE := 4096

  datatype Option<+T> = None | Some(value: T)

  function Front<T>(s: seq<T>): seq<T>
    requires s != []
  {
    s[..|s| - 1]
  }

  function Last<T>(s: seq<T>): T
    requires s != []
  {
    s[|s| - 1]
  }

  predicate Increasing(idx: seq<nat>) {
    forall i, j :: 0 <= i < j < |idx| ==> idx[i] < idx[j]
  }

  lemma AppendAssociates<T>(a: seq<T>, b: seq<T>, c: seq<T>)
    ensures a + (b + c) == a + b + c
  {
  }

  /** A byte-addressed memory. */
  type Memory = int -> byte

  ghost predicate Same(l: Memory, r: Memory) {
    forall k :: l(k) == r(k)
  }

  function Store(m: Memory, a: int, d: seq<byte>): Memory {
    k => if a <= k < a + |d| then d[k - a] else m(k)
  }

  function Load(m: Memory, a: int, n: nat): (r: seq<byte>)
    ensures |r| == n && forall i :: 0 <= i < n ==> r[i] == m(a + i)
  {
    seq(n, i => m(a + i))
  }

  /** One store of a concatenation is two adjacent stores. */
  lemma StoreConcat(m: Memory, a: int, x: seq<byte>, y: seq<byte>)
    ensures Same(Store(m, a, x + y), Store(Store(m, a, x), a + |x|, y))
  {
  }

  /** Writes `d` into a fixed-size buffer; positions past its end are dropped, as in SystemVerilog. */
  function Splice<T>(buf: seq<T>, at: nat, d: seq<T>): (r: seq<T>)
    ensures |r| == |buf|
    ensures forall i :: 0 <= i < |r| ==> r[i] == if at <= i < at + |d| then d[i - at] else buf[i]
  {
    seq(|buf|, i requires 0 <= i < |buf| => if at <= i < at + |d| then d[i - at] else buf[i])
  }

  /** The lane loop of the HDL modules: d[j] goes to buf[at + j] for each lane j. */
  method WriteLanes(buf: array<byte>, at: nat, d: seq<byte>)
    modifies buf
    ensures buf[..] == Splice(old(buf[..]), at, d)
  {
    for j := 0 to |d|
      invariant buf[..] == Splice(old(buf[..]), at, d[..j])
    {
      if at + j < buf.Length { buf[at + j] := d[j]; }
    }
    assert d[..|d|] == d;
  }

  /** Reads `n` bytes from a fixed-size buffer; positions past its end read as zero. */
  function Slice(buf: seq<byte>, at: nat, n: nat): (r: seq<byte>)
    ensures |r| == n
    ensures forall i :: 0 <= i < n ==> r[i] == if at + i < |buf| then buf[at + i] else 0
  {
    seq(n, i requires 0 <= i => if at + i < |buf| then buf[at + i] else 0)
  }

  /** The lane loop that drives a data bus from a buffer. */
  method ReadLanes(buf: seq<byte>, at: nat, n: nat) returns (beat: seq<byte>)
    ensures beat == Slice(buf, at, n)
  {
    beat := [];
    for k := 0 to n
      invariant beat == Slice(buf, at, k)
    {
      beat := beat + [if at + k < |buf| then buf[at + k] else 0];
    }
  }

  /** The buffer holds these w-byte beats back to back from its start. */
  predicate Holds(w: nat, buf: seq<byte>, beats: seq<seq<byte>>) {
    forall k :: 0 <= k < |beats| ==> Slice(buf, k * w, w) == beats[k]
  }

  lemma HoldsAppend(w: nat, buf: seq<byte>, beats: seq<seq<byte>>, d: seq<byte>)
    requires Holds(w, buf, beats) && |d| == w && (|beats| + 1) * w <= |buf|
    ensures Holds(w, Splice(buf, |beats| * w, d), beats + [d])
  {
    var n, buf' := |beats|, Splice(buf, |beats| * w, d);
    assert (n + 1) * w == n * w + w;
    forall k | 0 <= k < n ensures Slice(buf', k * w, w) == beats[k] {
      MulMono(k + 1, n, w);
      assert (k + 1) * w == k * w + w;
      SliceBefore(buf, n * w, d, k * w, w);
    }
    assert Slice(buf', n * w, w) == d;
  }

  /** Splicing past a slice leaves the slice alone. */
  lemma SliceBefore(buf: seq<byte>, at: nat, d: seq<byte>, lo: nat, n: nat)
    requires lo + n <= at <= |buf|
    ensures Slice(Splice(buf, at, d), lo, n) == Slice(buf, lo, n)
  {
  }

  function Zeros(n: nat): (r: seq<byte>)
    ensures |r| == n && forall i :: 0 <= i < n ==> r[i] == 0
  {
    seq<byte>(n, i => 0)
  }

  /** k summands of n; kept apart from `*` so that inductions over beats stay linear. */
  function Times(k: nat, n: nat): nat {
    if k == 0 then 0 else Times(k - 1, n) + n
  }

  lemma {:induction false} TimesIsProduct(k: nat, n: nat)
    ensures Times(k, n) == k * n
  {
    if k > 0 { TimesIsProduct(k - 1, n); }
  }

  // ----- Words as bit strings ---------------------------------------------------------------

  function Pow2(n: nat): (r: nat)
    ensures r > 0
  {
    if n == 0 then 1 else 2 * Pow2(n - 1)
  }

  /** Bit j of an unsigned word, reached as the C loops reach it: by halving. */
  predicate Bit(s: nat, j: nat) {
    if j == 0 then s % 2 == 1 else Bit(s / 2, j - 1)
  }

  /** s >> j, one position at a time. */
  function ShiftRight(s: nat, j: nat): nat {
    if j == 0 then s else ShiftRight(s / 2, j - 1)
  }

  /** x << j, one position at a time. */
  function ShiftLeft(x: nat, j: nat): nat {
    if j == 0 then x else 2 * ShiftLeft(x, j - 1)
  }

  /** In the usual terms. */
  lemma {:induction false} BitMeans(s: nat, j: nat)
    ensures Bit(s, j) <==> s / Pow2(j) % 2 == 1
  {
    if j > 0 {
      BitMeans(s / 2, j - 1);
      DivSplit(s, 2, Pow2(j - 1));
    }
  }

  /** Quotients by a product, one factor at a time. */
  lemma DivSplit(v: nat, c: nat, p: nat)
    requires c > 0 && p > 0
    ensures c * p > 0 && v / (c * p) == v / c / p
  {
    var x := v / c;
    ModSplitCore(v, c, p, x, v % c, x / p, x % p);
    DivModUnique(v, c * p, x / p, c * (x % p) + v % c);
  }

  /** The word with exactly bits lo .. lo+n-1 set. */
  function Mask(lo: nat, n: nat): nat {
    if lo > 0 then 2 * Mask(lo - 1, n) else Pow2(n) - 1
  }

  lemma {:induction false} BitMask(lo: nat, n: nat, j: nat)
    ensures Bit(Mask(lo, n), j) <==> lo <= j < lo + n
    decreases j
  {
    if lo > 0 {
      if j > 0 { BitMask(lo - 1, n, j - 1); }
    } else if n > 0 {
      assert Mask(0, n) == 2 * Mask(0, n - 1) + 1;
      if j > 0 { BitMask(0, n - 1, j - 1); }
    } else {
      BitZero(j);
    }
  }

  /** The word that C computes as ((1 << n) - 1) << lo. */
  lemma {:induction false} ShiftedMask(lo: nat, n: nat)
    ensures ShiftLeft(1, n) >= 1 && ShiftLeft(ShiftLeft(1, n) - 1, lo) == Mask(lo, n)
  {
    OneShifted(n);
    if lo > 0 { ShiftedMask(lo - 1, n); }
  }

  lemma {:induction false} OneShifted(n: nat)
    ensures ShiftLeft(1, n) == Pow2(n)
  {
    if n > 0 { OneShifted(n - 1); }
  }

  lemma {:induction false} BitZero(j: nat)
    ensures !Bit(0, j)
  {
    if j > 0 { BitZero(j - 1); }
  }

  /** Truncating a word to n bits keeps exactly its low n bits. */
  lemma {:induction false} BitTruncate(s: nat, n: nat, j: nat)
    ensures Bit(s % Pow2(n), j) <==> j < n && Bit(s, j)
    decreases n
  {
    if n == 0 {
      assert s % 1 == 0;
      BitZero(j);
    } else {
      ModSplit(s, 2, Pow2(n - 1));
      if j > 0 { BitTruncate(s / 2, n - 1, j - 1); }
    }
  }

  lemma DivModUnique(a: nat, d: nat, q: nat, r: nat)
    requires a == q * d + r && r < d
    ensures a / d == q && a % d == r
  {
    var q', r' := a / d, a % d;
    assert a == d * q' + r' && 0 <= r' < d;
    if q' < q {
      MulMono(q' + 1, q, d);
    } else if q < q' {
      MulMono(q + 1, q', d);
    }
  }

  /** Remainders by a product, one factor at a time. */
  lemma ModSplit(v: nat, c: nat, p: nat)
    requires c > 0 && p > 0
    ensures c * p > 0 && v % (c * p) == c * (v / c % p) + v % c
  {
    var x := v / c;
    ModSplitCore(v, c, p, x, v % c, x / p, x % p);
    DivModUnique(v, c * p, x / p, c * (x % p) + v % c);
  }

  lemma ModSplitCore(v: nat, c: nat, p: nat, x: nat, y: nat, q: nat, r: nat)
    requires v == c * x + y && y < c && x == p * q + r && r < p
    ensures v == q * (c * p) + (c * r + y) && c * r + y < c * p
  {
    assert c * (p * q + r) == c * (p * q) + c * r;
    assert c * (p * q) == q * (c * p);
    MulMono(r + 1, p, c);
  }

  lemma MulMono(x: nat, y: nat, d: nat)
    requires x <= y
    ensures x * d <= y * d
  {
    assert (y - x) * d >= 0;
  }

  /** Any beat of a burst that fits a buffer has room in it. */
  lemma BeatRoom(k: nat, len: nat, w: nat, room: nat)
    requires k <= len && (len + 1) * w <= room
    ensures k * w + w <= room && w * k + w <= room
  {
    MulMono(k + 1, len + 1, w);
    assert (k + 1) * w == k * w + w;
  }

  lemma {:induction false} Pow2Mono(m: nat, n: nat)
    requires m <= n
    ensures Pow2(m) <= Pow2(n)
    ensures m < n ==> Pow2(m) < Pow2(n)
    decreases n - m
  {
    if m < n { Pow2Mono(m, n - 1); }
  }

  lemma {:induction false} Pow2Add(m: nat, n: nat)
    ensures Pow2(m + n) == Pow2(m) * Pow2(n)
    decreases n
  {
    if n > 0 {
      Pow2Add(m, n - 1);
      assert Pow2(m + n) == 2 * Pow2(m + (n - 1));
      Associate(Pow2(m), 2, Pow2(n - 1));
      Associate(2, Pow2(m), Pow2(n - 1));
    }
  }

  lemma Associate(n: nat, q: nat, k: nat)
    ensures n * (q * k) == n * q * k
  {
  }

  lemma Pow2Plus8(m: nat)
    ensures Pow2(m + 8) == 256 * Pow2(m)
  {
    assert Pow2(m + 2) == 4 * Pow2(m);
    assert Pow2(m + 4) == 16 * Pow2(m);
    assert Pow2(m + 6) == 64 * Pow2(m);
  }

  lemma Pow2Values()
    ensures Pow2(0) == 1 && Pow2(1) == 2 && Pow2(2) == 4 && Pow2(3) == 8
    ensures Pow2(4) == 16 && Pow2(5) == 32 && Pow2(6) == 64 && Pow2(8) == 256
  {
    assert Pow2(2) == 4;
    assert Pow2(4) == 16;
    assert Pow2(6) == 64;
  }

  /** 2^64: addresses and strobe words are 64 bits wide. */
  const WORD: nat := 0x1_0000_0000_0000_0000

  lemma WordIsPow2()
    ensures WORD == Pow2(64)
  {
    Pow2Values();
    Pow2Plus8(8);
    Pow2Plus8(16);
    Pow2Plus8(24);
    Pow2Plus8(32);
    Pow2Plus8(40);
    Pow2Plus8(48);
    Pow2Plus8(56);
  }

  // ----- Little-endian integers -------------------------------------------------------------

  /** The n low-order bytes of v, least significant first, as memcpy from a uint64_t gives them. */
  function ToLE(v: nat, n: nat): (r: seq<byte>)
    ensures |r| == n
  {
    if n == 0 then [] else [v % 256] + ToLE(v / 256, n - 1)
  }

  /** Byte i has weight 256^i. */
  lemma {:induction false} ToLEByte(v: nat, n: nat, i: nat)
    requires i < n
    ensures ToLE(v, n)[i] == v / Pow2(8 * i) % 256
    decreases i
  {
    if i > 0 {
      ToLEByte(v / 256, n - 1, i - 1);
      Pow2Plus8(8 * (i - 1));
      assert 8 * (i - 1) + 8 == 8 * i;
      DivSplit(v, 256, Pow2(8 * (i - 1)));
    }
  }

  function FromLE(d: seq<byte>): nat {
    if d == [] then 0 else d[0] + 256 * FromLE(d[1..])
  }

  lemma {:induction false} ToLEPrefix(v: nat, n: nat, k: nat)
    requires k <= n
    ensures ToLE(v, n)[..k] == ToLE(v, k)
    decreases k
  {
    if k > 0 {
      ToLEPrefix(v / 256, n - 1, k - 1);
      assert ToLE(v, n)[..k] == [v % 256] + ToLE(v / 256, n - 1)[..k - 1];
    }
  }

  /** Reading back what was stored gives the value modulo the access width. */
  lemma {:induction false} LERoundTrip(v: nat, n: nat)
    ensures FromLE(ToLE(v, n)) == v % Pow2(8 * n)
    decreases n
  {
    if n == 0 {
      assert v % 1 == 0;
    } else {
      LERoundTrip(v / 256, n - 1);
      assert ToLE(v, n)[1..] == ToLE(v / 256, n - 1);
      Pow2Plus8(8 * (n - 1));
      assert 8 * (n - 1) + 8 == 8 * n;
      ModSplit(v, 256, Pow2(8 * (n - 1)));
    }
  }
}
