/** axi4_s_w: collects one AXI write burst from the device, hands it to C_req_write, answers on B. */
module SlaveWrite {
  import opened Bytes
  import opened Axi
  import opened Compaction

  datatype State = Idle | Response | Data

  /** The r_* registers; NSTB is the number of beats the buffers hold. */
  datatype Regs = Regs(
    state: State, id: nat, addr: nat, size: nat, len: nat, cnt: nat,
    awready: bool, wready: bool, bid: nat, bresp: nat, bvalid: bool,
    data: seq<byte>, strb: seq<nat>)

  datatype In = In(
    awvalid: bool, awid: nat, awaddr: nat, awsize: nat, awlen: nat,
    wvalid: bool, wdata: seq<byte>, wstrb: nat, bready: bool)

  const AXI_RESP_OK: nat := 0

  function Nstb(w: nat): nat
    requires w > 0
  {
    BUFF_SIZE / w
  }

  function Reset(w: nat): Regs
    requires w > 0
  {
    Regs(Idle, 0, 0, 0, 0, 0, true, false, 0, AXI_RESP_OK, false, Zeros(BUFF_SIZE), seq(Nstb(w), _ => 0))
  }

  function Next(w: nat, r: Regs, i: In): Regs {
    match r.state
    case Idle =>
      if i.awvalid
      then r.(state := Data, awready := false, wready := true, id := i.awid, addr := i.awaddr,
              size := i.awsize, len := i.awlen, cnt := 0)
      else r
    case Data =>
      if !i.wvalid then r
      else
        var r1 := r.(data := Splice(r.data, r.cnt * w, i.wdata), strb := Splice(r.strb, r.cnt, [i.wstrb]));
        if r.cnt != r.len then r1.(cnt := (r.cnt + 1) % 256)
        else r1.(bid := r.id, bresp := AXI_RESP_OK, bvalid := true, wready := false, state := Response)
    case Response =>
      if i.bready then r.(state := Idle, awready := true, bvalid := false) else r
  }

  /** send_to_qemu: C_req_write fires at this edge with the updated buffers. */
  predicate Calls(r: Regs, i: In) {
    r.state == Data && i.wvalid && r.cnt == r.len
  }

  // ----- The module as clocked code ---------------------------------------------------------

  class Engine {
    const w: nat
    var state: State
    var id: nat
    var addr: nat
    var size: nat
    var len: nat
    var cnt: nat
    var awready: bool
    var wready: bool
    var bid: nat
    var bresp: nat
    var bvalid: bool
    const data: array<byte>
    const strb: array<nat>

    function View(): Regs
      reads this, data, strb
    {
      Regs(state, id, addr, size, len, cnt, awready, wready, bid, bresp, bvalid, data[..], strb[..])
    }

    constructor (w: nat)
      requires w > 0
      ensures this.w == w && View() == Reset(w) && fresh(data) && fresh(strb)
    {
      this.w := w;
      state, id, addr, size, len, cnt := Idle, 0, 0, 0, 0, 0;
      awready, wready, bid, bresp, bvalid := true, false, 0, AXI_RESP_OK, false;
      data := new byte[BUFF_SIZE](_ => 0);
      strb := new nat[Nstb(w)](_ => 0);
    }

    method Clock(i: In) returns (sendToQemu: bool)
      requires |i.wdata| == w
      modifies this, data, strb
      ensures View() == Next(w, old(View()), i)
      ensures sendToQemu == Calls(old(View()), i)
    {
      sendToQemu := false;
      if state == Idle {
        if i.awvalid {
          state, awready, wready := Data, false, true;
          id, addr, size, len := i.awid, i.awaddr, i.awsize, i.awlen;
          cnt := 0;
        }
      } else if state == Data {
        sendToQemu := TakeBeat(i);
      } else if i.bready {
        state, awready, bvalid := Idle, true, false;
      }
    }

    /** The WRITE_DATA branch. */
    method TakeBeat(i: In) returns (sendToQemu: bool)
      requires state == Data && |i.wdata| == w
      modifies this, data, strb
      ensures View() == Next(w, old(View()), i)
      ensures sendToQemu == Calls(old(View()), i)
    {
      sendToQemu := false;
      if i.wvalid {
        WriteLanes(data, cnt * w, i.wdata);
        if cnt < strb.Length { strb[cnt] := i.wstrb; }
        if cnt != len {
          cnt := (cnt + 1) % 256;
        } else {
          bid, bresp, bvalid := id, AXI_RESP_OK, true;
          wready := false;
          state := Response;
          sendToQemu := true;
        }
      }
    }
  }

  // ----- What the wires show ----------------------------------------------------------------

  /** A record kept from the AW, W and B handshakes alone: the burst being written and its beats
      so far, the identifier a response is owed to, and totals since reset. */
  datatype Mon = Mon(
    burst: Option<Burst>, id: nat, beats: seq<WBeat>, owed: Option<nat>,
    begun: nat, sent: nat, acked: nat)

  const QUIET := Mon(None, 0, [], None, 0, 0, 0)

  /** The buffers hold every beat of the burst. */
  predicate Fits(w: nat, b: Burst)
    requires w > 0
  {
    b.len < Nstb(w)
  }

  predicate Compliant(w: nat, i: In) {
    |i.wdata| == w && i.awlen < 256
  }

  function Observe(m: Mon, r: Regs, i: In): Mon {
    var m1 := if i.awvalid && r.awready
              then m.(burst := Some(Burst(i.awaddr, i.awsize, i.awlen)), id := i.awid, beats := [],
                      begun := m.begun + 1) else m;
    var m2 := if r.bvalid && i.bready then m1.(owed := None, acked := m1.acked + 1) else m1;
    if i.wvalid && r.wready && m2.burst.Some? then
      if |m2.beats| == m2.burst.value.len
      then m2.(burst := None, beats := [], owed := Some(m2.id), sent := m2.sent + 1)
      else m2.(beats := m2.beats + [WBeat(i.wdata, i.wstrb)])
    else m2
  }

  /** The buffers hold these beats, as far as they reach. */
  predicate Collected(w: nat, r: Regs, beats: seq<WBeat>)
    requires w > 0 && |r.strb| == Nstb(w)
  {
    var n := if |beats| <= Nstb(w) then |beats| else Nstb(w);
    BeatsIn(w, r.data, r.strb, n) == beats[..n]
  }

  predicate Inv(w: nat, r: Regs, m: Mon)
    requires w > 0
  {
    && |r.data| == BUFF_SIZE && |r.strb| == Nstb(w)
    && r.awready == (r.state == Idle) && r.wready == (r.state == Data) && r.bvalid == (r.state == Response)
    && m.burst.Some? == (r.state == Data) && m.owed.Some? == (r.state == Response)
    && (r.state == Data ==>
        && m.burst.value == Burst(r.addr, r.size, r.len) && m.id == r.id
        && r.cnt == |m.beats| <= r.len < 256 && Collected(w, r, m.beats))
    && r.bresp == AXI_RESP_OK && (r.state == Response ==> m.owed.value == r.bid)
    && m.begun == m.sent + (if r.state == Data then 1 else 0)
    && m.sent == m.acked + (if r.state == Response then 1 else 0)
  }

  lemma BufferRoom(w: nat, n: nat)
    requires w > 0
    ensures n < Nstb(w) <==> (n + 1) * w <= BUFF_SIZE
  {
    var k := Nstb(w);
    assert BUFF_SIZE == k * w + BUFF_SIZE % w;
    if n < k { MulMono(n + 1, k, w); } else { MulMono(k + 1, n + 1, w); }
    assert (k + 1) * w == k * w + w;
  }

  lemma BeatsInAppend(w: nat, data: seq<byte>, strb: seq<nat>, n: nat, beat: WBeat)
    requires |beat.data| == w && n < |strb| && (n + 1) * w <= |data|
    ensures BeatsIn(w, Splice(data, n * w, beat.data), Splice(strb, n, [beat.strb]), n + 1)
            == BeatsIn(w, data, strb, n) + [beat]
  {
    var data' := Splice(data, n * w, beat.data);
    assert (n + 1) * w == n * w + w;
    forall k | 0 <= k < n ensures Slice(data', k * w, w) == Slice(data, k * w, w) {
      MulMono(k + 1, n, w);
      assert (k + 1) * w == k * w + w;
      SliceBefore(data, n * w, beat.data, k * w, w);
    }
    assert Slice(data', n * w, w) == beat.data;
  }

  /** A beat past the end of the buffers changes none of the beats they hold. */
  lemma BeatsInKept(w: nat, data: seq<byte>, strb: seq<nat>, n: nat, beat: WBeat)
    requires n >= |strb| && |strb| * w <= |data|
    ensures BeatsIn(w, Splice(data, n * w, beat.data), Splice(strb, n, [beat.strb]), |strb|)
            == BeatsIn(w, data, strb, |strb|)
  {
    var data' := Splice(data, n * w, beat.data);
    MulMono(|strb|, n, w);
    forall k | 0 <= k < |strb| ensures Slice(data', k * w, w) == Slice(data, k * w, w) {
      MulMono(k + 1, |strb|, w);
      assert (k + 1) * w == k * w + w;
      SliceAway(data, n * w, beat.data, k * w, w);
    }
  }

  lemma SliceAway(buf: seq<byte>, at: nat, d: seq<byte>, lo: nat, n: nat)
    requires lo + n <= at
    ensures Slice(Splice(buf, at, d), lo, n) == Slice(buf, lo, n)
  {
  }

  lemma CollectBeat(w: nat, r: Regs, i: In, beats: seq<WBeat>)
    requires w > 0 && |r.data| == BUFF_SIZE && |r.strb| == Nstb(w) && Compliant(w, i)
    requires r.state == Data && i.wvalid && r.cnt == |beats| && Collected(w, r, beats)
    ensures |Next(w, r, i).strb| == Nstb(w) && Collected(w, Next(w, r, i), beats + [WBeat(i.wdata, i.wstrb)])
  {
    var n, beat := |beats|, WBeat(i.wdata, i.wstrb);
    BufferRoom(w, n);
    assert beats[..n] == beats;
    if n < Nstb(w) {
      BeatsInAppend(w, r.data, r.strb, n, beat);
      assert (beats + [beat])[..n + 1] == beats + [beat];
    } else {
      BeatsInKept(w, r.data, r.strb, n, beat);
      assert (beats + [beat])[..Nstb(w)] == beats[..Nstb(w)];
    }
  }

  /** Over any valid/ready schedule: the buffers are the accepted beats, as far as they reach, and
      C_req_write fires exactly on the last accepted beat. Its loop over beats 0..AWLEN stays within
      the buffers, and then finds all accepted beats there, if and only if the burst fits. */
  lemma StepKeepsInv(w: nat, r: Regs, m: Mon, i: In)
    requires w > 0 && Inv(w, r, m) && Compliant(w, i)
    ensures Inv(w, Next(w, r, i), Observe(m, r, i))
    ensures Calls(r, i) <==> i.wvalid && r.wready && m.burst.Some? && |m.beats| == m.burst.value.len
    ensures Calls(r, i) ==> m.burst == Some(Burst(r.addr, r.size, r.len))
    ensures Calls(r, i) ==> (r.len + 1 <= |Next(w, r, i).strb| <==> Fits(w, m.burst.value))
    ensures Calls(r, i) && Fits(w, m.burst.value) ==>
              BeatsIn(w, Next(w, r, i).data, Next(w, r, i).strb, r.len + 1) == m.beats + [WBeat(i.wdata, i.wstrb)]
  {
    if r.state == Data && i.wvalid {
      var beats := m.beats + [WBeat(i.wdata, i.wstrb)];
      CollectBeat(w, r, i, m.beats);
      assert beats[..|beats|] == beats;
    }
  }

  /** In bytes: a burst fits when its beats, at full bus stride, fill no more than the data buffer. */
  lemma FitsInBytes(w: nat, b: Burst)
    requires w > 0
    ensures Fits(w, b) <==> (b.len + 1) * w <= BUFF_SIZE
  {
    BufferRoom(w, b.len);
  }

  /** So every full-width write within a 4 KB page fits, but a narrow one may not: 256 single bytes
      on a 64-byte bus run past the buffers. */
  lemma NarrowWriteOverruns()
    ensures var b := Burst(0, 0, 255); LegalSize(64, b) && WithinPage(b) && b.len < 256 && !Fits(64, b)
  {
    Pow2Values();
  }

  lemma FullWidthFits(w: nat, b: Burst)
    requires w > 0 && Pow2(b.size) == w && WithinPage(b)
    ensures Fits(w, b)
  {
    FitsInBytes(w, b);
  }

  /** A response stays up, with its identifier, until it is taken. */
  lemma ResponseHeld(w: nat, r: Regs, m: Mon, i: In)
    requires w > 0 && Inv(w, r, m) && r.bvalid && !i.bready
    ensures Next(w, r, i).bvalid && Next(w, r, i).bid == r.bid == m.owed.value && Next(w, r, i).bresp == AXI_RESP_OK
  {
  }

  function Exec(w: nat, ins: seq<In>): (Regs, Mon)
    requires w > 0
  {
    if ins == [] then (Reset(w), QUIET)
    else
      var (r, m) := Exec(w, ins[..|ins| - 1]);
      (Next(w, r, ins[|ins| - 1]), Observe(m, r, ins[|ins| - 1]))
  }

  predicate LegalRun(w: nat, ins: seq<In>) {
    forall k :: 0 <= k < |ins| ==> Compliant(w, ins[k])
  }

  /** How often C_req_write fired. */
  function Fired(w: nat, ins: seq<In>): nat
    requires w > 0
  {
    if ins == [] then 0
    else Fired(w, ins[..|ins| - 1]) + if Calls(Exec(w, ins[..|ins| - 1]).0, ins[|ins| - 1]) then 1 else 0
  }

  /** In every run: one handshake signal at a time, one C_req_write per AW, one B per C_req_write. */
  lemma {:induction false} EveryBurstOnce(w: nat, ins: seq<In>)
    requires w > 0 && LegalRun(w, ins)
    ensures var (r, m) := Exec(w, ins);
            && Inv(w, r, m)
            && (if r.awready then 1 else 0) + (if r.wready then 1 else 0) + (if r.bvalid then 1 else 0) == 1
            && m.begun == m.sent + (if r.wready then 1 else 0) && Fired(w, ins) == m.sent
            && m.sent == m.acked + (if r.bvalid then 1 else 0)
  {
    if ins != [] {
      EveryBurstOnce(w, ins[..|ins| - 1]);
      var (r, m) := Exec(w, ins[..|ins| - 1]);
      StepKeepsInv(w, r, m, ins[|ins| - 1]);
    }
  }
}
