/** axi4_m_w: turns an MMIO write request into one AXI write burst and one response to QEMU. */
module MasterWrite {
  import opened Bytes
  import opened Axi

  datatype State = Idle | Data | Response

  datatype Regs = Regs(
    state: State, addr: nat, size: nat, len: nat, cnt: nat, awvalid: bool,
    data: seq<byte>, strb: nat, wdata: seq<byte>, wstrb: nat, wlast: bool, wvalid: bool)

  /** A write request as the dispatcher presents it. */
  datatype Request = Request(addr: nat, len: nat, size: nat, strb: nat, data: seq<byte>)

  datatype In = In(reqValid: bool, req: Request, awready: bool, wready: bool, bvalid: bool)

  function Reset(w: nat): Regs {
    Regs(Idle, 0, 0, 0, 0, false, Zeros(BUFF_SIZE), 0, Zeros(w), 0, false, false)
  }

  function Next(w: nat, r: Regs, i: In): Regs {
    match r.state
    case Idle =>
      if i.reqValid
      then r.(state := Data, awvalid := true, cnt := 0, addr := i.req.addr, size := i.req.size % 8,
              len := i.req.len % 256, data := i.req.data, strb := i.req.strb % Pow2(w))
      else r
    case Data =>
      var r1 := r.(awvalid := r.awvalid && !i.awready, wvalid := true, wdata := Slice(r.data, w * r.cnt, w),
                   wstrb := if r.cnt == r.len then r.strb else Mask(0, w), wlast := r.cnt == r.len);
      if !i.wready then r1
      else if r.cnt == r.len then r1.(state := Response)
      else r1.(cnt := (r.cnt + 1) % 256)
    case Response =>
      var r1 := r.(wvalid := false, wlast := false);
      if i.bvalid then r1.(state := Idle) else r1
  }

  /** C_resp_write fires at every edge with BVALID high, whatever the state. */
  predicate Responds(r: Regs, i: In) {
    i.bvalid
  }

  // ----- The module as clocked code ---------------------------------------------------------

  class Engine {
    const w: nat
    var state: State
    var addr: nat
    var size: nat
    var len: nat
    var cnt: nat
    var awvalid: bool
    var data: seq<byte>
    var strb: nat
    var wdata: seq<byte>
    var wstrb: nat
    var wlast: bool
    var wvalid: bool

    function View(): Regs
      reads this
    {
      Regs(state, addr, size, len, cnt, awvalid, data, strb, wdata, wstrb, wlast, wvalid)
    }

    constructor (w: nat)
      ensures this.w == w && View() == Reset(w)
    {
      this.w := w;
      state, addr, size, len, cnt, awvalid := Idle, 0, 0, 0, 0, false;
      data, strb, wdata, wstrb, wlast, wvalid := Zeros(BUFF_SIZE), 0, Zeros(w), 0, false, false;
    }

    method Clock(i: In) returns (respond: bool)
      modifies this
      ensures View() == Next(w, old(View()), i)
      ensures respond == Responds(old(View()), i)
    {
      respond := i.bvalid;
      if state == Idle {
        if i.reqValid {
          state, awvalid, cnt := Data, true, 0;
          addr, size, len := i.req.addr, i.req.size % 8, i.req.len % 256;
          data, strb := i.req.data, i.req.strb % Pow2(w);
        }
      } else if state == Data {
        PresentBeat(i);
      } else {
        wvalid, wlast := false, false;
        if i.bvalid { state := Idle; }
      }
    }

    /** The WRITE_DATA branch. */
    method PresentBeat(i: In)
      requires state == Data
      modifies this
      ensures View() == Next(w, old(View()), i)
    {
      if i.awready { awvalid := false; }
      wvalid := true;
      wdata := ReadLanes(data, w * cnt, w);
      wstrb := if cnt == len then strb else Mask(0, w);
      wlast := cnt == len;
      if i.wready {
        if cnt == len { state := Response; } else { cnt := (cnt + 1) % 256; }
      }
    }
  }

  // ----- The burst a request asks for -------------------------------------------------------

  datatype MBeat = MBeat(data: seq<byte>, strb: nat, last: bool)

  function Wanted(w: nat, q: Request, k: nat): MBeat {
    MBeat(Slice(q.data, w * k, w), if k == q.len then q.strb % Pow2(w) else Mask(0, w), k == q.len)
  }

  predicate Fits(w: nat, q: Request) {
    q.size < 8 && q.len < 256 && (q.len + 1) * w <= BUFF_SIZE && |q.data| == BUFF_SIZE
  }

  /** The registers after a request has been taken in state r. */
  predicate Begun(w: nat, r: Regs, q: Request) {
    && r.state == Data && r.cnt == 0 && !r.wvalid && r.awvalid
    && r.addr == q.addr && r.size == q.size && r.len == q.len && r.data == q.data && r.strb == q.strb % Pow2(w)
  }

  /** The W handshakes over a sequence of edges. */
  function Sent(w: nat, r: Regs, ins: seq<In>): seq<MBeat>
    decreases |ins|
  {
    if ins == [] then []
    else (if r.wvalid && ins[0].wready then [MBeat(r.wdata, r.wstrb, r.wlast)] else [])
         + Sent(w, Next(w, r, ins[0]), ins[1..])
  }

  // ----- Which WREADY schedules the engine survives -----------------------------------------

  /** The edges spent in WRITE_DATA with `left` beats to go after the current one, and the first
      edge of WRITE_RESPONSE. */
  predicate Window(left: nat, ins: seq<In>) {
    && |ins| >= 2
    && if !ins[0].wready then Window(left, ins[1..])
       else if left == 0 then |ins| == 2
       else Window(left - 1, ins[1..])
  }

  /** WREADY high on every edge. */
  predicate AlwaysReady(ins: seq<In>) {
    forall t :: 0 <= t < |ins| ==> ins[t].wready
  }

  /** WREADY never high on two edges in a row. */
  predicate NeverTwice(ins: seq<In>) {
    forall t :: 0 <= t < |ins| - 1 ==> !(ins[t].wready && ins[t + 1].wready)
  }

  /** Which beat each handshake carries: `shown` is the index being presented, -1 before the first. */
  function Indices(len: nat, cnt: nat, shown: int, ins: seq<In>): seq<int>
    decreases |ins|
  {
    if ins == [] then []
    else
      (if shown >= 0 && ins[0].wready then [shown] else [])
      + if |ins| == 1 then []
        else Indices(len, if ins[0].wready && cnt < len then cnt + 1 else cnt, cnt, ins[1..])
  }

  function Range(k: nat, len: nat): seq<int>
    decreases len + 1 - k
  {
    if k > len then [] else [k] + Range(k + 1, len)
  }

  /** No handshake can carry a beat older than the one shown and the one counted. */
  lemma {:induction false} IndicesGrow(len: nat, cnt: nat, shown: int, ins: seq<In>, k: nat)
    requires k <= cnt && (shown < 0 || k <= shown)
    ensures forall t :: 0 <= t < |Indices(len, cnt, shown, ins)| ==> Indices(len, cnt, shown, ins)[t] >= k
    decreases |ins|
  {
    if |ins| > 1 {
      IndicesGrow(len, if ins[0].wready && cnt < len then cnt + 1 else cnt, cnt, ins[1..], k);
    }
  }

  lemma AlwaysReadySplit(ins: seq<In>)
    requires |ins| >= 1
    ensures AlwaysReady(ins) <==> ins[0].wready && AlwaysReady(ins[1..])
  {
    var rest := ins[1..];
    if ins[0].wready && AlwaysReady(rest) {
      forall t | 0 <= t < |ins| ensures ins[t].wready { if t > 0 { assert rest[t - 1].wready; } }
    }
    if AlwaysReady(ins) {
      forall t | 0 <= t < |rest| ensures rest[t].wready { assert ins[t + 1].wready; }
    }
  }

  /** The beat before the counter is on show and not yet taken: every edge must be ready. */
  lemma {:induction false} EagerPhase(len: nat, cnt: nat, ins: seq<In>)
    requires 0 < cnt <= len && Window(len - cnt, ins)
    ensures Indices(len, cnt, cnt - 1, ins) == Range(cnt - 1, len) <==> AlwaysReady(ins)
    decreases |ins|
  {
    AlwaysReadySplit(ins);
    if !ins[0].wready {
      IndicesGrow(len, cnt, cnt, ins[1..], cnt);
      assert Range(cnt - 1, len)[0] == cnt - 1;
    } else {
      EagerTake(len, cnt, ins);
      if cnt == len {
        LastShown(len, ins[1..]);
        AlwaysReadySplit(ins[1..]);
      } else {
        EagerPhase(len, cnt + 1, ins[1..]);
      }
    }
  }

  /** A ready edge takes the beat before the counter. */
  lemma EagerTake(len: nat, cnt: nat, ins: seq<In>)
    requires 0 < cnt <= len && |ins| >= 2 && ins[0].wready
    ensures Indices(len, cnt, cnt - 1, ins) == Range(cnt - 1, len)
            <==> Indices(len, if cnt < len then cnt + 1 else cnt, cnt, ins[1..]) == Range(cnt, len)
  {
    var tail := Indices(len, if cnt < len then cnt + 1 else cnt, cnt, ins[1..]);
    assert Indices(len, cnt, cnt - 1, ins) == [cnt - 1] + tail;
    assert Range(cnt - 1, len) == [cnt - 1] + Range(cnt, len);
    SameTail(cnt - 1, tail, Range(cnt, len));
  }

  lemma SameTail(x: int, s: seq<int>, t: seq<int>)
    ensures [x] + s == [x] + t <==> s == t
  {
    if [x] + s == [x] + t { assert s == ([x] + s)[1..] == ([x] + t)[1..] == t; }
  }

  lemma LastShown(len: nat, ins: seq<In>)
    requires |ins| == 1
    ensures Indices(len, len, len, ins) == (if ins[0].wready then [len] else [])
    ensures Range(len, len) == [len]
  {
  }

  /** The counted beat is on show and not yet taken. */
  lemma {:induction false} PolitePhase(len: nat, cnt: nat, ins: seq<In>)
    requires cnt <= len && Window(len - cnt, ins)
    ensures Indices(len, cnt, cnt, ins) == Range(cnt, len) <==> NeverTwice(ins)
    decreases |ins|, 0
  {
    var rest := ins[1..];
    NeverTwiceSplit(ins);
    if !ins[0].wready {
      PolitePhase(len, cnt, rest);
    } else {
      StalePhase(len, cnt, rest);
      assert Indices(len, cnt, cnt, ins)[1..]
             == Indices(len, if cnt < len then cnt + 1 else cnt, cnt, rest);
      assert Range(cnt, len)[1..] == Range(cnt + 1, len);
    }
  }

  /** Beat cnt was just taken but is still on show: the next edge must not be ready. */
  lemma {:induction false} StalePhase(len: nat, cnt: nat, ins: seq<In>)
    requires cnt <= len
    requires if cnt == len then |ins| == 1 else Window(len - cnt - 1, ins)
    ensures Indices(len, if cnt < len then cnt + 1 else cnt, cnt, ins) == Range(cnt + 1, len)
            <==> !ins[0].wready && NeverTwice(ins)
    decreases |ins|, 1
  {
    if ins[0].wready {
      if cnt < len { assert Range(cnt + 1, len)[0] == cnt + 1; }
    } else if cnt < len {
      NeverTwiceSplit(ins);
      PolitePhase(len, cnt + 1, ins[1..]);
    }
  }

  lemma NeverTwiceSplit(ins: seq<In>)
    requires |ins| >= 2
    ensures NeverTwice(ins) <==> !(ins[0].wready && ins[1].wready) && NeverTwice(ins[1..])
  {
    var rest := ins[1..];
    assert forall t :: 0 <= t < |rest| ==> rest[t] == ins[t + 1];
    if !(ins[0].wready && ins[1].wready) && NeverTwice(rest) {
      forall t | 0 <= t < |ins| - 1 ensures !(ins[t].wready && ins[t + 1].wready) {
        if t > 0 { assert !(rest[t - 1].wready && rest[t].wready); }
      }
    }
  }

  lemma ReadyFirst(len: nat, ins: seq<In>)
    requires Window(len, ins) && ins[0].wready
    ensures Indices(len, 0, -1, ins) == Range(0, len) <==> AlwaysReady(ins)
  {
    AlwaysReadySplit(ins);
    if len == 0 {
      LastShown(0, ins[1..]);
      AlwaysReadySplit(ins[1..]);
    } else {
      EagerPhase(len, 1, ins[1..]);
    }
  }

  lemma IndicesExact(len: nat, ins: seq<In>)
    requires Window(len, ins)
    ensures Indices(len, 0, -1, ins) == Range(0, len)
            <==> AlwaysReady(ins) || (!ins[0].wready && NeverTwice(ins))
  {
    if ins[0].wready {
      ReadyFirst(len, ins);
    } else {
      AlwaysReadySplit(ins);
      NeverTwiceSplit(ins);
      PolitePhase(len, 0, ins[1..]);
    }
  }

  // ----- From indices to beats --------------------------------------------------------------

  function Carried(w: nat, q: Request, idx: seq<int>): (r: seq<MBeat>)
    requires forall t :: 0 <= t < |idx| ==> idx[t] >= 0
    ensures |r| == |idx|
  {
    seq(|idx|, t requires 0 <= t < |idx| => Wanted(w, q, idx[t]))
  }

  /** In state r, mid-burst for request q, beat `shown` is the one presented (-1: none yet). */
  predicate Showing(w: nat, q: Request, r: Regs, shown: int) {
    && r.data == q.data && r.strb == q.strb % Pow2(w) && r.len == q.len < 256 && r.cnt <= r.len
    && r.wvalid == (shown >= 0)
    && (shown >= 0 ==> MBeat(r.wdata, r.wstrb, r.wlast) == Wanted(w, q, shown))
  }

  lemma ShowNext(w: nat, q: Request, r: Regs, shown: int, i: In)
    requires Showing(w, q, r, shown) && r.state == Data
    ensures Showing(w, q, Next(w, r, i), r.cnt)
    ensures Next(w, r, i).cnt == if i.wready && r.cnt < r.len then r.cnt + 1 else r.cnt
  {
  }

  lemma {:induction false} SentCarries(w: nat, q: Request, r: Regs, shown: int, ins: seq<In>)
    requires Showing(w, q, r, shown)
    requires (r.state == Data && Window(r.len - r.cnt, ins)) || (r.state == Response && |ins| == 1)
    ensures forall t :: 0 <= t < |Indices(q.len, r.cnt, shown, ins)| ==> Indices(q.len, r.cnt, shown, ins)[t] >= 0
    ensures Sent(w, r, ins) == Carried(w, q, Indices(q.len, r.cnt, shown, ins))
    decreases |ins|
  {
    IndicesGrow(q.len, r.cnt, shown, ins, 0);
    if r.state == Data {
      ShowNext(w, q, r, shown, ins[0]);
      var now := if shown >= 0 && ins[0].wready then [shown] else [];
      var r', rest := Next(w, r, ins[0]), ins[1..];
      SentCarries(w, q, r', r.cnt, rest);
      CarriedSplit(w, q, now, Indices(q.len, r'.cnt, r.cnt, rest));
      assert Sent(w, r, ins) == Carried(w, q, now) + Sent(w, r', rest);
    } else {
      assert Sent(w, Next(w, r, ins[0]), ins[1..]) == [];
    }
  }

  lemma CarriedSplit(w: nat, q: Request, a: seq<int>, b: seq<int>)
    requires forall t :: 0 <= t < |a| ==> a[t] >= 0
    requires forall t :: 0 <= t < |b| ==> b[t] >= 0
    ensures forall t :: 0 <= t < |a + b| ==> (a + b)[t] >= 0
    ensures Carried(w, q, a + b) == Carried(w, q, a) + Carried(w, q, b)
  {
  }

  /** The first byte of beat k of this request is k. */
  function Numbered(w: nat, len: nat): Request
    requires w > 0
  {
    Request(0, len, 0, 0, seq(BUFF_SIZE, x requires 0 <= x => (x / w % 256) as byte))
  }

  lemma NumberedBeats(w: nat, len: nat, k: nat)
    requires w > 0 && k <= len < 256 && (len + 1) * w <= BUFF_SIZE
    ensures Wanted(w, Numbered(w, len), k).data[0] == k
  {
    MulMono(k + 1, len + 1, w);
    assert (k + 1) * w == w * k + w;
    DivModUnique(w * k, w, k, 0);
  }

  lemma {:induction false} IndicesBounded(len: nat, cnt: nat, shown: int, ins: seq<In>)
    requires cnt <= len && -1 <= shown <= len
    ensures forall t :: 0 <= t < |Indices(len, cnt, shown, ins)| ==> 0 <= Indices(len, cnt, shown, ins)[t] <= len
    decreases |ins|
  {
    if |ins| > 1 {
      IndicesBounded(len, if ins[0].wready && cnt < len then cnt + 1 else cnt, cnt, ins[1..]);
    }
  }

  lemma {:induction false} RangeBounded(k: nat, len: nat)
    ensures forall t :: 0 <= t < |Range(k, len)| ==> 0 <= Range(k, len)[t] <= len
    decreases len + 1 - k
  {
    if k <= len { RangeBounded(k + 1, len); }
  }

  lemma CarriedInjective(w: nat, len: nat, a: seq<int>, b: seq<int>)
    requires w > 0 && len < 256 && (len + 1) * w <= BUFF_SIZE
    requires forall t :: 0 <= t < |a| ==> 0 <= a[t] <= len
    requires forall t :: 0 <= t < |b| ==> 0 <= b[t] <= len
    requires Carried(w, Numbered(w, len), a) == Carried(w, Numbered(w, len), b)
    ensures a == b
  {
    var q := Numbered(w, len);
    forall t | 0 <= t < |a| ensures a[t] == b[t] {
      assert Carried(w, q, a)[t] == Carried(w, q, b)[t];
      NumberedBeats(w, len, a[t]);
      NumberedBeats(w, len, b[t]);
    }
  }

  function WantedBurst(w: nat, q: Request): seq<MBeat> {
    RangeBounded(0, q.len);
    Carried(w, q, Range(0, q.len))
  }

  /** Over the edges of one burst, the beats handed over are beats 0..len in order, each once, with
      full strobes and no WLAST before the last, for every payload, if and only if WREADY is high on
      every edge, or low on the first and never high on two edges in a row. */
  lemma WriteBurstExact(w: nat, len: nat, ins: seq<In>)
    requires w > 0 && len < 256 && (len + 1) * w <= BUFF_SIZE && Window(len, ins)
    ensures (forall q: Request, r: Regs | Fits(w, q) && q.len == len && Begun(w, r, q) ::
               Sent(w, r, ins) == WantedBurst(w, q))
            <==> AlwaysReady(ins) || (!ins[0].wready && NeverTwice(ins))
  {
    IndicesExact(len, ins);
    var idx := Indices(len, 0, -1, ins);
    forall q: Request, r: Regs | Fits(w, q) && q.len == len && Begun(w, r, q)
      ensures idx == Range(0, len) ==> Sent(w, r, ins) == WantedBurst(w, q)
    {
      SentCarries(w, q, r, -1, ins);
    }
    if idx != Range(0, len) {
      var q := Numbered(w, len);
      var r := Regs(Data, q.addr, q.size, len, 0, true, q.data, q.strb % Pow2(w), [], 0, false, false);
      SentCarries(w, q, r, -1, ins);
      IndicesBounded(len, 0, -1, ins);
      RangeBounded(0, len);
      if Sent(w, r, ins) == WantedBurst(w, q) {
        CarriedInjective(w, len, idx, Range(0, len));
      }
      assert Begun(w, r, q) && Fits(w, q);
    }
  }

  // ----- The write address ------------------------------------------------------------------

  function Exec(w: nat, r: Regs, ins: seq<In>): Regs
    decreases |ins|
  {
    if ins == [] then r else Exec(w, Next(w, r, ins[0]), ins[1..])
  }

  function AddressHandshakes(w: nat, r: Regs, ins: seq<In>): nat
    decreases |ins|
  {
    if ins == [] then 0
    else (if r.awvalid && ins[0].awready then 1 else 0) + AddressHandshakes(w, Next(w, r, ins[0]), ins[1..])
  }

  /** The address is handed over exactly once and AWVALID drops, if and only if AWREADY is seen on
      an edge in WRITE_DATA. */
  lemma {:induction false} AddressOnce(w: nat, r: Regs, ins: seq<In>)
    requires r.state == Data && r.awvalid && r.cnt <= r.len < 256 && Window(r.len - r.cnt, ins)
    ensures AddressHandshakes(w, r, ins) == 1 && !Exec(w, r, ins).awvalid
            <==> exists t :: 0 <= t < |ins| - 1 && ins[t].awready
    decreases |ins|
  {
    var r', rest := Next(w, r, ins[0]), ins[1..];
    assert forall t :: 0 <= t < |rest| ==> rest[t] == ins[t + 1];
    if ins[0].awready {
      AddressDone(w, r', rest);
    } else if r'.state == Data {
      AddressOnce(w, r', rest);
      if exists t :: 0 <= t < |ins| - 1 && ins[t].awready {
        var t :| 0 <= t < |ins| - 1 && ins[t].awready;
        assert rest[t - 1].awready;
      }
      if exists t :: 0 <= t < |rest| - 1 && rest[t].awready {
        var t :| 0 <= t < |rest| - 1 && rest[t].awready;
        assert ins[t + 1].awready;
      }
    } else {
      assert Exec(w, Next(w, r', rest[0]), rest[1..]).awvalid;
    }
  }

  lemma {:induction false} AddressDone(w: nat, r: Regs, ins: seq<In>)
    requires !r.awvalid && ((r.state == Data && r.cnt <= r.len < 256 && Window(r.len - r.cnt, ins))
                            || (r.state == Response && |ins| == 1))
    ensures AddressHandshakes(w, r, ins) == 0 && !Exec(w, r, ins).awvalid
    decreases |ins|
  {
    if r.state == Data {
      AddressDone(w, Next(w, r, ins[0]), ins[1..]);
    } else {
      assert Exec(w, Next(w, r, ins[0]), ins[1..]) == Next(w, r, ins[0]);
    }
  }

  /** Missed there, AWVALID stays up until the next request, so a later AWREADY repeats it. */
  lemma {:induction false} AddressStuck(w: nat, r: Regs, ins: seq<In>)
    requires r.state != Data && r.awvalid && forall t :: 0 <= t < |ins| ==> !ins[t].reqValid
    ensures Exec(w, r, ins).awvalid
    ensures (forall t :: 0 <= t < |ins| ==> ins[t].awready) ==> AddressHandshakes(w, r, ins) == |ins|
    decreases |ins|
  {
    if ins != [] {
      var rest := ins[1..];
      assert forall t :: 0 <= t < |rest| ==> rest[t] == ins[t + 1];
      AddressStuck(w, Next(w, r, ins[0]), rest);
    }
  }

  // ----- A burst against a slave ------------------------------------------------------------

  /** A record kept from the request port and the AW/W/B wires alone: the request being served, the
      address and beats the slave took, whether it took one at the last edge, whether WREADY was high
      on the first edge in WRITE_DATA, and totals. */
  datatype Mon = Mon(
    want: Option<Request>, aw: Option<Burst>, beats: seq<MBeat>, took: bool, eager: bool,
    asked: nat, addressed: nat, answered: nat)

  const QUIET := Mon(None, None, [], false, false, 0, 0, 0)

  /** While a beat is shown: a slave that was ready on the burst's first edge stays ready, any other is
      not ready on the edge after taking a beat. Nothing is asked of WREADY between bursts. */
  predicate ReadyRule(r: Regs, m: Mon, i: In) {
    r.wvalid ==> if m.eager then i.wready else i.wready ==> !m.took
  }

  /** B only after the address and all beats; WREADY by the rule; AWREADY no later than the last edge
      in WRITE_DATA. */
  predicate Compliant(r: Regs, m: Mon, i: In) {
    && (i.bvalid ==> m.aw.Some? && |m.beats| == m.aw.value.len + 1)
    && ReadyRule(r, m, i)
    && (r.state == Data && r.cnt == r.len && i.wready && r.awvalid ==> i.awready)
  }

  function Observe(m: Mon, r: Regs, i: In): Mon {
    var m1 := if r.state == Idle && i.reqValid then m.(want := Some(i.req), asked := m.asked + 1) else m;
    var m2 := if r.awvalid && i.awready
              then m1.(aw := Some(Burst(r.addr, r.size, r.len)), addressed := m1.addressed + 1) else m1;
    var m3 := if r.wvalid && i.wready
              then m2.(beats := m2.beats + [MBeat(r.wdata, r.wstrb, r.wlast)], took := true)
              else m2.(took := false);
    var m4 := if r.state == Data && !r.wvalid then m3.(eager := i.wready) else m3;
    if i.bvalid then m4.(want := None, aw := None, beats := [], answered := m4.answered + 1) else m4
  }

  predicate Inv(w: nat, r: Regs, m: Mon) {
    && (r.state == Idle ==> !r.awvalid && !r.wvalid && m.want == None && m.aw == None && m.beats == [])
    && (r.state != Idle ==>
        && m.want.Some? && Serving(w, r, m.want.value)
        && (r.awvalid <==> m.aw == None) && (m.aw.Some? ==> m.aw.value == Burst(r.addr, r.size, r.len))
        && (r.state == Response ==> !r.awvalid)
        && |m.beats| == Handed(r, m)
        && (forall k :: 0 <= k < |m.beats| ==> m.beats[k] == Wanted(w, m.want.value, k))
        && (r.wvalid ==> MBeat(r.wdata, r.wstrb, r.wlast) == Wanted(w, m.want.value, Presented(r, m))))
    && (r.state == Data && !r.wvalid ==> r.cnt == 0)
    && (r.state == Data && r.wvalid && (m.eager || m.took) ==> r.cnt > 0)
    && (r.state == Response && !m.eager && r.wvalid ==> m.took)
    && m.asked == m.answered + (if r.state == Idle then 0 else 1)
    && m.addressed == m.answered + (if m.aw.Some? then 1 else 0)
  }

  predicate Serving(w: nat, r: Regs, q: Request) {
    && Fits(w, q) && r.addr == q.addr && r.size == q.size && r.len == q.len && r.data == q.data
    && r.strb == q.strb % Pow2(w) && r.cnt <= r.len && (r.state == Response ==> r.cnt == r.len)
  }

  /** How many beats the slave has taken. */
  function Handed(r: Regs, m: Mon): int {
    if r.state == Data then (if m.eager && r.wvalid then r.cnt - 1 else r.cnt)
    else if m.eager && r.wvalid then r.len else r.len + 1
  }

  /** Which beat is on the bus. */
  function Presented(r: Regs, m: Mon): nat {
    if r.state == Data && r.cnt > 0 && (m.eager || m.took) then r.cnt - 1 else r.cnt
  }

  lemma FirstEdgeKeepsInv(w: nat, r: Regs, m: Mon, i: In)
    requires Inv(w, r, m) && Compliant(r, m, i) && r.state == Data && !r.wvalid
    ensures Inv(w, Next(w, r, i), Observe(m, r, i))
  {
  }

  lemma EagerDataKeepsInv(w: nat, r: Regs, m: Mon, i: In)
    requires Inv(w, r, m) && Compliant(r, m, i) && r.state == Data && r.wvalid && m.eager
    ensures Inv(w, Next(w, r, i), Observe(m, r, i))
  {
    assert MBeat(r.wdata, r.wstrb, r.wlast) == Wanted(w, m.want.value, |m.beats|);
  }

  lemma PoliteDataKeepsInv(w: nat, r: Regs, m: Mon, i: In)
    requires Inv(w, r, m) && Compliant(r, m, i) && r.state == Data && r.wvalid && !m.eager
    ensures Inv(w, Next(w, r, i), Observe(m, r, i))
  {
    if i.wready { assert MBeat(r.wdata, r.wstrb, r.wlast) == Wanted(w, m.want.value, |m.beats|); }
  }

  lemma OthersKeepInv(w: nat, r: Regs, m: Mon, i: In)
    requires Inv(w, r, m) && Compliant(r, m, i) && r.state != Data
    requires r.state == Idle && i.reqValid ==> Fits(w, i.req)
    ensures Inv(w, Next(w, r, i), Observe(m, r, i))
  {
    if r.wvalid && i.wready {
      assert MBeat(r.wdata, r.wstrb, r.wlast) == Wanted(w, m.want.value, |m.beats|);
    }
  }

  /** Each edge keeps the engine in step with the wires; a response is only sent when the slave has
      the request's address once and exactly its beats, in order. */
  lemma StepKeepsInv(w: nat, r: Regs, m: Mon, i: In)
    requires Inv(w, r, m) && Compliant(r, m, i)
    requires r.state == Idle && i.reqValid ==> Fits(w, i.req)
    ensures Inv(w, Next(w, r, i), Observe(m, r, i))
    ensures r.awvalid && i.awready ==> m.aw == None
    ensures Responds(r, i) ==>
              && r.state == Response && m.want.Some? && m.aw == Some(Burst(r.addr, r.size, r.len))
              && |m.beats| == r.len + 1
              && forall k :: 0 <= k <= r.len ==> m.beats[k] == Wanted(w, m.want.value, k)
  {
    if r.state != Data { OthersKeepInv(w, r, m, i); }
    else if !r.wvalid { FirstEdgeKeepsInv(w, r, m, i); }
    else if m.eager { EagerDataKeepsInv(w, r, m, i); }
    else { PoliteDataKeepsInv(w, r, m, i); }
  }

  // ----- The rule is the exact schedule -----------------------------------------------------

  predicate RuleHolds(w: nat, r: Regs, m: Mon, ins: seq<In>)
    decreases |ins|
  {
    ins == [] || (ReadyRule(r, m, ins[0]) && RuleHolds(w, Next(w, r, ins[0]), Observe(m, r, ins[0]), ins[1..]))
  }

  lemma {:induction false} EagerRule(w: nat, r: Regs, m: Mon, ins: seq<In>)
    requires r.wvalid && m.eager && InWindow(r, ins)
    ensures RuleHolds(w, r, m, ins) <==> AlwaysReady(ins)
    decreases |ins|
  {
    AlwaysReadySplit(ins);
    if r.state == Data && ins[0].wready { EagerRule(w, Next(w, r, ins[0]), Observe(m, r, ins[0]), ins[1..]); }
  }

  lemma {:induction false} PoliteRule(w: nat, r: Regs, m: Mon, ins: seq<In>)
    requires r.wvalid && !m.eager && InWindow(r, ins)
    ensures RuleHolds(w, r, m, ins) <==> NeverTwice(ins) && !(m.took && ins[0].wready)
    decreases |ins|
  {
    if r.state == Data {
      NeverTwiceSplit(ins);
      PoliteRule(w, Next(w, r, ins[0]), Observe(m, r, ins[0]), ins[1..]);
    }
  }

  /** The rest of a burst's edges, up to the first of WRITE_RESPONSE. */
  predicate InWindow(r: Regs, ins: seq<In>) {
    (r.state == Data && r.cnt <= r.len < 256 && Window(r.len - r.cnt, ins)) || (r.state == Response && |ins| == 1)
  }

  /** Over the edges of one burst, the rule asked of a compliant slave holds if and only if the WREADY
      schedule is one of those under which every beat is handed over once, in order. */
  lemma RuleIsExact(w: nat, q: Request, r: Regs, m: Mon, ins: seq<In>)
    requires Fits(w, q) && Begun(w, r, q) && Window(q.len, ins)
    ensures RuleHolds(w, r, m, ins) <==> AlwaysReady(ins) || (!ins[0].wready && NeverTwice(ins))
  {
    AlwaysReadySplit(ins);
    NeverTwiceSplit(ins);
    var r', m' := Next(w, r, ins[0]), Observe(m, r, ins[0]);
    if ins[0].wready { EagerRule(w, r', m', ins[1..]); } else { PoliteRule(w, r', m', ins[1..]); }
  }

  // ----- Over whole runs --------------------------------------------------------------------

  /** A run of the engine from reset, with its record. */
  function Run(w: nat, ins: seq<In>): (Regs, Mon) {
    if ins == [] then (Reset(w), QUIET)
    else
      var (r, m) := Run(w, ins[..|ins| - 1]);
      (Next(w, r, ins[|ins| - 1]), Observe(m, r, ins[|ins| - 1]))
  }

  predicate LegalRun(w: nat, ins: seq<In>) {
    ins == [] ||
    (var (r, m) := Run(w, ins[..|ins| - 1]);
     var i := ins[|ins| - 1];
     && LegalRun(w, ins[..|ins| - 1]) && Compliant(r, m, i)
     && (r.state == Idle && i.reqValid ==> Fits(w, i.req)))
  }

  /** How often C_resp_write fired. */
  function Fired(w: nat, ins: seq<In>): nat {
    if ins == [] then 0
    else Fired(w, ins[..|ins| - 1]) + if Responds(Run(w, ins[..|ins| - 1]).0, ins[|ins| - 1]) then 1 else 0
  }

  /** In every run against a compliant slave, every request of any length that fits the buffer has
      been addressed and answered exactly once, except the one being served, and C_resp_write fired
      once for each answer. */
  lemma {:induction false} EveryRequestOnce(w: nat, ins: seq<In>)
    requires LegalRun(w, ins)
    ensures var (r, m) := Run(w, ins);
            && Inv(w, r, m)
            && m.asked == m.answered + (if r.state == Idle then 0 else 1)
            && m.answered <= m.addressed <= m.asked && Fired(w, ins) == m.answered
  {
    if ins != [] {
      EveryRequestOnce(w, ins[..|ins| - 1]);
      var (r, m) := Run(w, ins[..|ins| - 1]);
      StepKeepsInv(w, r, m, ins[|ins| - 1]);
    }
  }
}
