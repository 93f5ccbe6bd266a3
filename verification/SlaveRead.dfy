/** axi4_s_r: forwards a device read to QEMU and streams the reply as one AXI R burst. */
module SlaveRead {
  import opened Bytes

  datatype State = Idle | Data | Response

  datatype Regs = Regs(
    state: State, id: nat, len: nat, cnt: nat, arready: bool,
    rdata: seq<byte>, rlast: bool, rvalid: bool, data: seq<byte>)

  /** The reply from the dispatcher, the AR channel and RREADY, as sampled before a clock edge. */
  datatype In = In(
    reqValid: bool, reqData: seq<byte>,
    arvalid: bool, arid: nat, araddr: nat, arsize: nat, arlen: nat, rready: bool)

  function Reset(w: nat): Regs {
    Regs(Idle, 0, 0, 0, true, seq(w, _ => 0xAA), false, false, Zeros(BUFF_SIZE))
  }

  function Next(w: nat, r: Regs, i: In): Regs {
    match r.state
    case Idle =>
      var r1 := r.(rvalid := false, rlast := false);
      if i.arvalid then r1.(arready := false, len := i.arlen, cnt := 0, id := i.arid, state := Data) else r1
    case Data =>
      if i.reqValid then r.(state := Response, data := i.reqData) else r
    case Response =>
      if !i.rready then r
      else
        var r1 := r.(rvalid := true, rdata := Slice(r.data, w * r.cnt, w));
        if r.cnt == r.len then r1.(rlast := true, state := Idle, arready := true)
        else r1.(cnt := (r.cnt + 1) % 256)
  }

  /** C_req_read fires at this edge. */
  predicate Calls(r: Regs, i: In) {
    i.arvalid && r.state == Idle
  }

  // ----- The module as clocked code ---------------------------------------------------------

  class Engine {
    const w: nat
    var state: State
    var id: nat
    var len: nat
    var cnt: nat
    var arready: bool
    var rdata: seq<byte>
    var rlast: bool
    var rvalid: bool
    var data: seq<byte>

    function View(): Regs
      reads this
    {
      Regs(state, id, len, cnt, arready, rdata, rlast, rvalid, data)
    }

    constructor (w: nat)
      ensures this.w == w && View() == Reset(w)
    {
      this.w := w;
      state, id, len, cnt, arready := Idle, 0, 0, 0, true;
      rdata, rlast, rvalid, data := seq(w, _ => 0xAA), false, false, Zeros(BUFF_SIZE);
    }

    method Clock(i: In) returns (request: bool)
      modifies this
      ensures View() == Next(w, old(View()), i)
      ensures request == Calls(old(View()), i)
    {
      request := i.arvalid && state == Idle;
      if state == Idle {
        rvalid, rlast := false, false;
        if i.arvalid {
          arready, len, cnt, id, state := false, i.arlen, 0, i.arid, Data;
        }
      } else if state == Data {
        if i.reqValid {
          state, data := Response, i.reqData;
        }
      } else if i.rready {
        rvalid := true;
        rdata := ReadLanes(data, w * cnt, w);
        if cnt == len {
          rlast, state, arready := true, Idle, true;
        } else {
          cnt := (cnt + 1) % 256;
        }
      }
    }
  }

  // ----- What the wires show ----------------------------------------------------------------

  /** An accepted read, as ARID and ARLEN carried it. */
  datatype Ask = Ask(id: nat, len: nat)

  datatype RBeat = RBeat(id: nat, data: seq<byte>, last: bool)

  /** Beats k..len of a burst served from a buffer. */
  function Beats(w: nat, id: nat, len: nat, buf: seq<byte>, k: nat): seq<RBeat>
    decreases len + 1 - k
  {
    if k > len then []
    else [RBeat(id, Slice(buf, w * k, w), k == len)] + Beats(w, id, len, buf, k + 1)
  }

  lemma {:induction false} BeatAt(w: nat, id: nat, len: nat, buf: seq<byte>, k: nat, i: nat)
    requires k + i <= len
    ensures |Beats(w, id, len, buf, k)| == len + 1 - k
    ensures Beats(w, id, len, buf, k)[i] == RBeat(id, Slice(buf, w * (k + i), w), k + i == len)
    decreases len + 1 - k
  {
    if i > 0 {
      BeatAt(w, id, len, buf, k + 1, i - 1);
    } else if k < len {
      BeatAt(w, id, len, buf, k + 1, 0);
    }
  }

  /** A record kept from the AR and R handshakes and the reply port alone: the reads accepted, the
      replies that arrived for them, the beats handed over, and how often a last beat met no RREADY. */
  datatype Mon = Mon(asks: seq<Ask>, replies: seq<seq<byte>>, taken: seq<RBeat>, refused: nat)

  const QUIET := Mon([], [], [], 0)

  function Observe(m: Mon, r: Regs, i: In): Mon {
    var m1 := if r.rvalid && i.rready then m.(taken := m.taken + [RBeat(r.id, r.rdata, r.rlast)]) else m;
    var m2 := if r.rvalid && r.rlast && !i.rready then m1.(refused := m1.refused + 1) else m1;
    var m3 := if i.reqValid && |m2.replies| < |m2.asks| then m2.(replies := m2.replies + [i.reqData]) else m2;
    if i.arvalid && r.arready then m3.(asks := m3.asks + [Ask(i.arid, i.arlen)]) else m3
  }

  /** What the replies oblige the engine to hand over: for each accepted read in turn, beats 0..ARLEN
      of its reply with its ARID, RLAST on the last only. */
  function Due(w: nat, asks: seq<Ask>, replies: seq<seq<byte>>): seq<RBeat>
    requires |replies| <= |asks|
  {
    if replies == [] then []
    else
      var n := |replies| - 1;
      Due(w, asks, replies[..n]) + Beats(w, asks[n].id, asks[n].len, replies[n], 0)
  }

  lemma {:induction false} DueStable(w: nat, asks: seq<Ask>, replies: seq<seq<byte>>, ask: Ask)
    requires |replies| <= |asks|
    ensures Due(w, asks + [ask], replies) == Due(w, asks, replies)
  {
    if replies != [] { DueStable(w, asks, replies[..|replies| - 1], ask); }
  }

  /** The beats the registers still hold. */
  function Owed(w: nat, r: Regs): seq<RBeat> {
    (if r.rvalid then [RBeat(r.id, r.rdata, r.rlast)] else [])
    + (if r.state == Response then Beats(w, r.id, r.len, r.data, r.cnt) else [])
  }

  predicate Shape(r: Regs) {
    && r.arready == (r.state == Idle)
    && (r.state == Idle ==> (r.rvalid ==> r.rlast))
    && (r.state == Data ==> !r.rvalid && !r.rlast && r.cnt == 0)
    && (r.state == Response ==> r.cnt <= r.len && !r.rlast && (r.rvalid ==> r.cnt > 0))
    && r.len < 256
  }

  /** The beats handed over and those held are the beats due, unless a last beat was refused; each
      refusal costs exactly one beat. */
  predicate Inv(w: nat, r: Regs, m: Mon) {
    && Shape(r)
    && |m.asks| == |m.replies| + (if r.state == Data then 1 else 0)
    && (r.state == Data ==> m.asks[|m.asks| - 1] == Ask(r.id, r.len))
    && |Due(w, m.asks, m.replies)| == |m.taken| + |Owed(w, r)| + m.refused
    && (m.refused == 0 ==> Due(w, m.asks, m.replies) == m.taken + Owed(w, r))
  }

  lemma ShapeKept(w: nat, r: Regs, i: In)
    requires Shape(r) && i.arlen < 256
    ensures Shape(Next(w, r, i))
  {
  }

  lemma ResponseKeepsInv(w: nat, r: Regs, m: Mon, i: In)
    requires Inv(w, r, m) && r.state == Response
    ensures Inv(w, Next(w, r, i), Observe(m, r, i))
  {
    if i.rready {
      var r', beat := Next(w, r, i), RBeat(r.id, Slice(r.data, w * r.cnt, w), r.cnt == r.len);
      var rest := Beats(w, r.id, r.len, r.data, r.cnt + 1);
      assert Beats(w, r.id, r.len, r.data, r.cnt) == [beat] + rest;
      assert Owed(w, r') == [beat] + rest;
      Handover(m.taken, if r.rvalid then [RBeat(r.id, r.rdata, r.rlast)] else [], [beat] + rest);
    }
  }

  lemma Handover(taken: seq<RBeat>, now: seq<RBeat>, rest: seq<RBeat>)
    ensures taken + (now + rest) == taken + now + rest
    ensures now == [] ==> taken + now == taken
  {
  }

  lemma DataKeepsInv(w: nat, r: Regs, m: Mon, i: In)
    requires Inv(w, r, m) && r.state == Data
    ensures Inv(w, Next(w, r, i), Observe(m, r, i))
  {
    if i.reqValid {
      var n := |m.replies|;
      assert (m.replies + [i.reqData])[..n] == m.replies;
      var more := Beats(w, r.id, r.len, i.reqData, 0);
      assert Owed(w, r) == [] && Owed(w, Next(w, r, i)) == more;
      assert m.taken + [] == m.taken;
    }
  }

  lemma IdleKeepsInv(w: nat, r: Regs, m: Mon, i: In)
    requires Inv(w, r, m) && r.state == Idle && i.arlen < 256
    ensures Inv(w, Next(w, r, i), Observe(m, r, i))
  {
    DueStable(w, m.asks, m.replies, Ask(i.arid, i.arlen));
    assert Owed(w, Next(w, r, i)) == [];
    assert Owed(w, r) == if r.rvalid then [RBeat(r.id, r.rdata, r.rlast)] else [];
  }

  lemma StepKeepsInv(w: nat, r: Regs, m: Mon, i: In)
    requires Inv(w, r, m) && i.arlen < 256
    ensures Inv(w, Next(w, r, i), Observe(m, r, i))
  {
    match r.state
    case Idle => IdleKeepsInv(w, r, m, i);
    case Data => DataKeepsInv(w, r, m, i);
    case Response => ResponseKeepsInv(w, r, m, i);
  }

  /** A stalled intermediate beat is held. */
  lemma StallHolds(w: nat, r: Regs, i: In)
    requires Shape(r) && r.rvalid && !i.rready && !r.rlast
    ensures var r' := Next(w, r, i);
            r'.rvalid && r'.rdata == r.rdata && r'.rlast == r.rlast && r'.id == r.id
  {
  }

  // ----- RVALID waits for RREADY ------------------------------------------------------------

  function After(w: nat, r: Regs, ins: seq<In>): Regs
    decreases |ins|
  {
    if ins == [] then r else After(w, Next(w, r, ins[0]), ins[1..])
  }

  /** A master that raises RREADY only when it sees RVALID, as section A3.2.1 lets it. */
  predicate WaitsForValid(w: nat, r: Regs, ins: seq<In>)
    decreases |ins|
  {
    ins == [] || ((ins[0].rready ==> r.rvalid) && WaitsForValid(w, Next(w, r, ins[0]), ins[1..]))
  }

  /** The engine in turn raises RVALID only when it sees RREADY, which that section forbids: with the
      data ready and no beat shown, the two wait for each other for ever. */
  lemma {:induction false} WaitsForever(w: nat, r: Regs, ins: seq<In>)
    requires r.state == Response && !r.rvalid && WaitsForValid(w, r, ins)
    ensures After(w, r, ins) == r
    decreases |ins|
  {
    if ins != [] { WaitsForever(w, r, ins[1..]); }
  }

  // ----- Over whole runs --------------------------------------------------------------------

  function Exec(w: nat, ins: seq<In>): (Regs, Mon) {
    if ins == [] then (Reset(w), QUIET)
    else
      var (r, m) := Exec(w, Front(ins));
      (Next(w, r, Last(ins)), Observe(m, r, Last(ins)))
  }

  predicate LegalRun(ins: seq<In>) {
    forall k :: 0 <= k < |ins| ==> ins[k].arlen < 256
  }

  /** How often C_req_read fired. */
  function Fired(w: nat, ins: seq<In>): nat {
    if ins == [] then 0 else Fired(w, Front(ins)) + if Calls(Exec(w, Front(ins)).0, Last(ins)) then 1 else 0
  }

  lemma {:induction false} InvAlways(w: nat, ins: seq<In>)
    requires LegalRun(ins)
    ensures var (r, m) := Exec(w, ins); Inv(w, r, m) && Fired(w, ins) == |m.asks|
  {
    if ins != [] {
      InvAlways(w, Front(ins));
      var (r, m) := Exec(w, Front(ins));
      StepKeepsInv(w, r, m, Last(ins));
    }
  }

  /** Over every run and every RREADY schedule: C_req_read fires once for each accepted read; the beats handed over, with those still held, are
      exactly the beats due for the accepted reads, in order, with their ARIDs, their ARLEN + 1 beats
      and RLAST on the last of each, if and only if RREADY was high whenever RVALID and RLAST were.
      With nothing held, the beats handed over alone are. */
  lemma BurstsDeliveredExactly(w: nat, ins: seq<In>)
    requires LegalRun(ins)
    ensures var (r, m) := Exec(w, ins);
            && Fired(w, ins) == |m.asks| == |m.replies| + (if r.state == Data then 1 else 0)
            && (Due(w, m.asks, m.replies) == m.taken + Owed(w, r) <==> m.refused == 0)
            && (r.arready && !r.rvalid ==> (Due(w, m.asks, m.replies) == m.taken <==> m.refused == 0))
  {
    InvAlways(w, ins);
    var (r, m) := Exec(w, ins);
    if r.arready && !r.rvalid { assert m.taken + Owed(w, r) == m.taken; }
  }

  // ----- A run that loses a beat ------------------------------------------------------------

  const IDLE_IN := In(false, [], false, 0, 0, 0, 0, false)

  lemma ExecSnoc(w: nat, ins: seq<In>, i: In)
    ensures var (r, m) := Exec(w, ins); Exec(w, ins + [i]) == (Next(w, r, i), Observe(m, r, i))
  {
    assert Front(ins + [i]) == ins;
  }

  /** The burst (id, len) with this reply has been streamed up to beat k, with RREADY always high. */
  predicate Streamed(id: nat, len: nat, data: seq<byte>, k: nat, r: Regs, m: Mon) {
    && m.asks == [Ask(id, len)] && m.replies == [data] && m.refused == 0 && r.id == id && r.len == len
    && (k <= len ==> r.state == Response && r.cnt == k && r.data == data)
    && (k == len + 1 ==> r.state == Idle && r.rvalid && r.rlast)
  }

  lemma StreamBegins(w: nat, id: nat, len: nat, data: seq<byte>) returns (ins: seq<In>)
    requires len < 256
    ensures LegalRun(ins) && Streamed(id, len, data, 0, Exec(w, ins).0, Exec(w, ins).1)
  {
    var ask, reply := IDLE_IN.(arvalid := true, arid := id, arlen := len), IDLE_IN.(reqValid := true, reqData := data);
    assert Exec(w, []) == (Reset(w), QUIET);
    ExecSnoc(w, [], ask);
    ExecSnoc(w, [] + [ask], reply);
    ins := [] + [ask] + [reply];
  }

  lemma StreamOn(w: nat, id: nat, len: nat, data: seq<byte>, k: nat, r: Regs, m: Mon)
    requires k <= len < 256 && Streamed(id, len, data, k, r, m) && Shape(r)
    ensures var i := IDLE_IN.(rready := true); Streamed(id, len, data, k + 1, Next(w, r, i), Observe(m, r, i))
  {
  }

  lemma {:induction false} StreamUpTo(w: nat, id: nat, len: nat, data: seq<byte>, k: nat) returns (ins: seq<In>)
    requires k <= len + 1 && len < 256
    ensures LegalRun(ins) && Streamed(id, len, data, k, Exec(w, ins).0, Exec(w, ins).1)
  {
    if k == 0 {
      ins := StreamBegins(w, id, len, data);
    } else {
      var front := StreamUpTo(w, id, len, data, k - 1);
      InvAlways(w, front);
      StreamOn(w, id, len, data, k - 1, Exec(w, front).0, Exec(w, front).1);
      ExecSnoc(w, front, IDLE_IN.(rready := true));
      ins := front + [IDLE_IN.(rready := true)];
    }
  }

  /** Whatever the burst, there is a run in which only its last beat meets no RREADY, after which the
      engine is at rest and every beat but that one has been handed over. */
  lemma LastBeatLost(w: nat, id: nat, len: nat, data: seq<byte>) returns (ins: seq<In>)
    requires len < 256
    ensures LegalRun(ins)
    ensures var (r, m) := Exec(w, ins);
            && r.arready && !r.rvalid && m.asks == [Ask(id, len)] && m.replies == [data] && m.refused == 1
            && m.taken + [RBeat(id, Slice(data, w * len, w), true)] == Beats(w, id, len, data, 0)
  {
    var front := StreamUpTo(w, id, len, data, len + 1);
    InvAlways(w, front);
    var (r, m) := Exec(w, front);
    ExecSnoc(w, front, IDLE_IN);
    ins := front + [IDLE_IN];
    BeatAt(w, id, len, data, 0, len);
    assert m.replies[..0] == [];
    assert Due(w, m.asks, m.replies) == [] + Beats(w, id, len, data, 0);
    assert Owed(w, r) == [RBeat(r.id, r.rdata, r.rlast)];
    assert (m.taken + Owed(w, r))[len] == RBeat(r.id, r.rdata, r.rlast);
  }
}
