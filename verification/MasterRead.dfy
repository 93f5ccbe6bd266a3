/** axi4_m_r: turns an MMIO read request into one AXI read burst and one response to QEMU. */
module MasterRead {
  import opened Bytes
  import opened Axi

  datatype State = Idle | Data

  /** The r_* registers. */
  datatype Regs = Regs(
    state: State, addr: nat, size: nat, len: nat, cnt: nat,
    arvalid: bool, rready: bool, data: seq<byte>)

  /** The request port, and the AR and R channel inputs, as sampled before a clock edge. */
  datatype In = In(
    reqValid: bool, reqAddr: nat, reqLen: nat, reqSize: nat,
    arready: bool, rvalid: bool, rlast: bool, rdata: seq<byte>)

  const RESET := Regs(Idle, 0, 0, 0, 0, false, false, Zeros(BUFF_SIZE))

  function Next(w: nat, r: Regs, i: In): Regs {
    match r.state
    case Idle =>
      if i.reqValid
      then r.(state := Data, arvalid := true, rready := true, cnt := 0,
              addr := i.reqAddr, size := i.reqSize % 8, len := i.reqLen % 256)
      else r
    case Data =>
      var r1 := if i.arready then r.(arvalid := false) else r;
      if !i.rvalid then r1
      else
        var r2 := r1.(data := Splice(r.data, r.cnt * w, i.rdata));
        if i.rlast then r2.(rready := false, state := Idle) else r2.(cnt := (r.cnt + 1) % 256)
  }

  /** C_resp_read fires at this edge, with the address register and the updated buffer. */
  predicate Responds(r: Regs, i: In) {
    r.state == Data && i.rvalid && i.rlast
  }

  // ----- The module as clocked code ---------------------------------------------------------

  class Engine {
    const w: nat
    var state: State
    var addr: nat
    var size: nat
    var len: nat
    var cnt: nat
    var arvalid: bool
    var rready: bool
    const data: array<byte>

    function View(): Regs
      reads this, data
    {
      Regs(state, addr, size, len, cnt, arvalid, rready, data[..])
    }

    constructor (w: nat)
      ensures this.w == w && View() == RESET && fresh(data)
    {
      this.w := w;
      state, addr, size, len, cnt := Idle, 0, 0, 0, 0;
      arvalid, rready := false, false;
      data := new byte[BUFF_SIZE](_ => 0);
    }

    /** One clock edge; the result says whether C_resp_read is called. */
    method Clock(i: In) returns (respond: bool)
      requires |i.rdata| == w
      modifies this, data
      ensures View() == Next(w, old(View()), i)
      ensures respond == Responds(old(View()), i)
    {
      respond := state == Data && i.rlast && i.rvalid;
      if state == Idle {
        if i.reqValid {
          state := Data;
          arvalid := true;
          rready := true;
          cnt := 0;
          addr, size, len := i.reqAddr, i.reqSize % 8, i.reqLen % 256;
        }
      } else {
        if i.arready { arvalid := false; }
        if i.rvalid {
          WriteLanes(data, cnt * w, i.rdata);
          if !i.rlast {
            cnt := (cnt + 1) % 256;
          } else {
            rready := false;
            state := Idle;
          }
        }
      }
    }
  }

  // ----- What the wires show ----------------------------------------------------------------

  /** A record kept from the request port and the AR/R handshakes alone: the request being served,
      the burst the slave accepted, the beats it returned, and totals since reset. */
  datatype Mon = Mon(
    want: Option<Burst>, ar: Option<Burst>, beats: seq<seq<byte>>,
    asked: nat, accepted: nat, answered: nat)

  const QUIET := Mon(None, None, [], 0, 0, 0)

  /** The slave's side of section A3.3.1: data only after the address, len+1 beats, RLAST on the last. */
  predicate Compliant(w: nat, m: Mon, i: In) {
    && |i.rdata| == w
    && (i.rvalid ==> m.ar.Some? && (i.rlast <==> |m.beats| == m.ar.value.len))
  }

  /** The request port carries bursts the buffer can hold. */
  predicate Fits(w: nat, b: Burst) {
    b.size < 8 && b.len < 256 && (b.len + 1) * w <= BUFF_SIZE
  }

  function Observe(w: nat, m: Mon, r: Regs, i: In): Mon {
    var m1 := if r.state == Idle && i.reqValid
              then m.(want := Some(Burst(i.reqAddr, i.reqSize, i.reqLen)), asked := m.asked + 1) else m;
    var m2 := if r.arvalid && i.arready
              then m1.(ar := Some(Burst(r.addr, r.size, r.len)), accepted := m1.accepted + 1) else m1;
    if i.rvalid && r.rready then
      if i.rlast then m2.(want := None, ar := None, beats := [], answered := m2.answered + 1)
      else m2.(beats := m2.beats + [i.rdata])
    else m2
  }

  predicate Inv(w: nat, r: Regs, m: Mon) {
    && |r.data| == BUFF_SIZE
    && (r.state == Idle ==> !r.arvalid && !r.rready && m.want == None && m.ar == None && m.beats == [])
    && (r.state == Data ==>
        && m.want == Some(Burst(r.addr, r.size, r.len)) && Fits(w, m.want.value)
        && r.rready && (r.arvalid <==> m.ar == None) && (m.ar.Some? ==> m.ar == m.want)
        && (m.ar.None? ==> m.beats == [])
        && r.cnt == |m.beats| <= r.len && Holds(w, r.data, m.beats))
    && m.asked == m.answered + (if r.state == Data then 1 else 0)
    && m.accepted == m.answered + (if m.ar.Some? then 1 else 0)
  }

  /** Each edge keeps the engine in step with the wires; when it answers, it answers the request
      being served, with the buffer holding all len+1 beats in order. */
  lemma StepKeepsInv(w: nat, r: Regs, m: Mon, i: In)
    requires Inv(w, r, m) && Compliant(w, m, i)
    requires r.state == Idle && i.reqValid ==> Fits(w, Burst(i.reqAddr, i.reqSize, i.reqLen))
    ensures Inv(w, Next(w, r, i), Observe(w, m, r, i))
    ensures r.arvalid && i.arready ==> m.ar == None
    ensures Responds(r, i) <==> i.rvalid && i.rlast && r.rready
    ensures Responds(r, i) ==>
              && m.want == Some(Burst(r.addr, r.size, r.len)) && |m.beats| == r.len
              && Holds(w, Next(w, r, i).data, m.beats + [i.rdata])
  {
    if r.state == Data && i.rvalid {
      MulMono(|m.beats| + 1, r.len + 1, w);
      HoldsAppend(w, r.data, m.beats, i.rdata);
    }
  }

  function Exec(w: nat, ins: seq<In>): (Regs, Mon) {
    if ins == [] then (RESET, QUIET)
    else
      var (r, m) := Exec(w, ins[..|ins| - 1]);
      var i := ins[|ins| - 1];
      (Next(w, r, i), Observe(w, m, r, i))
  }

  predicate LegalRun(w: nat, ins: seq<In>) {
    ins == [] ||
    (var (r, m) := Exec(w, ins[..|ins| - 1]);
     var i := ins[|ins| - 1];
     && LegalRun(w, ins[..|ins| - 1])
     && Compliant(w, m, i)
     && (r.state == Idle && i.reqValid ==> Fits(w, Burst(i.reqAddr, i.reqSize, i.reqLen))))
  }

  /** How often C_resp_read fired. */
  function Fired(w: nat, ins: seq<In>): nat {
    if ins == [] then 0
    else Fired(w, ins[..|ins| - 1]) + if Responds(Exec(w, ins[..|ins| - 1]).0, ins[|ins| - 1]) then 1 else 0
  }

  /** In every run against a compliant slave, every request taken has been accepted and answered
      exactly once, except the one being served, and C_resp_read fired once for each answer. */
  lemma {:induction false} EveryRequestOnce(w: nat, ins: seq<In>)
    requires LegalRun(w, ins)
    ensures var (r, m) := Exec(w, ins);
            && Inv(w, r, m)
            && m.asked == m.answered + (if r.state == Data then 1 else 0)
            && m.answered <= m.accepted <= m.asked && Fired(w, ins) == m.answered
  {
    if ins != [] {
      EveryRequestOnce(w, ins[..|ins| - 1]);
      var (r, m) := Exec(w, ins[..|ins| - 1]);
      StepKeepsInv(w, r, m, ins[|ins| - 1]);
    }
  }
}
