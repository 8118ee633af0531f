/**
  The handoff between the host thread and the simulated clock in
  tb/dpi/fesvr/dtm.cc: `do_command` leaves a request in a buffer and gives up
  the thread, `tick` offers it to the bus, takes the response and gives the
  thread back.

  The host is any program that makes one bus request after another, each
  depending on the responses so far; it is a function from those responses to
  its next request.
*/
module Handoff {

  datatype Request = Request(addr: nat, op: nat, data: nat)

  type Program = seq<nat> -> Request

  // The inputs of one tick: whether the bus takes a request, and the data of a
  // response if there is one.
  datatype Tick = Tick(ready: bool, response: Response)

  datatype Response = NoResponse | Data(data: nat)

  // ---------- The machine ----------

  // The buffer and the two flags, with everything accepted and answered.
  datatype State = State(buffer: Request, reqWait: bool, respWait: bool, accepted: seq<Request>, answers: seq<nat>)

  predicate Accepts(s: State, i: Tick) {
    !s.respWait && s.reqWait && i.ready
  }

  // A response comes only to an accepted request.
  predicate Allowed(s: State, i: Tick) {
    i.response.Data? ==> s.respWait || Accepts(s, i)
  }

  function Next(host: Program, s: State, i: Tick): State {
    var offered :=
      if s.respWait then s
      else if !s.reqWait then s.(reqWait := true)
      else if i.ready then s.(reqWait := false, respWait := true, accepted := s.accepted + [s.buffer])
      else s;
    match i.response
    case NoResponse => offered
    case Data(d) =>
      var answers := s.answers + [d];
      offered.(respWait := false, answers := answers, buffer := host(answers))
  }

  function Start(host: Program): State {
    State(host([]), false, false, [], [])
  }

  predicate AllowedRun(host: Program, s: State, run: seq<Tick>)
    decreases |run|
  {
    run == [] || (Allowed(s, run[0]) && AllowedRun(host, Next(host, s, run[0]), run[1..]))
  }

  function Run(host: Program, s: State, run: seq<Tick>): State
    decreases |run|
  {
    if run == [] then s else Run(host, Next(host, s, run[0]), run[1..])
  }

  // ---------- Every call is carried once, in order ----------

  // The k-th request was made knowing the first k answers. At most one request
  // is out, and it is out exactly while a response is awaited.
  ghost predicate InStep(host: Program, s: State) {
    && s.buffer == host(s.answers)
    && |s.accepted| == |s.answers| + (if s.respWait then 1 else 0)
    && !(s.reqWait && s.respWait)
    && forall k :: 0 <= k < |s.accepted| ==> s.accepted[k] == host(s.answers[..k])
  }

  lemma NextInStep(host: Program, s: State, i: Tick)
    requires InStep(host, s) && Allowed(s, i)
    ensures InStep(host, Next(host, s, i))
  {
    assert s.answers[..|s.answers|] == s.answers;
    var next := Next(host, s, i);
    forall k | 0 <= k < |next.accepted| ensures next.accepted[k] == host(next.answers[..k]) {
      assert k < |s.accepted| ==> next.answers[..k] == s.answers[..k];
      assert k == |s.answers| ==> next.answers[..k] == s.answers;
    }
  }

  // Whatever the bus does: what it accepted are the host's calls in order, each
  // once, and the k-th call gets the k-th answer.
  lemma {:induction false} CallsAreCarriedInOrder(host: Program, s: State, run: seq<Tick>)
    requires InStep(host, s) && AllowedRun(host, s, run)
    ensures InStep(host, Run(host, s, run))
    ensures s.accepted <= Run(host, s, run).accepted && s.answers <= Run(host, s, run).answers
    decreases |run|
  {
    if run == [] {
    } else {
      NextInStep(host, s, run[0]);
      CallsAreCarriedInOrder(host, Next(host, s, run[0]), run[1..]);
    }
  }

  // An idle handoff needs one tick to raise its request and then the first
  // ready tick to be rid of it.
  lemma {:induction false} RequestsAreTaken(host: Program, s: State, run: seq<Tick>)
    requires InStep(host, s) && AllowedRun(host, s, run) && !s.respWait && run != []
    requires forall i <- run[..|run| - 1] :: i.response.NoResponse?
    requires forall k :: (if s.reqWait then 0 else 1) <= k < |run| - 1 ==> !run[k].ready
    requires run[|run| - 1].response.NoResponse?
    ensures var end := Run(host, s, run);
            if run[|run| - 1].ready && (s.reqWait || |run| > 1)
            then end.respWait && end.accepted == s.accepted + [s.buffer]
            else end == s.(reqWait := true)
    decreases |run|
  {
    var next := Next(host, s, run[0]);
    if |run| == 1 {
      assert run[1..] == [];
    } else {
      NextInStep(host, s, run[0]);
      assert next == s.(reqWait := true);
      assert run[1..][|run| - 2] == run[|run| - 1];
      assert run[1..][..|run| - 2] == run[1..|run| - 1];
      RequestsAreTaken(host, next, run[1..]);
    }
  }

  // ---------- The object ----------

  class Dtm {
    var reqBuf: Request
    var reqWait: bool
    var respWait: bool
    ghost const host: Program
    ghost var accepted: seq<Request>
    ghost var answers: seq<nat>

    ghost function Contents(): State
      reads this
    {
      State(reqBuf, reqWait, respWait, accepted, answers)
    }

    // The thread has run to its first call.
    constructor (ghost program: Program, first: Request)
      requires first == program([])
      ensures host == program && Contents() == Start(program) && InStep(program, Contents())
    {
      host := program;
      reqBuf, reqWait, respWait := first, false, false;
      accepted, answers := [], [];
    }

    // One clock tick. A response hands the thread back to the host, whose next
    // call is `call`; the bus sees a request while reqWait is set.
    method Tick(i: Tick, call: Request) returns (valid: bool, bits: Request)
      requires InStep(host, Contents()) && Allowed(Contents(), i)
      requires i.response.Data? ==> call == host(answers + [i.response.data])
      modifies this
      ensures Contents() == Next(host, old(Contents()), i) && InStep(host, Contents())
      ensures valid == old(reqWait) && bits == old(reqBuf)
    {
      NextInStep(host, Contents(), i);
      valid, bits := reqWait, reqBuf;
      if !respWait {
        if !reqWait {
          reqWait := true;
        } else if i.ready {
          reqWait := false;
          respWait := true;
          accepted := accepted + [reqBuf];
        }
      }
      match i.response
      case NoResponse =>
      case Data(d) =>
        assert respWait;
        respWait := false;
        answers := answers + [d];
        reqBuf := call;
    }
  }
}
