/**
  The two-entry request queue in front of the load and store units, module
  lsu_bypass of src/load_store_unit.sv. It reports itself ready only when it is
  empty, because the issue stage acts on that report a cycle later.
*/
module LsuBypass {
  import Rings

  datatype Request = Request(valid: bool, id: nat)

  datatype Input = Input(arrives: bool, request: Request, popLoad: bool, popStore: bool, flush: bool)

  predicate Pops(i: Input) {
    i.popLoad || i.popStore
  }

  // The queue with this cycle's arrival at its end.
  function Present(queue: seq<Request>, i: Input): seq<Request> {
    queue + if i.arrives then [i.request] else []
  }

  function Next(queue: seq<Request>, i: Input): seq<Request> {
    if i.flush || (Pops(i) && Present(queue, i) == []) then []
    else Present(queue, i)[if Pops(i) then 1 else 0..]
  }

  // One unit pops at a time, and only a request that is there.
  predicate PopsAllowed(queue: seq<Request>, i: Input) {
    !(i.popLoad && i.popStore) && (Pops(i) ==> Present(queue, i) != [])
  }

  // ---------- Runs ----------

  // `ready` is what the queue reported in the previous cycle: the issue stage
  // sends a request only after seeing it.
  ghost predicate AllowedRun(queue: seq<Request>, ready: bool, ins: seq<Input>)
    decreases |ins|
  {
    ins == [] || (PopsAllowed(queue, ins[0]) && (ins[0].arrives ==> ready)
                  && AllowedRun(Next(queue, ins[0]), queue == [], ins[1..]))
  }

  function Run(queue: seq<Request>, ins: seq<Input>): seq<Request>
    decreases |ins|
  {
    if ins == [] then queue else Run(Next(queue, ins[0]), ins[1..])
  }

  // The early report is enough: there is room for every request that arrives.
  lemma {:induction false} NeverMoreThanTwo(queue: seq<Request>, ready: bool, ins: seq<Input>)
    requires AllowedRun(queue, ready, ins) && |queue| <= (if ready then 1 else 2)
    ensures |Run(queue, ins)| <= 2
    ensures forall k {:trigger ins[..k]} :: 0 <= k < |ins| ==> |Present(Run(queue, ins[..k]), ins[k])| <= 2
    decreases |ins|
  {
    if ins == [] {
    } else {
      NeverMoreThanTwo(Next(queue, ins[0]), queue == [], ins[1..]);
      forall k {:trigger ins[..k]} | 0 <= k < |ins|
        ensures |Present(Run(queue, ins[..k]), ins[k])| <= 2
      {
        if k > 0 {
          assert ins[..k][1..] == ins[1..][..k - 1];
        }
      }
    }
  }

  function Arrivals(ins: seq<Input>): seq<Request> {
    if ins == [] then [] else (if ins[0].arrives then [ins[0].request] else []) + Arrivals(ins[1..])
  }

  function Departures(queue: seq<Request>, ins: seq<Input>): seq<Request>
    decreases |ins|
  {
    if ins == [] then [] else DepartureIn(queue, ins[0]) + Departures(Next(queue, ins[0]), ins[1..])
  }

  function DepartureIn(queue: seq<Request>, i: Input): seq<Request> {
    if Pops(i) && Present(queue, i) != [] then [Present(queue, i)[0]] else []
  }

  // Without a flush, requests leave in arrival order and none is lost.
  lemma {:induction false} FirstInFirstOut(queue: seq<Request>, ready: bool, ins: seq<Input>)
    requires AllowedRun(queue, ready, ins)
    requires forall k :: 0 <= k < |ins| ==> !ins[k].flush
    ensures queue + Arrivals(ins) == Departures(queue, ins) + Run(queue, ins)
    decreases |ins|
  {
    if ins == [] {
    } else {
      var next, gone, rest := Next(queue, ins[0]), DepartureIn(queue, ins[0]), ins[1..];
      FirstInFirstOut(next, queue == [], rest);
      assert Present(queue, ins[0]) == gone + next;
      Rings.Regroup(queue, if ins[0].arrives then [ins[0].request] else [], Arrivals(rest), gone, next,
                    Departures(next, rest), Run(queue, ins));
    }
  }

  // A flush empties the queue: whatever waited in front of it or arrived with it,
  // what leaves afterwards are arrivals from after the flush, in order.
  lemma FlushForgets(queue: seq<Request>, ready: bool, before: seq<Input>, flush: Input, after: seq<Input>)
    requires flush.flush && AllowedRun(queue, ready, before + [flush] + after)
    requires forall k :: 0 <= k < |after| ==> !after[k].flush
    ensures var q := Run(queue, before + [flush]);
      && q == [] && Run(queue, before + [flush] + after) == Run(q, after)
      && Departures(queue, before + [flush] + after)
         == Departures(queue, before + [flush]) + Departures(q, after)
      && Arrivals(after) == Departures(q, after) + Run(q, after)
  {
    RunSplits(queue, ready, before + [flush], after);
    DeparturesSplit(queue, before + [flush], after);
    FlushEmpties(queue, before, flush);
    var known := ReadyAfter(queue, ready, before + [flush]);
    FirstInFirstOut([], known, after);
    assert [] + Arrivals(after) == Arrivals(after);
  }

  lemma {:induction false} FlushEmpties(queue: seq<Request>, before: seq<Input>, flush: Input)
    requires flush.flush
    ensures Run(queue, before + [flush]) == []
    decreases |before|
  {
    var all := before + [flush];
    if before == [] {
      assert all[1..] == [] && Run(Next(queue, flush), []) == [];
    } else {
      assert all[1..] == before[1..] + [flush];
      FlushEmpties(Next(queue, before[0]), before[1..], flush);
    }
  }

  // What the queue reported in the last cycle of a run.
  function ReadyAfter(queue: seq<Request>, ready: bool, ins: seq<Input>): bool
    decreases |ins|
  {
    if ins == [] then ready else ReadyAfter(Next(queue, ins[0]), queue == [], ins[1..])
  }

  lemma {:induction false} RunSplits(queue: seq<Request>, ready: bool, a: seq<Input>, b: seq<Input>)
    requires AllowedRun(queue, ready, a + b)
    ensures AllowedRun(Run(queue, a), ReadyAfter(queue, ready, a), b)
    ensures Run(queue, a + b) == Run(Run(queue, a), b)
    decreases |a|
  {
    if a == [] {
      assert a + b == b;
    } else {
      assert (a + b)[0] == a[0] && (a + b)[1..] == a[1..] + b;
      RunSplits(Next(queue, a[0]), queue == [], a[1..], b);
    }
  }

  lemma {:induction false} DeparturesSplit(queue: seq<Request>, a: seq<Input>, b: seq<Input>)
    ensures Departures(queue, a + b) == Departures(queue, a) + Departures(Run(queue, a), b)
    decreases |a|
  {
    if a == [] {
      assert a + b == b;
    } else {
      assert (a + b)[0] == a[0] && (a + b)[1..] == a[1..] + b;
      var next := Next(queue, a[0]);
      DeparturesSplit(next, a[1..], b);
      Rings.Concatenation(DepartureIn(queue, a[0]), Departures(next, a[1..]), Departures(Run(next, a[1..]), b));
    }
  }

  // ---------- Registers ----------

  class Bypass {
    const mem: array<Request>
    var read: nat
    var write: nat
    var count: nat
    ghost var queue: seq<Request>

    ghost predicate Valid()
      reads this, mem
    {
      && mem.Length == 2 && read < 2 && write < 2 && count == |queue| <= 2
      && write == (read + count) % 2
      && (count >= 1 ==> mem[read] == queue[0])
      && (count == 2 ==> mem[1 - read] == queue[1])
    }

    constructor ()
      ensures Valid() && queue == [] && fresh(mem)
    {
      mem := new Request[2](_ => Request(false, 0));
      read, write, count, queue := 0, 0, 0, [];
    }

    // One clock cycle. The head is passed on combinationally when the queue is
    // empty.
    method Step(i: Input) returns (ready: bool, ctrl: Request)
      requires Valid() && PopsAllowed(queue, i) && |Present(queue, i)| <= 2
      modifies this, mem
      ensures Valid() && queue == Next(old(queue), i)
      ensures ready == (old(queue) == [])
      ensures ctrl == if old(queue) == [] then i.request else old(queue)[0]
    {
      ready := count == 0;
      ctrl := if count == 0 then i.request else mem[read];
      var r, w, n := read, write, count;
      if i.arrives {
        mem[write] := i.request;
        w, n := (w + 1) % 2, n + 1;
      }
      if i.popLoad {
        mem[read] := mem[read].(valid := false);
        r, n := (r + 1) % 2, n - 1;
      }
      if i.popStore {
        mem[read] := mem[read].(valid := false);
        r, n := (r + 1) % 2, n - 1;
      }
      if i.flush {
        r, w, n := 0, 0, 0;
        mem[0], mem[1] := Request(false, 0), Request(false, 0);
      }
      read, write, count := r, w, n;
      queue := Next(queue, i);
    }
  }
}
