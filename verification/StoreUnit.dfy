/**
  The store unit of src/store_unit.sv with its one-entry AMO buffer
  (src/amo_buffer.sv). It learns late whether a store's translation succeeds,
  and accepts the next store in the cycle before it pushes the current one, so
  it must see "not ready" one cycle early.
*/
module StoreUnit {
  import Rings
  import SB = StoreBuffer

  datatype AmoOp =
    | AMO_NONE | AMO_LR | AMO_SC | AMO_SWAP | AMO_ADD | AMO_AND | AMO_OR | AMO_XOR
    | AMO_MAX | AMO_MAXU | AMO_MIN | AMO_MINU

  // A request from the load/store queue. `aligned` is the data moved to its
  // byte lanes, `data` the data as it stands.
  datatype Request = Request(amo: AmoOp, data: SB.Bytes, aligned: SB.Bytes, be: SB.Strobes, size: nat, transId: nat)

  datatype Pending = NoRequest | Accepted(r: Request)

  datatype AmoEntry = NoAmo | Amo(op: AmoOp, paddr: nat, data: SB.Bytes, size: nat)

  datatype Input = Input(
    flush: bool, valid: bool, ctrl: Request, commit: bool, amoCommit: bool, paddr: nat, exception: bool,
    dtlbHit: bool, amoAck: bool, grant: bool, pageOffset: nat)

  datatype Output = Output(pop: bool, translate: bool, valid: bool, transId: nat, amoRequest: bool)

  // ---------- What the registers stand for ----------

  // The accepted request's data, as pushed.
  function Payload(r: Request): SB.Bytes {
    if r.amo != AMO_NONE then r.data else r.aligned
  }

  function PushedStore(r: Request, paddr: nat): SB.Store {
    SB.Store(paddr, Payload(r), r.be, r.size)
  }

  // Is the accepted request handed on this cycle?
  predicate Posts(p: Pending, i: Input) {
    p.Accepted? && !i.flush && !i.exception
  }

  // The store buffer's inputs in this cycle.
  function QueueInput(p: Pending, onInputs: SB.Store, i: Input): SB.Input {
    SB.Input(i.flush, i.commit, Posts(p, i) && p.r.amo == AMO_NONE, p.Accepted?,
             if p.Accepted? then PushedStore(p.r, i.paddr) else onInputs, i.grant, i.pageOffset)
  }

  // The AMO buffer is a one-entry FIFO that a flush empties unless its AMO is
  // already committing.
  function AmoNext(a: AmoEntry, p: Pending, i: Input): AmoEntry {
    if i.flush && !i.amoCommit then NoAmo
    else if a.NoAmo? then
      if Posts(p, i) && p.r.amo != AMO_NONE then Amo(p.r.amo, i.paddr, p.r.data, p.r.size) else NoAmo
    else if i.amoAck then NoAmo else a
  }

  // What the unit may accept for the next cycle, given what both buffers report
  // in this one. The register-level unit below keeps to it.
  ghost predicate AcceptsOnlyIfReady(p: Pending, a: AmoEntry, queueReady: bool, next: Pending) {
    next.Accepted? ==> queueReady && a.NoAmo? && (next.r.amo != AMO_NONE ==> !p.Accepted?)
  }

  // ---------- Backpressure ----------

  // Neither buffer is asked to take what it has no room for.
  ghost predicate RoomFor(p: Pending, a: AmoEntry, log: SB.Log, depth: nat) {
    && |log.list| - log.committed <= depth
    && (p.Accepted? ==> |log.list| - log.committed < depth && (p.r.amo != AMO_NONE ==> a.NoAmo?))
  }

  // The commit side of the store buffer's rules; these are up to the commit stage.
  ghost predicate CommitAllowed(log: SB.Log, depthCommit: nat, i: Input) {
    && log.WellFormed()
    && (i.flush ==> !i.commit)
    && (|log.list| == log.committed ==> !i.commit)
    && (log.committed - log.granted == depthCommit ==> !i.commit)
  }

  predicate QueueReady(log: SB.Log, depth: nat, i: Input) {
    |log.list| - log.committed < depth - 1 || i.commit
  }

  // The store unit and the store buffer together, one cycle: the inputs, what
  // stands on the data inputs, and what the unit accepts.
  datatype Cycle = Cycle(i: Input, onInputs: SB.Store, next: Pending)

  ghost predicate CommitSideAllowed(p: Pending, a: AmoEntry, log: SB.Log, depth: nat, dc: nat, run: seq<Cycle>)
    decreases |run|
  {
    run == [] ||
    var c := run[0];
    && CommitAllowed(log, dc, c.i) && AcceptsOnlyIfReady(p, a, QueueReady(log, depth, c.i), c.next)
    && CommitSideAllowed(c.next, AmoNext(a, p, c.i), SB.Next(log, QueueInput(p, c.onInputs, c.i)), depth, dc, run[1..])
  }

  // The store buffer's inputs over a run.
  function QueueInputs(p: Pending, run: seq<Cycle>): seq<SB.Input>
    decreases |run|
  {
    if run == [] then [] else [QueueInput(p, run[0].onInputs, run[0].i)] + QueueInputs(run[0].next, run[1..])
  }

  // Readiness seen a cycle early is enough, in every run: if commits keep to
  // their side of the rules, the store buffer never overflows (and so all it
  // promises holds) and an AMO is pushed only into an empty AMO buffer.
  lemma {:induction false} BackpressureIsSound(p: Pending, a: AmoEntry, log: SB.Log, depth: nat, dc: nat,
                                               run: seq<Cycle>)
    requires CommitSideAllowed(p, a, log, depth, dc, run) && RoomFor(p, a, log, depth)
    ensures SB.AllowedRun(log, depth, dc, QueueInputs(p, run))
    ensures AmosFindRoom(p, a, run)
    decreases |run|
  {
    if run == [] {
    } else {
      var c, q := run[0], QueueInput(p, run[0].onInputs, run[0].i);
      ReadinessSeenEarly(p, a, log, depth, dc, c);
      BackpressureIsSound(c.next, AmoNext(a, p, c.i), SB.Next(log, q), depth, dc, run[1..]);
      assert QueueInputs(p, run)[1..] == QueueInputs(c.next, run[1..]);
    }
  }

  ghost predicate AmosFindRoom(p: Pending, a: AmoEntry, run: seq<Cycle>)
    decreases |run|
  {
    run == [] ||
    ((Posts(p, run[0].i) && p.r.amo != AMO_NONE ==> a.NoAmo?)
     && AmosFindRoom(run[0].next, AmoNext(a, p, run[0].i), run[1..]))
  }

  lemma ReadinessSeenEarly(p: Pending, a: AmoEntry, log: SB.Log, depth: nat, dc: nat, c: Cycle)
    requires CommitAllowed(log, dc, c.i) && RoomFor(p, a, log, depth)
    requires AcceptsOnlyIfReady(p, a, QueueReady(log, depth, c.i), c.next)
    ensures SB.Allowed(log, depth, dc, QueueInput(p, c.onInputs, c.i))
    ensures RoomFor(c.next, AmoNext(a, p, c.i), SB.Next(log, QueueInput(p, c.onInputs, c.i)), depth)
  {
  }

  // The plain stores a run hands on: every accepted one that neither a flush
  // nor its own exception kills, with its translated address and its data moved to
  // the byte lanes.
  function HandedOn(p: Pending, run: seq<Cycle>): seq<SB.Store>
    decreases |run|
  {
    if run == [] then [] else HandedOnIn(p, run[0].i) + HandedOn(run[0].next, run[1..])
  }

  function HandedOnIn(p: Pending, i: Input): seq<SB.Store> {
    if p.Accepted? && p.r.amo == AMO_NONE && !i.flush && !i.exception
    then [SB.Store(i.paddr, p.r.aligned, p.r.be, p.r.size)] else []
  }

  lemma {:induction false} PushedIsHandedOn(p: Pending, run: seq<Cycle>)
    ensures SB.Pushed(QueueInputs(p, run)) == HandedOn(p, run)
    decreases |run|
  {
    if run == [] {
    } else {
      PushedIsHandedOn(run[0].next, run[1..]);
      assert QueueInputs(p, run)[1..] == QueueInputs(run[0].next, run[1..]);
    }
  }

  // From the store unit's input to the cache, flushes included: what is in the
  // store buffer's list in the end is the handed-on stores, in the order they were
  // handed on, with exactly those left out that a flush dropped; and the cache's
  // writes are a prefix of it.
  lemma StoresReachCacheInOrder(ds: nat, dc: nat, run: seq<Cycle>)
    requires CommitSideAllowed(NoRequest, NoAmo, SB.EMPTY_LOG, ds, dc, run)
    ensures var ins := QueueInputs(NoRequest, run);
      var end := SB.Run(SB.EMPTY_LOG, ins);
      && SB.Interleaves(HandedOn(NoRequest, run), end.list, SB.Dropped(SB.EMPTY_LOG, ins))
      && end.WellFormed() && SB.Grants(SB.EMPTY_LOG, ins) == end.list[..end.granted]
  {
    var ins := QueueInputs(NoRequest, run);
    BackpressureIsSound(NoRequest, NoAmo, SB.EMPTY_LOG, ds, dc, run);
    PushedIsHandedOn(NoRequest, run);
    SB.EveryStoreAccountedFor(SB.EMPTY_LOG, ds, dc, ins);
    assert [] + SB.Pushed(ins) == SB.Pushed(ins);
    SB.GrantsFollowProgramOrder(SB.EMPTY_LOG, ds, dc, ins);
    assert [] + SB.Grants(SB.EMPTY_LOG, ins) == SB.Grants(SB.EMPTY_LOG, ins);
  }

  // Without a flush nothing is dropped: the writes, followed by what waits, are
  // the handed-on stores.
  lemma NothingDroppedWithoutFlush(ds: nat, dc: nat, run: seq<Cycle>)
    requires CommitSideAllowed(NoRequest, NoAmo, SB.EMPTY_LOG, ds, dc, run)
    requires forall k :: 0 <= k < |run| ==> !run[k].i.flush
    ensures var ins := QueueInputs(NoRequest, run);
      var end := SB.Run(SB.EMPTY_LOG, ins);
      end.WellFormed() && SB.Grants(SB.EMPTY_LOG, ins) + end.Waiting() == HandedOn(NoRequest, run)
  {
    var ins := QueueInputs(NoRequest, run);
    var end := SB.Run(SB.EMPTY_LOG, ins);
    StoresReachCacheInOrder(ds, dc, run);
    NoDrops(NoRequest, SB.EMPTY_LOG, run);
    AllKept(HandedOn(NoRequest, run), end.list);
    assert end.list == end.list[..end.granted] + end.Waiting();
  }

  lemma {:induction false} NoDrops(p: Pending, log: SB.Log, run: seq<Cycle>)
    requires forall k :: 0 <= k < |run| ==> !run[k].i.flush
    ensures SB.Dropped(log, QueueInputs(p, run)) == []
    decreases |run|
  {
    if run == [] {
    } else {
      var q := QueueInput(p, run[0].onInputs, run[0].i);
      NoDrops(run[0].next, SB.Next(log, q), run[1..]);
      assert QueueInputs(p, run)[1..] == QueueInputs(run[0].next, run[1..]);
    }
  }

  lemma {:induction false} AllKept(all: seq<SB.Store>, kept: seq<SB.Store>)
    requires SB.Interleaves(all, kept, [])
    ensures all == kept
    decreases |all|
  {
    if all == [] {
    } else {
      AllKept(all[1..], kept[1..]);
      assert all == [all[0]] + all[1..] && kept == [kept[0]] + kept[1..];
    }
  }

  // ---------- AMOs ----------

  // The AMOs a run hands on, with the data as it stands in the register.
  function AmosHandedOn(p: Pending, run: seq<Cycle>): seq<AmoEntry>
    decreases |run|
  {
    if run == [] then [] else AmosHandedOnIn(p, run[0].i) + AmosHandedOn(run[0].next, run[1..])
  }

  function AmosHandedOnIn(p: Pending, i: Input): seq<AmoEntry> {
    if p.Accepted? && p.r.amo != AMO_NONE && !i.flush && !i.exception
    then [Amo(p.r.amo, i.paddr, p.r.data, p.r.size)] else []
  }

  datatype Fate = Answered(a: AmoEntry) | Dropped(a: AmoEntry)

  // What becomes of the AMO in the buffer: a flush drops it unless it is being
  // committed, and the cache answers it.
  function FateIn(a: AmoEntry, i: Input): seq<Fate> {
    if a.NoAmo? then []
    else if i.flush && !i.amoCommit then [Dropped(a)]
    else if i.amoAck then [Answered(a)] else []
  }

  function Fates(p: Pending, a: AmoEntry, run: seq<Cycle>): seq<Fate>
    decreases |run|
  {
    if run == [] then []
    else FateIn(a, run[0].i) + Fates(run[0].next, AmoNext(a, p, run[0].i), run[1..])
  }

  function AmoAfter(p: Pending, a: AmoEntry, run: seq<Cycle>): AmoEntry
    decreases |run|
  {
    if run == [] then a else AmoAfter(run[0].next, AmoNext(a, p, run[0].i), run[1..])
  }

  function Entries(fates: seq<Fate>): (es: seq<AmoEntry>)
    ensures |es| == |fates|
  {
    seq(|fates|, k requires 0 <= k < |fates| => fates[k].a)
  }

  function InBuffer(a: AmoEntry): seq<AmoEntry> {
    if a.Amo? then [a] else []
  }

  // One cycle: what waits and what arrives is what leaves and what waits next.
  lemma AmoCycleConserves(p: Pending, a: AmoEntry, i: Input)
    requires Posts(p, i) && p.r.amo != AMO_NONE ==> a.NoAmo?
    ensures InBuffer(a) + AmosHandedOnIn(p, i) == Entries(FateIn(a, i)) + InBuffer(AmoNext(a, p, i))
  {
    assert Entries(FateIn(a, i)) == if FateIn(a, i) == [] then [] else [a];
  }

  // From the store unit's input to the cache: the AMOs that leave the buffer,
  // followed by the one that waits, are the AMOs handed on, in order, each once;
  // without a flush the cache answers every one that leaves.
  lemma {:induction false} AmosGoInOrder(p: Pending, a: AmoEntry, run: seq<Cycle>)
    requires AmosFindRoom(p, a, run)
    ensures InBuffer(a) + AmosHandedOn(p, run) == Entries(Fates(p, a, run)) + InBuffer(AmoAfter(p, a, run))
    ensures (forall k :: 0 <= k < |run| ==> !run[k].i.flush) ==>
              forall f :: f in Fates(p, a, run) ==> f.Answered?
    decreases |run|
  {
    if run == [] {
      assert InBuffer(a) + [] == [] + InBuffer(a);
    } else {
      var i, next, rest := run[0].i, AmoNext(a, p, run[0].i), run[1..];
      AmoCycleConserves(p, a, i);
      AmosGoInOrder(run[0].next, next, rest);
      var first, others := FateIn(a, i), Fates(run[0].next, next, rest);
      assert Entries(first + others) == Entries(first) + Entries(others);
      Rings.Regroup(InBuffer(a), AmosHandedOnIn(p, i), AmosHandedOn(run[0].next, rest), Entries(first),
                    InBuffer(next), Entries(others), InBuffer(AmoAfter(p, a, run)));
    }
  }

  // From reset, in a machine whose commit side keeps its rules.
  lemma AmosReachCacheInOrder(ds: nat, dc: nat, run: seq<Cycle>)
    requires CommitSideAllowed(NoRequest, NoAmo, SB.EMPTY_LOG, ds, dc, run)
    ensures AmosHandedOn(NoRequest, run)
         == Entries(Fates(NoRequest, NoAmo, run)) + InBuffer(AmoAfter(NoRequest, NoAmo, run))
  {
    BackpressureIsSound(NoRequest, NoAmo, SB.EMPTY_LOG, ds, dc, run);
    AmosGoInOrder(NoRequest, NoAmo, run);
    assert [] + AmosHandedOn(NoRequest, run) == AmosHandedOn(NoRequest, run);
  }

  // ---------- Registers ----------

  datatype State = Idle | ValidStore | WaitTranslation | WaitStoreReady

  class Unit {
    var state: State
    var stData: SB.Bytes
    var stBe: SB.Strobes
    var stSize: nat
    var amoOp: AmoOp
    var transId: nat
    var amo: AmoEntry
    ghost var pending: Pending   // the request popped in the last cycle, if it is still alive

    // The data registers hold request r.
    ghost predicate Holds(r: Request)
      reads this
    {
      stData == Payload(r) && stBe == r.be && stSize == r.size && amoOp == r.amo && transId == r.transId
    }

    // The store that the registers and the translated address spell out.
    function OnInputs(paddr: nat): SB.Store
      reads this
    {
      SB.Store(paddr, stData, stBe, stSize)
    }

    ghost predicate Valid()
      reads this
    {
      && pending.Accepted? == state.ValidStore?
      && (pending.Accepted? ==> Holds(pending.r) && (pending.r.amo != AMO_NONE ==> amo.NoAmo?))
    }

    // A request the unit looks at: any when idle, only a plain one behind another.
    predicate Takes(i: Input)
      reads this
    {
      i.valid && (state.Idle? || (state.ValidStore? && i.ctrl.amo == AMO_NONE))
    }

    constructor ()
      ensures Valid() && pending == NoRequest && amo == NoAmo
    {
      state, amoOp, transId, stSize, amo := Idle, AMO_NONE, 0, 0, NoAmo;
      stData := [0, 0, 0, 0, 0, 0, 0, 0];
      stBe := [false, false, false, false, false, false, false, false];
      pending := NoRequest;
    }

    // The state machine. `ready` is what both buffers report in this cycle.
    method Control(i: Input, ready: bool)
      returns (next: State, pop: bool, translate: bool, stValid: bool, valid: bool)
      ensures stValid == (state.ValidStore? && !i.flush && !i.exception)
      ensures next.ValidStore? ==> i.valid && ready && pop && i.dtlbHit
      ensures next.ValidStore? && state.ValidStore? ==> i.ctrl.amo == AMO_NONE
      ensures next.ValidStore? <==> pop && !i.flush && !(i.exception && !state.Idle?)
      ensures pop <==> (Takes(i) && ready && i.dtlbHit) || (i.exception && !state.Idle?)
      ensures translate <==> Takes(i) || state.WaitStoreReady? || state.WaitTranslation?
      ensures next.WaitStoreReady? || next.WaitTranslation? <==>
                && !i.flush && !(i.exception && !state.Idle?)
                && ((Takes(i) && !(ready && i.dtlbHit)) || (state.WaitStoreReady? && !(ready && i.dtlbHit))
                    || (state.WaitTranslation? && !i.dtlbHit))
      ensures valid <==> state.ValidStore? || (i.exception && !state.Idle?)
    {
      pop, translate, stValid, valid, next := false, false, false, false, state;
      match state {
        case Idle =>
          if i.valid {
            next, translate, pop := ValidStore, true, true;
            if !i.dtlbHit {
              next, pop := WaitTranslation, false;
            }
            if !ready {
              next, pop := WaitStoreReady, false;
            }
          }
        case ValidStore =>
          valid := true;
          if !i.flush {
            stValid := true;
          }
          if i.valid && i.ctrl.amo == AMO_NONE {
            next, translate, pop := ValidStore, true, true;
            if !i.dtlbHit {
              next, pop := WaitTranslation, false;
            }
            if !ready {
              next, pop := WaitStoreReady, false;
            }
          } else {
            next := Idle;
          }
        case WaitStoreReady =>
          translate := true;
          if ready && i.dtlbHit {
            next := Idle;
          }
        case WaitTranslation =>
          translate := true;
          if i.dtlbHit {
            next := Idle;
          }
      }
      if i.exception && !state.Idle? {
        pop, stValid, valid, next := true, false, true, Idle;
      }
      if i.flush {
        next := Idle;
      }
    }

    // One clock cycle: the accepted request goes into exactly the buffer it
    // belongs to, unless a flush or its own exception kills it, and a request
    // popped now is the accepted one of the next cycle. `q` drives the store
    // buffer, whose readiness and emptiness are inputs.
    method Step(i: Input, queueReady: bool, noStorePending: bool) returns (o: Output, q: SB.Input)
      requires Valid()
      modifies this
      ensures Valid()
      ensures q == QueueInput(old(pending), old(OnInputs(i.paddr)), i)
      ensures amo == AmoNext(old(amo), old(pending), i)
      ensures pending ==
        if o.pop && !i.flush && !(i.exception && !old(state).Idle?) then Accepted(i.ctrl) else NoRequest
      ensures o.pop <==>
        || (old(Takes(i)) && queueReady && old(amo).NoAmo? && i.dtlbHit)
        || (i.exception && !old(state).Idle?)
      ensures AcceptsOnlyIfReady(old(pending), old(amo), queueReady, pending)
      ensures pending.Accepted? ==> i.valid && i.dtlbHit
      ensures o.valid && old(pending).Accepted? ==> o.transId == old(pending).r.transId
      ensures o.amoRequest <==> old(amo).Amo? && i.amoCommit && noStorePending
    {
      var next, pop, translate, stValid, valid := Control(i, queueReady && amo.NoAmo?);
      q := SB.Input(i.flush, i.commit, stValid && amoOp == AMO_NONE, state.ValidStore?, OnInputs(i.paddr), i.grant,
                    i.pageOffset);
      o := Output(pop, translate, valid, transId, noStorePending && i.amoCommit && amo.Amo?);
      AmoStep(i, stValid);
      Latch(i.ctrl, next);
      pending := if next.ValidStore? then Accepted(i.ctrl) else NoRequest;
    }

    // The AMO buffer.
    method AmoStep(i: Input, stValid: bool)
      requires stValid == Posts(pending, i) && (pending.Accepted? ==> Holds(pending.r))
      modifies this`amo
      ensures amo == AmoNext(old(amo), pending, i)
    {
      if i.flush && !i.amoCommit {
        amo := NoAmo;
      } else if stValid && amoOp != AMO_NONE && amo.NoAmo? {
        amo := Amo(amoOp, i.paddr, stData, stSize);
      } else if i.amoAck {
        amo := NoAmo;
      }
    }

    // The data registers follow the request input in every cycle.
    method Latch(r: Request, next: State)
      modifies this`state, this`stData, this`stBe, this`stSize, this`amoOp, this`transId
      ensures state == next && Holds(r)
    {
      state := next;
      stData, stBe, stSize, amoOp, transId := Payload(r), r.be, r.size, r.amo, r.transId;
    }
  }
}
