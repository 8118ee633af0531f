/**
  The store buffer of src/store_buffer.sv: a speculative ring whose entries move
  to a commit ring when their instruction commits, and from there to the data
  cache; a flush empties the speculative ring.

  The abstraction is one list of stores in program order with two marks in it:
  everything before `granted` has been taken by the cache, everything before
  `committed` will be.
*/
module StoreBuffer {
  import opened Rings

  type Bytes = s: seq<nat> | |s| == 8 witness [0, 0, 0, 0, 0, 0, 0, 0]
  type Strobes = s: seq<bool> | |s| == 8 witness [false, false, false, false, false, false, false, false]

  datatype Store = Store(address: nat, data: Bytes, be: Strobes, size: nat)

  // ---------- Doubleword memory ----------

  type Memory = nat -> Bytes

  function Doubleword(address: nat): nat {
    address / 8
  }

  function Merge(before: Bytes, st: Store): Bytes {
    seq(8, k requires 0 <= k < 8 => if st.be[k] then st.data[k] else before[k])
  }

  function Write(m: Memory, st: Store): Memory {
    (d: nat) => if d == Doubleword(st.address) then Merge(m(d), st) else m(d)
  }

  function WriteAll(m: Memory, stores: seq<Store>): Memory {
    if stores == [] then m else WriteAll(Write(m, stores[0]), stores[1..])
  }

  // ---------- The program-order list ----------

  datatype Log = Log(list: seq<Store>, granted: nat, committed: nat) {
    ghost predicate WellFormed() {
      granted <= committed <= |list|
    }

    // In the commit queue: will happen, but the cache has not taken them yet.
    ghost function Draining(): seq<Store>
      requires WellFormed()
    {
      list[granted..committed]
    }

    ghost function Speculative(): seq<Store>
      requires WellFormed()
    {
      list[committed..]
    }

    ghost function Waiting(): seq<Store>
      requires WellFormed()
    {
      list[granted..]
    }
  }

  const EMPTY_LOG := Log([], 0, 0)

  // One cycle's inputs. `arriving` is the store on the address and data inputs;
  // `valid` says that it is pushed, `validWithoutFlush` that it may be.
  datatype Input = Input(
    flush: bool, commit: bool, valid: bool, validWithoutFlush: bool, arriving: Store, grant: bool, pageOffset: nat)

  datatype Output = Output(
    noStorePending: bool, commitReady: bool, ready: bool, pageOffsetMatches: bool, request: bool, requested: Store)

  // What the environment keeps: no commit together with a flush, no push into
  // a full queue, no commit of a store that is not there or has no room.
  ghost predicate Allowed(log: Log, depthSpec: nat, depthCommit: nat, i: Input) {
    && log.WellFormed()
    && (i.flush ==> !i.commit)
    && (|log.list| - log.committed == depthSpec ==> !i.valid)
    && (|log.list| == log.committed ==> !i.commit)
    && (log.committed - log.granted == depthCommit ==> !i.commit)
  }

  function Next(log: Log, i: Input): Log {
    Log(if i.flush && log.committed <= |log.list| then log.list[..log.committed]
        else if i.valid then log.list + [i.arriving] else log.list,
        if log.granted < log.committed && i.grant then log.granted + 1 else log.granted,
        if i.commit then log.committed + 1 else log.committed)
  }

  predicate SameOffset(pageOffset: nat, st: Store) {
    (pageOffset / 8) % 512 == (st.address / 8) % 512
  }

  ghost predicate AnyMatches(pageOffset: nat, stores: seq<Store>) {
    exists k :: 0 <= k < |stores| && SameOffset(pageOffset, stores[k])
  }

  ghost predicate Answers(log: Log, depthSpec: nat, depthCommit: nat, i: Input, o: Output)
    requires log.WellFormed()
  {
    && o.noStorePending == (log.granted == log.committed)
    && o.commitReady == (log.committed - log.granted < depthCommit)
    && o.ready == (|log.list| - log.committed < depthSpec - 1 || i.commit)
    && o.request == (log.granted < log.committed)
    && (o.request ==> o.requested == log.list[log.granted])
    && (o.pageOffsetMatches <==>
        AnyMatches(i.pageOffset, log.Waiting()) || (i.validWithoutFlush && SameOffset(i.pageOffset, i.arriving)))
  }

  // ---------- Runs ----------

  ghost predicate AllowedRun(log: Log, depthSpec: nat, depthCommit: nat, ins: seq<Input>)
    decreases |ins|
  {
    ins == [] || (Allowed(log, depthSpec, depthCommit, ins[0])
                  && AllowedRun(Next(log, ins[0]), depthSpec, depthCommit, ins[1..]))
  }

  function Run(log: Log, ins: seq<Input>): Log
    decreases |ins|
  {
    if ins == [] then log else Run(Next(log, ins[0]), ins[1..])
  }

  // The write the cache takes in a cycle, if any.
  function GrantedIn(log: Log, i: Input): seq<Store> {
    if log.granted < log.committed <= |log.list| && i.grant then [log.list[log.granted]] else []
  }

  // The writes the cache takes over a run, in the order it takes them.
  function Grants(log: Log, ins: seq<Input>): seq<Store>
    decreases |ins|
  {
    if ins == [] then [] else GrantedIn(log, ins[0]) + Grants(Next(log, ins[0]), ins[1..])
  }

  // Stores dropped by a flush, including one that arrives with it.
  function DroppedIn(log: Log, i: Input): seq<Store> {
    if i.flush && log.committed <= |log.list| then
      log.list[log.committed..] + if i.valid then [i.arriving] else []
    else []
  }

  function Dropped(log: Log, ins: seq<Input>): seq<Store>
    decreases |ins|
  {
    if ins == [] then [] else DroppedIn(log, ins[0]) + Dropped(Next(log, ins[0]), ins[1..])
  }

  function Pushed(ins: seq<Input>): seq<Store> {
    if ins == [] then [] else (if ins[0].valid then [ins[0].arriving] else []) + Pushed(ins[1..])
  }

  lemma {:induction false} RunKeepsShape(log: Log, ds: nat, dc: nat, ins: seq<Input>)
    requires AllowedRun(log, ds, dc, ins) && log.WellFormed()
    requires |log.list| - log.committed <= ds && log.committed - log.granted <= dc
    ensures var end := Run(log, ins);
      && end.WellFormed() && |end.list| - end.committed <= ds && end.committed - end.granted <= dc
      && log.list[..log.committed] <= end.list && log.committed <= end.committed && log.granted <= end.granted
    decreases |ins|
  {
    if ins == [] {
    } else {
      var next := Next(log, ins[0]);
      RunKeepsShape(next, ds, dc, ins[1..]);
      var end := Run(log, ins);
      assert log.list[..log.committed] <= next.list[..next.committed];
    }
  }

  lemma GrantOfACycle(log: Log, ds: nat, dc: nat, i: Input)
    requires Allowed(log, ds, dc, i)
    requires |log.list| - log.committed <= ds && log.committed - log.granted <= dc
    ensures var next := Next(log, i);
      && next.WellFormed() && |next.list| - next.committed <= ds && next.committed - next.granted <= dc
      && log.list[..log.granted] + GrantedIn(log, i) == next.list[..next.granted]
  {
  }

  // The cache sees the committed stores in program order, each exactly once:
  // its writes are the list up to the grant mark, and a committed store never
  // leaves the list.
  lemma {:induction false} GrantsFollowProgramOrder(log: Log, ds: nat, dc: nat, ins: seq<Input>)
    requires AllowedRun(log, ds, dc, ins) && log.WellFormed()
    requires |log.list| - log.committed <= ds && log.committed - log.granted <= dc
    ensures var end := Run(log, ins);
      end.WellFormed() && log.list[..log.granted] + Grants(log, ins) == end.list[..end.granted]
    decreases |ins|
  {
    if ins == [] {
      assert log.list[..log.granted] + [] == log.list[..log.granted];
    } else {
      var next, rest := Next(log, ins[0]), ins[1..];
      GrantOfACycle(log, ds, dc, ins[0]);
      GrantsFollowProgramOrder(next, ds, dc, rest);
      Concatenation(log.list[..log.granted], GrantedIn(log, ins[0]), Grants(next, rest));
    }
  }

  // `all` is `kept` and `dropped` shuffled: both in the order they have there.
  ghost predicate Interleaves(all: seq<Store>, kept: seq<Store>, dropped: seq<Store>)
    decreases |all|
  {
    if all == [] then kept == [] && dropped == []
    else
      || (kept != [] && kept[0] == all[0] && Interleaves(all[1..], kept[1..], dropped))
      || (dropped != [] && dropped[0] == all[0] && Interleaves(all[1..], kept, dropped[1..]))
  }

  lemma {:induction false} KeepBefore(c: seq<Store>, all: seq<Store>, kept: seq<Store>, dropped: seq<Store>)
    requires Interleaves(all, kept, dropped)
    ensures Interleaves(c + all, c + kept, dropped)
    decreases |c|
  {
    if c == [] {
      assert c + all == all && c + kept == kept;
    } else {
      KeepBefore(c[1..], all, kept, dropped);
      assert (c + all)[1..] == c[1..] + all && (c + kept)[1..] == c[1..] + kept;
    }
  }

  lemma {:induction false} DropBefore(x: seq<Store>, all: seq<Store>, kept: seq<Store>, dropped: seq<Store>)
    requires Interleaves(all, kept, dropped)
    ensures Interleaves(x + all, kept, x + dropped)
    decreases |x|
  {
    if x == [] {
      assert x + all == all && x + dropped == dropped;
    } else {
      DropBefore(x[1..], all, kept, dropped);
      assert (x + all)[1..] == x[1..] + all && (x + dropped)[1..] == x[1..] + dropped;
    }
  }

  lemma {:induction false} KeepAfter(all: seq<Store>, kept: seq<Store>, dropped: seq<Store>, u: seq<Store>)
    requires Interleaves(all, kept, dropped)
    ensures Interleaves(all + u, kept + u, dropped)
    decreases |all|
  {
    if all == [] {
      KeepBefore(u, [], [], []);
      assert all + u == u + [] && kept + u == u + [];
    } else {
      assert (all + u)[1..] == all[1..] + u;
      if kept != [] && kept[0] == all[0] && Interleaves(all[1..], kept[1..], dropped) {
        KeepAfter(all[1..], kept[1..], dropped, u);
        assert (kept + u)[1..] == kept[1..] + u;
      } else {
        KeepAfter(all[1..], kept, dropped[1..], u);
      }
    }
  }

  lemma {:induction false} InterleavingBalances(all: seq<Store>, kept: seq<Store>, dropped: seq<Store>)
    requires Interleaves(all, kept, dropped)
    ensures multiset(all) == multiset(kept) + multiset(dropped)
    decreases |all|
  {
    if all == [] {
    } else {
      assert all == [all[0]] + all[1..];
      if kept != [] && kept[0] == all[0] && Interleaves(all[1..], kept[1..], dropped) {
        InterleavingBalances(all[1..], kept[1..], dropped);
        assert kept == [kept[0]] + kept[1..];
      } else {
        InterleavingBalances(all[1..], kept, dropped[1..]);
        assert dropped == [dropped[0]] + dropped[1..];
      }
    }
  }

  // What is committed at first stays in front, what is not committed in the end
  // was pushed last, and in between every store was committed or dropped.
  ghost predicate Accounts(front: seq<Store>, all: seq<Store>, between: seq<Store>, dropped: seq<Store>, end: Log) {
    && end.WellFormed() && |front| <= end.committed && end.list[..|front|] == front
    && all == front + between + end.list[end.committed..]
    && Interleaves(between, end.list[|front|..end.committed], dropped)
  }

  lemma AccountsBeforeCommit(front: seq<Store>, x: Store, all: seq<Store>, later: seq<Store>, dropped: seq<Store>,
                             end: Log)
    requires Accounts(front + [x], all, later, dropped, end)
    ensures Accounts(front, all, [x] + later, dropped, end)
  {
    var c := |front|;
    KeepBefore([x], later, end.list[c + 1..end.committed], dropped);
    assert (front + [x])[..c] == front && end.list[..c] == end.list[..c + 1][..c];
    assert end.list[c] == end.list[..c + 1][c];
    assert end.list[c..end.committed] == [x] + end.list[c + 1..end.committed];
    Concatenation(front, [x], later);
  }

  lemma AccountsBeforeFlush(front: seq<Store>, xs: seq<Store>, pushed: seq<Store>, later: seq<Store>,
                            dropped: seq<Store>,
      end: Log)
    requires Accounts(front, front + pushed, later, dropped, end)
    ensures Accounts(front, front + (xs + pushed), xs + later, xs + dropped, end)
  {
    var last := end.list[end.committed..];
    DropBefore(xs, later, end.list[|front|..end.committed], dropped);
    assert (front + pushed)[|front|..] == pushed && (front + later + last)[|front|..] == later + last;
    assert front + (xs + pushed) == front + (xs + later) + last;
  }

  lemma {:induction false} AccountInOrder(log: Log, ds: nat, dc: nat, ins: seq<Input>) returns (between: seq<Store>)
    requires AllowedRun(log, ds, dc, ins) && log.WellFormed()
    ensures Accounts(log.list[..log.committed], log.list + Pushed(ins), between, Dropped(log, ins), Run(log, ins))
    decreases |ins|
  {
    if ins == [] {
      between := [];
      assert log.list + [] == log.list[..log.committed] + [] + log.list[log.committed..];
    } else {
      var i, rest := ins[0], ins[1..];
      var next := Next(log, i);
      between := AccountInOrder(next, ds, dc, rest);
      CycleAccount(log, i, Pushed(rest), Dropped(next, rest));
      if i.flush {
        AccountsBeforeFlush(next.list, DroppedIn(log, i), Pushed(rest), between, Dropped(next, rest), Run(log, ins));
        between := DroppedIn(log, i) + between;
      } else if i.commit {
        var x := next.list[log.committed];
        AccountsBeforeCommit(log.list[..log.committed], x, next.list + Pushed(rest), between, Dropped(next, rest),
                             Run(log, ins));
        between := [x] + between;
      }
    }
  }

  lemma CycleAccount(log: Log, i: Input, pushed: seq<Store>, dropped: seq<Store>)
    requires log.WellFormed() && Next(log, i).WellFormed() && (i.flush ==> !i.commit)
    ensures var front, next, p := log.list[..log.committed], Next(log, i), if i.valid then [i.arriving] else [];
      && (i.flush ==> next.list == front == next.list[..next.committed])
      && (i.flush ==> log.list + (p + pushed) == front + (DroppedIn(log, i) + pushed))
      && (!i.flush ==> log.list + (p + pushed) == next.list + pushed && DroppedIn(log, i) + dropped == dropped)
      && (!i.flush ==> next.list[..next.committed] == if i.commit then front + [next.list[log.committed]] else front)
  {
  }

  lemma AccountsInterleave(front: seq<Store>, all: seq<Store>, between: seq<Store>, dropped: seq<Store>, end: Log)
    requires Accounts(front, all, between, dropped, end)
    ensures Interleaves(all, end.list, dropped)
  {
    var kept, last := end.list[|front|..end.committed], end.list[end.committed..];
    KeepAfter(between, kept, dropped, last);
    KeepBefore(front, between + last, kept + last, dropped);
    Concatenation(front, between, last);
    ThreeParts(end.list, |front|, end.committed);
  }

  lemma ThreeParts(list: seq<Store>, c: nat, d: nat)
    requires c <= d <= |list|
    ensures list == list[..c] + (list[c..d] + list[d..])
  {
  }

  // Nothing is lost, nothing appears and nothing changes places: the list at the
  // end of a run is the pushed stores, in push order, with exactly those left out
  // that a flush dropped.
  lemma EveryStoreAccountedFor(log: Log, ds: nat, dc: nat, ins: seq<Input>)
    requires AllowedRun(log, ds, dc, ins) && log.WellFormed()
    ensures Interleaves(log.list + Pushed(ins), Run(log, ins).list, Dropped(log, ins))
    ensures multiset(log.list) + multiset(Pushed(ins)) == multiset(Run(log, ins).list) + multiset(Dropped(log, ins))
  {
    var between := AccountInOrder(log, ds, dc, ins);
    AccountsInterleave(log.list[..log.committed], log.list + Pushed(ins), between, Dropped(log, ins), Run(log, ins));
    InterleavingBalances(log.list + Pushed(ins), Run(log, ins).list, Dropped(log, ins));
  }

  lemma StoresOfACycle(log: Log, ds: nat, dc: nat, i: Input)
    requires Allowed(log, ds, dc, i)
    ensures multiset(log.list) + multiset(if i.valid then [i.arriving] else [])
         == multiset(Next(log, i).list) + multiset(DroppedIn(log, i))
  {
    if i.flush {
      assert log.list == log.list[..log.committed] + log.list[log.committed..];
    }
  }

  // ---------- The load interlock ----------

  lemma {:induction false} WriteAllAppend(m: Memory, a: seq<Store>, b: seq<Store>, d: nat)
    ensures WriteAll(m, a + b)(d) == WriteAll(WriteAll(m, a), b)(d)
    decreases |a|
  {
    if a == [] {
      assert a + b == b;
    } else {
      assert (a + b)[1..] == a[1..] + b;
      WriteAllAppend(Write(m, a[0]), a[1..], b, d);
    }
  }

  lemma {:induction false} WritesElsewhere(m: Memory, stores: seq<Store>, d: nat)
    requires forall k :: 0 <= k < |stores| ==> Doubleword(stores[k].address) != d
    ensures WriteAll(m, stores)(d) == m(d)
    decreases |stores|
  {
    if stores == [] {
    } else {
      WritesElsewhere(Write(m, stores[0]), stores[1..], d);
    }
  }

  // A load whose page offset matches nothing reads from memory, where only the
  // granted stores have arrived, what program order says: the value after every
  // older store, queued or just arriving. Page offsets are the same virtually
  // and physically, so the low twelve bits of the physical address are known.
  lemma UnmatchedLoadReadsProgramOrder(m: Memory, log: Log, arriving: seq<Store>, paddr: nat)
    requires log.WellFormed()
    requires !AnyMatches(paddr % 4096, log.Waiting()) && !AnyMatches(paddr % 4096, arriving)
    ensures WriteAll(m, log.list[..log.granted])(Doubleword(paddr))
         == WriteAll(m, log.list + arriving)(Doubleword(paddr))
  {
    var d, rest := Doubleword(paddr), log.Waiting() + arriving;
    forall k | 0 <= k < |rest|
      ensures Doubleword(rest[k].address) != d
    {
      if k < |log.Waiting()| {
        assert !SameOffset(paddr % 4096, log.Waiting()[k]);
      } else {
        assert !SameOffset(paddr % 4096, arriving[k - |log.Waiting()|]);
      }
      PageOffset(paddr);
    }
    assert log.list + arriving == log.list[..log.granted] + rest;
    WriteAllAppend(m, log.list[..log.granted], rest, d);
    WritesElsewhere(WriteAll(m, log.list[..log.granted]), rest, d);
  }

  lemma PageOffset(paddr: nat)
    ensures ((paddr % 4096) / 8) % 512 == (paddr / 8) % 512
  {
  }

  // The same over a whole run: after any allowed history the memory the cache
  // has built answers an unmatched load as program order would.
  lemma LoadsSeeProgramOrder(m: Memory, ds: nat, dc: nat, ins: seq<Input>, last: Input, paddr: nat)
    requires AllowedRun(EMPTY_LOG, ds, dc, ins)
    requires var log := Run(EMPTY_LOG, ins); log.WellFormed() ==>
      !AnyMatches(paddr % 4096, log.Waiting())
      && !(last.validWithoutFlush && SameOffset(paddr % 4096, last.arriving))
    ensures WriteAll(m, Grants(EMPTY_LOG, ins))(Doubleword(paddr))
         == WriteAll(m, Run(EMPTY_LOG, ins).list + if last.validWithoutFlush then [last.arriving] else [])
                    (Doubleword(paddr))
  {
    var log := Run(EMPTY_LOG, ins);
    GrantsFollowProgramOrder(EMPTY_LOG, ds, dc, ins);
    assert EMPTY_LOG.list[..0] + Grants(EMPTY_LOG, ins) == Grants(EMPTY_LOG, ins);
    var arriving := if last.validWithoutFlush then [last.arriving] else [];
    UnmatchedLoadReadsProgramOrder(m, log, arriving, paddr);
  }

  // ---------- What memory and a match are ----------

  // Byte k of doubleword d comes from the store.
  predicate Covers(st: Store, d: nat, k: nat)
    requires k < 8
  {
    st.address / 8 == d && st.be[k]
  }

  lemma {:induction false} NoStrobe(m: Memory, stores: seq<Store>, d: nat, k: nat)
    requires k < 8 && forall j :: 0 <= j < |stores| ==> !Covers(stores[j], d, k)
    ensures WriteAll(m, stores)(d)[k] == m(d)[k]
    decreases |stores|
  {
    if stores != [] {
      assert !Covers(stores[0], d, k);
      NoStrobe(Write(m, stores[0]), stores[1..], d, k);
    }
  }

  // A byte of memory is that of the last store that strobes it; without one it
  // stays, by NoStrobe.
  lemma {:induction false} LastStrobeWins(m: Memory, stores: seq<Store>, j: nat, d: nat, k: nat)
    requires k < 8 && j < |stores| && Covers(stores[j], d, k)
    requires forall l :: j < l < |stores| ==> !Covers(stores[l], d, k)
    ensures WriteAll(m, stores)(d)[k] == stores[j].data[k]
    decreases |stores|
  {
    var rest := stores[1..];
    assert forall l :: 0 <= l < |rest| ==> rest[l] == stores[l + 1];
    if j > 0 {
      LastStrobeWins(Write(m, stores[0]), rest, j - 1, d, k);
    } else {
      assert Write(m, stores[0])(d) == Merge(m(d), stores[0]);
      NoStrobe(Write(m, stores[0]), rest, d, k);
    }
  }

  // A load is held back by exactly the stores to its place in a page: those with
  // the same doubleword of the same offset, and so by every store to its address.
  lemma MatchMeansSameDoubleword(paddr: nat, st: Store)
    ensures SameOffset(paddr % 4096, st) <==> (paddr % 4096) / 8 == (st.address % 4096) / 8
    ensures paddr / 4096 == st.address / 4096 ==>
      (SameOffset(paddr % 4096, st) <==> paddr / 8 == st.address / 8)
  {
    PageOffset(paddr);
    OffsetField(paddr);
    OffsetField(st.address);
  }

  lemma OffsetField(a: nat)
    ensures (a % 4096) / 8 == (a / 8) % 512 && a / 8 == 512 * (a / 4096) + (a / 8) % 512
  {
    assert a / 8 / 512 == a / 4096;
  }

  // ---------- The two rings ----------

  class Buffer {
    const depthSpec: nat
    const depthCommit: nat
    const specQueue: array<Slot<Store>>
    const commitQueue: array<Slot<Store>>
    var specCount: nat
    var specRead: nat
    var specWrite: nat
    var commitCount: nat
    var commitRead: nat
    var commitWrite: nat
    ghost var log: Log

    ghost predicate SpecValid(stores: seq<Store>)
      reads this, specQueue
    {
      && specQueue.Length == depthSpec && Ring(specQueue[..], specRead, stores)
      && specCount == |stores| && specWrite == Advance(specRead, specCount, depthSpec)
    }

    ghost predicate CommitValid(stores: seq<Store>)
      reads this, commitQueue
    {
      && commitQueue.Length == depthCommit && Ring(commitQueue[..], commitRead, stores)
      && commitCount == |stores| && commitWrite == Advance(commitRead, commitCount, depthCommit)
    }

    ghost predicate Valid()
      reads this, specQueue, commitQueue
    {
      && specQueue != commitQueue && log.WellFormed()
      && SpecValid(log.Speculative()) && CommitValid(log.Draining())
    }

    constructor (ds: nat, dc: nat)
      requires ds > 0 && dc > 0
      ensures Valid() && fresh(specQueue) && fresh(commitQueue)
      ensures depthSpec == ds && depthCommit == dc && log == EMPTY_LOG
    {
      depthSpec, depthCommit := ds, dc;
      var blank := Slot(Store(0, [0, 0, 0, 0, 0, 0, 0, 0],
                              [false, false, false, false, false, false, false, false], 0), false);
      specQueue := new Slot<Store>[ds](_ => blank);
      commitQueue := new Slot<Store>[dc](_ => blank);
      specCount, specRead, specWrite, commitCount, commitRead, commitWrite := 0, 0, 0, 0, 0, 0;
      log := EMPTY_LOG;
    }

    // Is a store to the same offset within a page on its way? Both rings are
    // searched slot by slot, wherever their pointers stand.
    method AddressChecker(i: Input) returns (matches: bool)
      requires Valid()
      ensures matches <==> (AnyMatches(i.pageOffset, log.Waiting())
                            || (i.validWithoutFlush && SameOffset(i.pageOffset, i.arriving)))
    {
      MatchInEitherQueue(i.pageOffset, log);
      matches := SearchQueue(commitQueue, i.pageOffset, commitRead, log.Draining());
      if !matches {
        matches := SearchQueue(specQueue, i.pageOffset, specRead, log.Speculative());
      }
      if i.validWithoutFlush && SameOffset(i.pageOffset, i.arriving) {
        matches := true;
      }
    }

    method SearchQueue(queue: array<Slot<Store>>, pageOffset: nat, ghost read: nat, ghost stores: seq<Store>)
      returns (found: bool)
      requires Ring(queue[..], read, stores)
      ensures found <==> AnyMatches(pageOffset, stores)
    {
      found := false;
      for k := 0 to queue.Length
        invariant !found
        invariant forall j :: 0 <= j < k && queue[j].valid ==> !SameOffset(pageOffset, queue[j].item)
      {
        if SameOffset(pageOffset, queue[k].item) && queue[k].valid {
          found := true;
          assert queue[..][k].valid && stores[Offset(k, read, queue.Length)] == queue[k].item;
          break;
        }
      }
      if !found {
        forall k | 0 <= k < |stores|
          ensures !SameOffset(pageOffset, stores[k])
        {
          RingPlaces(queue[..], read, stores, k);
        }
      }
    }

    // Memory side: offer the oldest committed store, and take over the store
    // that commits.
    method StoreIf(commit: bool, grant: bool, ghost stores: seq<Store>, ghost head: Store)
      requires CommitValid(stores) && specQueue != commitQueue
      requires commit ==> |stores| < depthCommit && specRead < specQueue.Length
      requires commit ==> specQueue[specRead] == Slot(head, true)
      modifies this`commitCount, this`commitRead, this`commitWrite, commitQueue
      ensures CommitValid((if grant && stores != [] then stores[1..] else stores) + if commit then [head] else [])
    {
      RingHead(commitQueue[..], commitRead, stores);
      ghost var left := stores;
      if commitQueue[commitRead].valid && grant {
        Granted(stores);
        left := stores[1..];
      }
      if commit {
        Committed(left, head);
      }
    }

    method Granted(ghost stores: seq<Store>)
      requires CommitValid(stores) && stores != []
      modifies this`commitCount, this`commitRead, commitQueue
      ensures CommitValid(stores[1..])
    {
      ghost var q := commitQueue[..];
      RingPop(q, commitRead, stores, q[commitRead].item);
      commitQueue[commitRead] := commitQueue[commitRead].(valid := false);
      assert commitQueue[..] == q[commitRead := Slot(q[commitRead].item, false)];
      commitRead := Advance(commitRead, 1, depthCommit);
      commitCount := commitCount - 1;
    }

    method Committed(ghost stores: seq<Store>, ghost head: Store)
      requires CommitValid(stores) && |stores| < depthCommit && specQueue != commitQueue
      requires specRead < specQueue.Length && specQueue[specRead] == Slot(head, true)
      modifies this`commitCount, this`commitWrite, commitQueue
      ensures CommitValid(stores + [head])
    {
      ghost var q := commitQueue[..];
      RingPush(q, commitRead, stores, head);
      commitQueue[commitWrite] := specQueue[specRead];
      assert commitQueue[..] == q[commitWrite := Slot(head, true)];
      commitWrite := Advance(commitWrite, 1, depthCommit);
      commitCount := commitCount + 1;
    }

    // Core side: take a new store, evict the one that commits, forget everything
    // on a flush.
    method CoreIf(i: Input, ghost stores: seq<Store>)
      requires SpecValid(stores) && (i.flush ==> !i.commit)
      requires (i.valid ==> |stores| < depthSpec) && (i.commit ==> stores != [])
      modifies this`specCount, this`specRead, this`specWrite, specQueue
      ensures SpecValid(if i.flush then []
                        else (stores + if i.valid then [i.arriving] else [])[if i.commit then 1 else 0..])
    {
      ghost var now := stores + if i.valid then [i.arriving] else [];
      if i.valid {
        Arrived(i.arriving, stores);
      }
      if i.commit {
        Evicted(now);
      }
      if i.flush {
        Flushed();
      }
    }

    method Arrived(arriving: Store, ghost stores: seq<Store>)
      requires SpecValid(stores) && |stores| < depthSpec
      modifies this`specCount, this`specWrite, specQueue
      ensures SpecValid(stores + [arriving])
    {
      ghost var q := specQueue[..];
      RingPush(q, specRead, stores, arriving);
      specQueue[specWrite] := Slot(arriving, true);
      assert specQueue[..] == q[specWrite := Slot(arriving, true)];
      specWrite := Advance(specWrite, 1, depthSpec);
      specCount := specCount + 1;
    }

    method Evicted(ghost stores: seq<Store>)
      requires SpecValid(stores) && stores != []
      modifies this`specCount, this`specRead, specQueue
      ensures SpecValid(stores[1..])
    {
      ghost var q := specQueue[..];
      RingPop(q, specRead, stores, q[specRead].item);
      specQueue[specRead] := specQueue[specRead].(valid := false);
      assert specQueue[..] == q[specRead := Slot(q[specRead].item, false)];
      specRead := Advance(specRead, 1, depthSpec);
      specCount := specCount - 1;
    }

    method Flushed()
      requires specQueue.Length == depthSpec && specRead < depthSpec
      modifies this`specCount, this`specWrite, specQueue
      ensures SpecValid([])
    {
      for k := 0 to specQueue.Length
        invariant specQueue.Length == depthSpec
        invariant forall j :: 0 <= j < k ==> !specQueue[j].valid
      {
        specQueue[k] := specQueue[k].(valid := false);
      }
      specWrite := specRead;
      specCount := 0;
    }

    // What the cycle shows to the cache, the commit stage and the load unit.
    method Outputs(i: Input) returns (o: Output)
      requires Valid() && depthSpec > 0 && depthCommit > 0
      ensures Answers(log, depthSpec, depthCommit, i, o)
    {
      var matches := AddressChecker(i);
      RingHead(commitQueue[..], commitRead, log.Draining());
      o := Output(commitCount == 0, commitCount < depthCommit, specCount < depthSpec - 1 || i.commit, matches,
                  commitQueue[commitRead].valid, commitQueue[commitRead].item);
    }

    // Both rings move on.
    method Update(i: Input, ghost draining: seq<Store>, ghost speculative: seq<Store>)
      requires CommitValid(draining) && SpecValid(speculative) && specQueue != commitQueue
      requires (i.flush ==> !i.commit) && (i.valid ==> |speculative| < depthSpec)
      requires i.commit ==> speculative != [] && |draining| < depthCommit
      modifies this`specCount, this`specRead, this`specWrite, this`commitCount, this`commitRead, this`commitWrite
      modifies specQueue, commitQueue
      ensures CommitValid((if i.grant && draining != [] then draining[1..] else draining)
                          + if i.commit then [speculative[0]] else [])
      ensures SpecValid(if i.flush then []
                        else (speculative + if i.valid then [i.arriving] else [])[if i.commit then 1 else 0..])
    {
      RingHead(specQueue[..], specRead, speculative);
      ghost var head := if i.commit then speculative[0] else i.arriving;
      StoreIf(i.commit, i.grant, draining, head);
      CoreIf(i, speculative);
    }

    // One clock cycle.
    method Step(i: Input) returns (o: Output)
      requires Valid() && Allowed(log, depthSpec, depthCommit, i)
      modifies this, specQueue, commitQueue
      ensures Valid() && log == Next(old(log), i)
      ensures Answers(old(log), depthSpec, depthCommit, i, o)
    {
      o := Outputs(i);
      Update(i, log.Draining(), log.Speculative());
      NextQueues(log, depthSpec, depthCommit, i);
      log := Next(log, i);
    }
  }

  lemma MatchInEitherQueue(pageOffset: nat, log: Log)
    requires log.WellFormed()
    ensures AnyMatches(pageOffset, log.Waiting())
       <==> AnyMatches(pageOffset, log.Draining()) || AnyMatches(pageOffset, log.Speculative())
  {
    var w, d, s := log.Waiting(), log.Draining(), log.Speculative();
    assert w == d + s;
    if k :| 0 <= k < |s| && SameOffset(pageOffset, s[k]) {
      assert w[|d| + k] == s[k];
    }
    if k :| 0 <= k < |d| && SameOffset(pageOffset, d[k]) {
      assert w[k] == d[k];
    }
  }

  // What a step of the list does to its two queues.
  lemma NextQueues(log: Log, ds: nat, dc: nat, i: Input)
    requires Allowed(log, ds, dc, i)
    ensures var next := Next(log, i);
      && next.WellFormed()
      && next.Draining() == (if i.grant && log.Draining() != [] then log.Draining()[1..] else log.Draining())
                          + (if i.commit then [log.Speculative()[0]] else [])
      && next.Speculative() == if i.flush then []
           else (log.Speculative() + if i.valid then [i.arriving] else [])[if i.commit then 1 else 0..]
  {
    NextSpeculative(log, ds, dc, i);
  }

  lemma NextSpeculative(log: Log, ds: nat, dc: nat, i: Input)
    requires Allowed(log, ds, dc, i)
    ensures var next := Next(log, i);
      next.WellFormed() && next.Speculative() == if i.flush then []
        else (log.Speculative() + if i.valid then [i.arriving] else [])[if i.commit then 1 else 0..]
  {
  }
}
