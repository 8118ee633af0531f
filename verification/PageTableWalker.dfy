/**
  The hardware page-table walker of src/ptw.sv: one state machine that fetches
  entries through the data cache's request/grant/response port and either
  updates a TLB or reports an error.
*/
module PageTableWalker {
  import opened PageWalk

  datatype State = Idle | WaitGrant | PteLookup | WaitRvalid | PropagateError

  // ---------- The cache port ----------

  // What matters for matching responses to requests: the state, whether a
  // granted request has not been answered yet, and whether an answer sits in
  // the input register.
  datatype Port = Port(state: State, owed: bool, arrived: bool)

  // After looking at an entry the walker goes on to the next level, stops with
  // an error, or is done.
  datatype Verdict = Descend | Error | Done

  datatype PortInput = PortInput(flush: bool, miss: bool, grant: bool, rvalid: bool, verdict: Verdict)

  // The cache answers granted requests only, in a later cycle.
  predicate CacheAllowed(p: Port, i: PortInput) {
    i.rvalid ==> p.owed
  }

  function StateNext(p: Port, i: PortInput): State {
    if i.flush then
      if (p.state.PteLookup? && !p.arrived) || (p.state.WaitGrant? && i.grant) then WaitRvalid else Idle
    else
      match p.state
      case Idle => if i.miss then WaitGrant else Idle
      case WaitGrant => if i.grant then PteLookup else WaitGrant
      case PteLookup =>
        if !p.arrived then PteLookup
        else (match i.verdict case Descend => WaitGrant case Error => PropagateError case Done => Idle)
      case PropagateError => Idle
      case WaitRvalid => if p.arrived then Idle else WaitRvalid
  }

  function PortNext(p: Port, i: PortInput): Port {
    Port(StateNext(p, i), (p.state.WaitGrant? && i.grant) || (p.owed && !i.rvalid), i.rvalid)
  }

  // Exactly one answer, on its way or in the register, is outstanding while the
  // walker waits for one, and none in any other state.
  ghost predicate Matched(p: Port) {
    if p.state.PteLookup? || p.state.WaitRvalid? then p.owed != p.arrived else !p.owed && !p.arrived
  }

  // A flush while the answer of an already flushed walk is still awaited.
  predicate SecondFlush(p: Port, i: PortInput) {
    i.flush && p.state.WaitRvalid? && !p.arrived
  }

  // The walker keeps requests and answers matched in exactly the cycles
  // without such a second flush.
  lemma MatchedUntilSecondFlush(p: Port, i: PortInput)
    requires Matched(p) && CacheAllowed(p, i)
    ensures Matched(PortNext(p, i)) <==> !SecondFlush(p, i)
  {
  }

  ghost predicate PortRun(p: Port, ins: seq<PortInput>)
    decreases |ins|
  {
    ins == [] || (CacheAllowed(p, ins[0]) && !SecondFlush(p, ins[0]) && PortRun(PortNext(p, ins[0]), ins[1..]))
  }

  function PortAfter(p: Port, ins: seq<PortInput>): Port
    decreases |ins|
  {
    if ins == [] then p else PortAfter(PortNext(p, ins[0]), ins[1..])
  }

  // In no run without a second flush is the walker idle or asking for an entry
  // with an answer outstanding, so no answer is ever taken for another walk's.
  lemma {:induction false} NoStaleAnswer(p: Port, ins: seq<PortInput>)
    requires Matched(p) && PortRun(p, ins)
    ensures Matched(PortAfter(p, ins))
    ensures PortAfter(p, ins).state in {Idle, WaitGrant} ==> !PortAfter(p, ins).owed && !PortAfter(p, ins).arrived
    decreases |ins|
  {
    if ins == [] {
    } else {
      MatchedUntilSecondFlush(p, ins[0]);
      NoStaleAnswer(PortNext(p, ins[0]), ins[1..]);
    }
  }

  // With a second flush it happens: a new walk reaches its lookup with the old
  // walk's answer in the register, while its own is still owed.
  lemma SecondFlushLetsAnswerThrough()
    ensures var quiet := PortInput(false, false, false, false, Done);
      var ins := [quiet.(miss := true), quiet.(grant := true), quiet.(flush := true), quiet.(flush := true),
                  quiet.(miss := true), quiet.(grant := true, rvalid := true)];
      PortAfter(Port(Idle, false, false), ins) == Port(PteLookup, true, true)
  {
    var quiet := PortInput(false, false, false, false, Done);
    var p0 := Port(Idle, false, false);
    var p1 := PortNext(p0, quiet.(miss := true));
    var p2 := PortNext(p1, quiet.(grant := true));
    var p3 := PortNext(p2, quiet.(flush := true));
    var p4 := PortNext(p3, quiet.(flush := true));
    var p5 := PortNext(p4, quiet.(miss := true));
    assert p5 == Port(WaitGrant, true, false);
    var e := quiet.(grant := true, rvalid := true);
    assert PortAfter(p5, [e]) == PortNext(p5, e);
    assert PortAfter(p4, [quiet.(miss := true), e]) == PortAfter(p5, [e]);
    assert PortAfter(p3, [quiet.(flush := true), quiet.(miss := true), e]) == PortAfter(p4, [quiet.(miss := true), e]);
    assert PortAfter(p2, [quiet.(flush := true), quiet.(flush := true), quiet.(miss := true), e])
        == PortAfter(p3, [quiet.(flush := true), quiet.(miss := true), e]);
    assert PortAfter(p1, [quiet.(grant := true), quiet.(flush := true), quiet.(flush := true), quiet.(miss := true), e])
        == PortAfter(p2, [quiet.(flush := true), quiet.(flush := true), quiet.(miss := true), e]);
  }

  // ---------- The walk ----------

  datatype Job = Job(root: nat, vaddr: nat, access: Access, asid: nat)

  function Reference(table: PageTable, j: Job): Outcome {
    Walk(table, j.root, j.vaddr, WithoutUserBit(j.access))
  }

  // What the specification makes of an entry at a level.
  function VerdictOn(pte: Pte, level: nat, access: Access): Verdict {
    if !pte.v || (!pte.r && pte.w) then Error
    else if pte.r || pte.x then
      if Allows(access, pte) && pte.ppn % Pages(level) == 0 then Done else Error
    else if level == 0 then Error
    else Descend
  }

  // The walk from here on is the walk from the root.
  ghost predicate OnTheWay(table: PageTable, j: Job, at: nat, level: nat, g: bool) {
    WalkFrom(table, j.vaddr, WithoutUserBit(j.access), at, level, g) == Reference(table, j)
  }

  lemma LookupFollowsSpecification(table: PageTable, j: Job, at: nat, level: nat, g: bool)
    requires level <= 2 && OnTheWay(table, j, at, level, g)
    ensures var pte := table(at);
      match VerdictOn(pte, level, j.access)
      case Error => Reference(table, j) == Fault
      case Done => Reference(table, j) == Leaf(pte.(g := g || pte.g), level)
      case Descend =>
        && level > 0
        && OnTheWay(table, j, EntryAddress(pte.ppn, j.vaddr, level - 1), level - 1, g || pte.g)
  {
  }

  // ---------- Registers ----------

  datatype Level = LVL1 | LVL2 | LVL3

  // Distance of a level from the leaves.
  function Height(l: Level): (h: nat)
    ensures h <= 2
  {
    match l case LVL1 => 2 case LVL2 => 1 case LVL3 => 0
  }

  datatype Input = Input(
    flush: bool, enableFetch: bool, enableData: bool, isStore: bool, mxr: bool, asid: nat, satpPpn: nat,
    itlbAccess: bool, itlbHit: bool, itlbVaddr: nat, dtlbAccess: bool, dtlbHit: bool, dtlbVaddr: nat,
    grant: bool, rvalid: bool, rdata: Pte)

  datatype Output = Output(
    active: bool, walkingInstr: bool, error: bool, request: bool, address: nat, tagValid: bool,
    itlbUpdate: bool, dtlbUpdate: bool, entry: TlbEntry, itlbMiss: bool, dtlbMiss: bool)

  predicate FetchMiss(i: Input) {
    i.enableFetch && i.itlbAccess && !i.itlbHit && !i.dtlbAccess
  }

  predicate DataMiss(i: Input) {
    i.enableData && i.dtlbAccess && !i.dtlbHit
  }

  function DataAccess(i: Input): Access {
    if i.isStore then Store(i.mxr) else Load(i.mxr)
  }

  function JobFor(i: Input): Job {
    if FetchMiss(i) then Job(i.satpPpn, i.itlbVaddr, Fetch, i.asid)
    else Job(i.satpPpn, i.dtlbVaddr, DataAccess(i), i.asid)
  }

  // The registers that steer a walk.
  datatype Position = Walking(state: State, lvl: Level, pptr: nat, global: bool, isInstr: bool, vaddr: nat, asid: nat)

  // The registers are where the specified walk of job j would be.
  ghost predicate Tracks(table: PageTable, j: Job, lookups: nat, w: Position) {
    && (w.state.WaitGrant? || w.state.PteLookup? ==>
          && OnTheWay(table, j, w.pptr, Height(w.lvl), w.global)
          && w.isInstr == j.access.Fetch? && w.vaddr == j.vaddr && w.asid == j.asid
          && lookups == (if w.state.WaitGrant? then 2 else 3) - Height(w.lvl))
    && (w.state.PropagateError? ==> Reference(table, j) == Fault && w.isInstr == j.access.Fetch?)
    && lookups <= 3
  }

  // What a cycle's outputs say about the walk in progress.
  ghost predicate Reports(table: PageTable, j: Job, w: Position, o: Output) {
    var r := Reference(table, j);
    && (o.itlbUpdate || o.dtlbUpdate ==>
          && r.Leaf? && o.entry == EntryFor(j.vaddr, j.asid, r.pte, r.level)
          && o.itlbUpdate == j.access.Fetch? && o.dtlbUpdate == !o.itlbUpdate)
    && o.error == w.state.PropagateError?
    && (o.error ==> r == Fault && o.walkingInstr == j.access.Fetch?)
    && o.request == w.state.WaitGrant? && (o.request ==> o.address == w.pptr)
    && o.active == !w.state.Idle?
  }

  // ---------- The machine ----------

  // The registers: position, tag valid, and the registered answer of the cache.
  datatype Regs = Regs(w: Position, tagValid: bool, arrived: bool, rdata: Pte)

  // The access whose permissions the entry is checked for.
  function CheckedAccess(w: Position, i: Input): Access {
    if w.isInstr then Fetch else DataAccess(i)
  }

  function VerdictIn(r: Regs, i: Input): Verdict {
    VerdictOn(r.rdata, Height(r.w.lvl), CheckedAccess(r.w, i))
  }

  function PortInputOf(r: Regs, i: Input): PortInput {
    PortInput(i.flush, FetchMiss(i) || DataMiss(i), i.grant, i.rvalid, VerdictIn(r, i))
  }

  // Where a walk begins, and where it goes on after a look at a pointer.
  function Start(i: Input): Position {
    if FetchMiss(i) then
      Walking(WaitGrant, LVL1, EntryAddress(i.satpPpn, i.itlbVaddr, 2), false, true, i.itlbVaddr, i.asid)
    else
      Walking(WaitGrant, LVL1, EntryAddress(i.satpPpn, i.dtlbVaddr, 2), false, false, i.dtlbVaddr, i.asid)
  }

  function Down(w: Position, pte: Pte): Position {
    var next := if w.lvl.LVL1? then LVL2 else LVL3;
    w.(state := WaitGrant, lvl := next, global := w.global || pte.g,
       pptr := EntryAddress(pte.ppn, w.vaddr, Height(next)))
  }

  // The next position without the flush.
  ghost predicate Moves(r: Regs, i: Input, v: Position) {
    match r.w.state
    case Idle => if FetchMiss(i) || DataMiss(i) then v == Start(i) else v.state.Idle?
    case WaitGrant => v == if i.grant then r.w.(state := PteLookup) else r.w
    case PteLookup =>
      if !r.arrived then v == r.w
      else
        (match VerdictIn(r, i)
         case Descend => v == Down(r.w, r.rdata)
         case Error => v.state.PropagateError? && v.isInstr == r.w.isInstr
         case Done => v.state.Idle?)
    case PropagateError => v.state.Idle?
    case WaitRvalid => v.state == if r.arrived then Idle else WaitRvalid
  }

  // The clock edge. A flush ends the walk; an answer still to come is waited for.
  ghost predicate Edge(r: Regs, i: Input, d: Regs) {
    && d.arrived == i.rvalid && d.rdata == i.rdata && d.tagValid == (r.w.state.WaitGrant? && i.grant)
    && (i.flush ==> d.w.state == StateNext(Port(r.w.state, false, r.arrived), PortInputOf(r, i)))
    && (!i.flush ==> Moves(r, i, d.w))
  }

  // The outputs of a cycle.
  ghost predicate Shows(r: Regs, i: Input, o: Output) {
    var done := r.w.state.PteLookup? && r.arrived && VerdictIn(r, i).Done?;
    && o.itlbUpdate == (done && r.w.isInstr) && o.dtlbUpdate == (done && !r.w.isInstr)
    && o.entry == EntryFor(r.w.vaddr, r.w.asid, r.rdata.(g := r.rdata.g || r.w.global), Height(r.w.lvl))
    && o.active == !r.w.state.Idle? && o.walkingInstr == r.w.isInstr && o.error == r.w.state.PropagateError?
    && o.request == r.w.state.WaitGrant? && o.address == r.w.pptr && o.tagValid == r.tagValid
    && o.itlbMiss == (r.w.state.Idle? && FetchMiss(i))
    && o.dtlbMiss == (r.w.state.Idle? && !FetchMiss(i) && DataMiss(i))
  }

  // The registers with what is known from outside: whether a granted request has
  // no answer yet, the walk they are in, and the entries requested for it.
  datatype Machine = Machine(r: Regs, owed: bool, job: Job, lookups: nat)

  function PortOf(m: Machine): Port {
    Port(m.r.w.state, m.owed, m.r.arrived)
  }

  ghost predicate Sound(table: PageTable, m: Machine) {
    && Matched(PortOf(m)) && Tracks(table, m.job, m.lookups, m.r.w)
    && (m.r.w.state.PteLookup? && m.r.arrived ==> m.r.rdata == table(m.r.w.pptr))
  }

  // The cache answers with the entry that was asked for, and the access that
  // caused the walk does not change under it.
  ghost predicate Environment(table: PageTable, m: Machine, i: Input) {
    && (i.rvalid ==> m.owed && (m.r.w.state.PteLookup? ==> i.rdata == table(m.r.w.pptr)))
    && (m.r.w.state.PteLookup? && !m.job.access.Fetch? ==> DataAccess(i) == m.job.access)
    && !SecondFlush(PortOf(m), PortInputOf(m.r, i))
  }

  function Follow(m: Machine, i: Input, d: Regs): Machine {
    Machine(d, PortNext(PortOf(m), PortInputOf(m.r, i)).owed,
            if m.r.w.state.Idle? then JobFor(i) else m.job,
            if m.r.w.state.Idle? then 0 else if m.r.w.state.WaitGrant? && i.grant then m.lookups + 1 else m.lookups)
  }

  // Every cycle keeps the registers on the specified walk, and what it puts out
  // is what that walk comes to.
  lemma CycleIsSound(table: PageTable, m: Machine, i: Input, o: Output, d: Regs)
    requires Sound(table, m) && Environment(table, m, i) && Edge(m.r, i, d) && Shows(m.r, i, o)
    ensures Sound(table, Follow(m, i, d)) && Reports(table, m.job, m.r.w, o)
    ensures PortOf(Follow(m, i, d)) == PortNext(PortOf(m), PortInputOf(m.r, i))
  {
    MatchedUntilSecondFlush(PortOf(m), PortInputOf(m.r, i));
    PositionTracks(table, m, i, d);
    OutputReports(table, m, i, o);
  }

  lemma PositionTracks(table: PageTable, m: Machine, i: Input, d: Regs)
    requires Sound(table, m) && Environment(table, m, i) && Edge(m.r, i, d)
    ensures var n := Follow(m, i, d);
      && Tracks(table, n.job, n.lookups, d.w)
      && d.w.state == StateNext(PortOf(m), PortInputOf(m.r, i))
      && (d.w.state.PteLookup? && m.r.w.state.PteLookup? ==> d.w.pptr == m.r.w.pptr)
  {
    if m.r.w.state.PteLookup? && m.r.arrived {
      LookupFollowsSpecification(table, m.job, m.r.w.pptr, Height(m.r.w.lvl), m.r.w.global);
    }
  }

  lemma OutputReports(table: PageTable, m: Machine, i: Input, o: Output)
    requires Sound(table, m) && Environment(table, m, i) && Shows(m.r, i, o)
    ensures Reports(table, m.job, m.r.w, o)
  {
    if m.r.w.state.PteLookup? && m.r.arrived {
      LookupFollowsSpecification(table, m.job, m.r.w.pptr, Height(m.r.w.lvl), m.r.w.global);
    }
  }

  // ---------- Whole walks ----------

  datatype Cycle = Cycle(i: Input, o: Output, after: Regs)

  // A run without a flush in which the environment keeps its rules.
  ghost predicate Run(table: PageTable, m: Machine, run: seq<Cycle>)
    decreases |run|
  {
    run == [] ||
    (var c := run[0];
     && !c.i.flush && Environment(table, m, c.i) && Edge(m.r, c.i, c.after) && Shows(m.r, c.i, c.o)
     && Run(table, Follow(m, c.i, c.after), run[1..]))
  }

  // The walker is idle again at the end of the run and not before.
  predicate UntilIdle(run: seq<Cycle>)
    decreases |run|
  {
    run != [] && if |run| == 1 then run[0].after.w.state.Idle? else !run[0].after.w.state.Idle? && UntilIdle(run[1..])
  }

  predicate Updates(o: Output) {
    o.itlbUpdate || o.dtlbUpdate
  }

  function Lookups(run: seq<Cycle>): nat {
    if run == [] then 0 else (if run[0].o.request && run[0].i.grant then 1 else 0) + Lookups(run[1..])
  }

  // How a walk of job j ends: with the specified walk's leaf for the TLB of the
  // access, or with an error where that walk faults.
  ghost predicate EndsAs(table: PageTable, j: Job, o: Output) {
    var r := Reference(table, j);
    && o.error == !Updates(o) && o.error == r.Fault? && o.walkingInstr == j.access.Fetch?
    && (r.Leaf? ==> o.entry == EntryFor(j.vaddr, j.asid, r.pte, r.level)
                    && o.itlbUpdate == j.access.Fetch? && o.dtlbUpdate == !j.access.Fetch?)
  }

  lemma {:induction false} WalkGoesOn(table: PageTable, m: Machine, run: seq<Cycle>)
    requires Sound(table, m) && Run(table, m, run) && UntilIdle(run)
    requires m.r.w.state in {WaitGrant, PteLookup, PropagateError}
    ensures EndsAs(table, m.job, run[|run| - 1].o) && m.lookups + Lookups(run) <= 3
    ensures forall k :: 0 <= k < |run| - 1 ==> !Updates(run[k].o) && !run[k].o.error
    decreases |run|
  {
    var c := run[0];
    var next := Follow(m, c.i, c.after);
    CycleIsSound(table, m, c.i, c.o, c.after);
    if |run| == 1 {
      assert Lookups(run) == Lookups(run[1..]) == 0;
    } else {
      WalkGoesOn(table, next, run[1..]);
      assert !Updates(c.o) && !c.o.error;
      assert forall k :: 1 <= k < |run| ==> run[k] == run[1..][k - 1];
    }
  }

  // From idle with a miss to the next idle cycle, without a flush: exactly one
  // cycle, the last, reports, and it reports what the specified walk comes to,
  // after at most three entries. A lookup of the TLB entry it delivers, for any
  // privilege level, then translates as specified, and an error is a page fault.
  lemma WalkIsSpecified(table: PageTable, m: Machine, run: seq<Cycle>, p: Privilege)
    requires Sound(table, m) && m.r.w.state.Idle? && Run(table, m, run) && |run| > 1 && UntilIdle(run)
    ensures var j, last := JobFor(run[0].i), run[|run| - 1].o;
      && EndsAs(table, j, last) && Lookups(run) <= 3
      && (forall k :: 0 <= k < |run| - 1 ==> !Updates(run[k].o) && !run[k].o.error)
      && Translate(table, j.root, j.vaddr, j.access, p)
         == if last.error then PageFault else HitResult(last.entry, j.vaddr, j.access, p)
  {
    var c := run[0];
    var j, next := JobFor(c.i), Follow(m, c.i, c.after);
    CycleIsSound(table, m, c.i, c.o, c.after);
    WalkGoesOn(table, next, run[1..]);
    assert forall k :: 1 <= k < |run| ==> run[k] == run[1..][k - 1];
    WalkThenHit(table, j.root, j.vaddr, j.asid, j.access, p);
  }

  // The same in full: which access is served, and what becomes of it. A fetch
  // waits for every data access. What the lookup of the delivered entry gives at any
  // privilege level, or a page fault for an error, is the translation of section
  // 4.4 written out.
  lemma MissIsServed(table: PageTable, m: Machine, run: seq<Cycle>, p: Privilege)
    requires Sound(table, m) && m.r.w.state.Idle? && Run(table, m, run) && |run| > 1 && UntilIdle(run)
    ensures var i, last := run[0].i, run[|run| - 1].o;
      var fetch := i.enableFetch && i.itlbAccess && !i.itlbHit && !i.dtlbAccess;
      var vaddr := if fetch then i.itlbVaddr else i.dtlbVaddr;
      var access := if fetch then Fetch else if i.isStore then Store(i.mxr) else Load(i.mxr);
      && (fetch || (i.enableData && i.dtlbAccess && !i.dtlbHit))
      && Sv39(table, i.satpPpn, vaddr, access, p)
         == (if last.error then PageFault else HitResult(last.entry, vaddr, access, p))
      && (!last.error ==> (if fetch then last.itlbUpdate && !last.dtlbUpdate else last.dtlbUpdate && !last.itlbUpdate)
                          && last.entry.asid == i.asid && last.entry.vpn == (vaddr % 0x80_0000_0000) / 4096)
  {
    WalkIsSpecified(table, m, run, p);
    var j := JobFor(run[0].i);
    TranslateIsSv39(table, j.root, j.vaddr, j.access, p);
    var r := Reference(table, j);
    if r.Leaf? {
      LeafIsAllowed(table, j.vaddr, WithoutUserBit(j.access), EntryAddress(j.root, j.vaddr, 2), 2, false);
      EntryFields(j.vaddr, j.asid, r.pte, r.level);
    }
  }

  // ---------- Walks end ----------

  // Cycles that wait for the cache, with the walker at r in the first.
  function Waits(r: Regs, run: seq<Cycle>): nat
    decreases |run|
  {
    if run == [] then 0
    else
      (if (r.w.state.WaitGrant? && !run[0].i.grant) || (r.w.state.PteLookup? && !r.arrived) then 1 else 0)
      + Waits(run[0].after, run[1..])
  }

  // The other cycles a walk still has at most: a grant and a look for each level,
  // and the error.
  function Remaining(w: Position): nat {
    match w.state
    case WaitGrant => 2 * Height(w.lvl) + 3
    case PteLookup => 2 * Height(w.lvl) + 2
    case PropagateError => 1
    case _ => 0
  }

  lemma {:induction false} WalkTakes(table: PageTable, m: Machine, run: seq<Cycle>)
    requires Sound(table, m) && Run(table, m, run) && m.r.w.state in {WaitGrant, PteLookup, PropagateError}
    requires forall k :: 0 <= k < |run| - 1 ==> !run[k].after.w.state.Idle?
    ensures |run| <= Remaining(m.r.w) + Waits(m.r, run)
    decreases |run|
  {
    if run != [] {
      var c := run[0];
      var next := Follow(m, c.i, c.after);
      CycleIsSound(table, m, c.i, c.o, c.after);
      StepTowardsEnd(table, m, c);
      if |run| > 1 {
        assert forall k :: 0 <= k < |run| - 2 ==> run[1..][k] == run[k + 1];
        WalkTakes(table, next, run[1..]);
      }
    }
  }

  lemma StepTowardsEnd(table: PageTable, m: Machine, c: Cycle)
    requires Sound(table, m) && Environment(table, m, c.i) && Edge(m.r, c.i, c.after) && !c.i.flush
    requires m.r.w.state in {WaitGrant, PteLookup, PropagateError}
    ensures c.after.w.state in {Idle, WaitGrant, PteLookup, PropagateError}
    ensures if (m.r.w.state.WaitGrant? && !c.i.grant) || (m.r.w.state.PteLookup? && !m.r.arrived)
      then Remaining(c.after.w) == Remaining(m.r.w)
      else Remaining(c.after.w) < Remaining(m.r.w)
  {
  }

  // A walk ends: from the miss on it is busy for at most seven cycles besides
  // those in which it waits for the cache.
  lemma WalkEnds(table: PageTable, m: Machine, run: seq<Cycle>)
    requires Sound(table, m) && m.r.w.state.Idle? && Run(table, m, run) && |run| > 1
    requires forall k :: 0 <= k < |run| - 1 ==> !run[k].after.w.state.Idle?
    ensures |run| <= 8 + Waits(m.r, run)
  {
    var c := run[0];
    CycleIsSound(table, m, c.i, c.o, c.after);
    assert !run[0].after.w.state.Idle?;
    assert forall k :: 0 <= k < |run| - 2 ==> run[1..][k] == run[k + 1];
    WalkTakes(table, Follow(m, c.i, c.after), run[1..]);
  }

  // ---------- The registers ----------

  class Ptw {
    ghost const table: PageTable
    var state: State
    var lvl: Level
    var isInstr: bool
    var global: bool
    var tagValid: bool
    var asid: nat
    var vaddr: nat
    var pptr: nat
    var rvalid: bool       // data_rvalid_q
    var rdata: Pte         // data_rdata_q
    ghost var owed: bool   // a granted request has no answer yet
    ghost var job: Job
    ghost var lookups: nat // entries requested in this walk

    function Where(): Position
      reads this
    {
      Walking(state, lvl, pptr, global, isInstr, vaddr, asid)
    }

    function Registers(): Regs
      reads this
    {
      Regs(Where(), tagValid, rvalid, rdata)
    }

    ghost function Walk(): Machine
      reads this
    {
      Machine(Registers(), owed, job, lookups)
    }

    ghost predicate Valid()
      reads this
    {
      Sound(table, Walk())
    }

    constructor (ghost t: PageTable)
      ensures Valid() && table == t && state == Idle
    {
      table := t;
      state, lvl, isInstr, global, tagValid, asid, vaddr, pptr := Idle, LVL1, false, false, false, 0, 0, 0;
      rvalid, rdata := false, Pte(false, false, false, false, false, false, false, false, 0, 0);
      owed, lookups := false, 0;
    }

    // Look at the entry in the input register.
    method Lookup(i: Input) returns (w: Position, itlbUpdate: bool, dtlbUpdate: bool)
      ensures var verdict := VerdictIn(Registers(), i);
        && w.state == (match verdict case Descend => WaitGrant case Error => PropagateError case Done => Idle)
        && itlbUpdate == (verdict.Done? && isInstr) && dtlbUpdate == (verdict.Done? && !isInstr)
        && w.isInstr == isInstr && (verdict.Descend? ==> w == Down(Where(), rdata))
    {
      var next := state;
      itlbUpdate, dtlbUpdate, w := false, false, Where();
      assert Pages(1) == 512 && Pages(2) == 262144;
      if rdata.g {
        w := w.(global := true);
      }
      if !rdata.v || (!rdata.r && rdata.w) {
        next := PropagateError;
      } else {
        next := Idle;
        if rdata.r || rdata.x {
          if isInstr {
            if !rdata.x || !rdata.a {
              next := PropagateError;
            } else {
              itlbUpdate := true;
            }
          } else {
            if rdata.a && (rdata.r || (rdata.x && i.mxr)) {
              dtlbUpdate := true;
            } else {
              next := PropagateError;
            }
            if i.isStore && (!rdata.w || !rdata.d) {
              dtlbUpdate, next := false, PropagateError;
            }
          }
          if lvl.LVL1? && rdata.ppn % 0x4_0000 != 0 {
            next, dtlbUpdate, itlbUpdate := PropagateError, false, false;
          } else if lvl.LVL2? && rdata.ppn % 0x200 != 0 {
            next, dtlbUpdate, itlbUpdate := PropagateError, false, false;
          }
        } else {
          if lvl.LVL1? {
            w := w.(lvl := LVL2, pptr := EntryAddress(rdata.ppn, vaddr, 1));
          }
          if lvl.LVL2? {
            w := w.(lvl := LVL3, pptr := EntryAddress(rdata.ppn, vaddr, 0));
          }
          next := WaitGrant;
          if lvl.LVL3? {
            w := w.(lvl := LVL3);
            next := PropagateError;
          }
        }
      }
      w := w.(state := next);
    }

    // Everything but the flush.
    method Advance(i: Input) returns (w: Position, itlbUpdate: bool, dtlbUpdate: bool)
      ensures Moves(Registers(), i, w)
      ensures var done := state.PteLookup? && rvalid && VerdictIn(Registers(), i).Done?;
        itlbUpdate == (done && isInstr) && dtlbUpdate == (done && !isInstr)
    {
      itlbUpdate, dtlbUpdate, w := false, false, Where();
      match state {
        case Idle =>
          w := w.(lvl := LVL1, global := false, isInstr := false);
          if FetchMiss(i) {
            w := w.(state := WaitGrant, isInstr := true, vaddr := i.itlbVaddr, asid := i.asid,
                    pptr := EntryAddress(i.satpPpn, i.itlbVaddr, 2));
          } else if DataMiss(i) {
            w := w.(state := WaitGrant, vaddr := i.dtlbVaddr, asid := i.asid,
                    pptr := EntryAddress(i.satpPpn, i.dtlbVaddr, 2));
          }
        case WaitGrant =>
          if i.grant {
            w := w.(state := PteLookup);
          }
        case PteLookup =>
          if rvalid {
            w, itlbUpdate, dtlbUpdate := Lookup(i);
          }
        case PropagateError =>
          w := w.(state := Idle);
        case WaitRvalid =>
          if rvalid {
            w := w.(state := Idle);
          }
      }
    }

    // A flush overrides the next state.
    method Decide(i: Input) returns (w: Position, itlbUpdate: bool, dtlbUpdate: bool)
      ensures Edge(Registers(), i, Regs(w, state.WaitGrant? && i.grant, i.rvalid, i.rdata))
      ensures var done := state.PteLookup? && rvalid && VerdictIn(Registers(), i).Done?;
        itlbUpdate == (done && isInstr) && dtlbUpdate == (done && !isInstr)
    {
      w, itlbUpdate, dtlbUpdate := Advance(i);
      if i.flush {
        w := w.(state := if (state.PteLookup? && !rvalid) || (state.WaitGrant? && i.grant) then WaitRvalid else Idle);
      }
    }

    // The next registers and the outputs of a cycle.
    method Compute(i: Input) returns (d: Regs, o: Output)
      ensures Edge(Registers(), i, d) && Shows(Registers(), i, o)
    {
      var w, itlbUpdate, dtlbUpdate := Decide(i);
      d := Regs(w, state.WaitGrant? && i.grant, i.rvalid, i.rdata);
      o := Output(!state.Idle?, isInstr, state.PropagateError?, state.WaitGrant?, pptr, tagValid,
                  itlbUpdate, dtlbUpdate,
                  EntryFor(vaddr, asid, rdata.(g := rdata.g || global), Height(lvl)),
                  state.Idle? && FetchMiss(i), state.Idle? && !FetchMiss(i) && DataMiss(i));
    }

    // The clock edge.
    method Latch(d: Regs, ghost m: Machine)
      requires m.r == d
      modifies this
      ensures Walk() == m
    {
      var w := d.w;
      state, lvl, pptr, global, isInstr, vaddr, asid := w.state, w.lvl, w.pptr, w.global, w.isInstr, w.vaddr, w.asid;
      tagValid, rvalid, rdata := d.tagValid, d.arrived, d.rdata;
      owed, job, lookups := m.owed, m.job, m.lookups;
    }

    // One clock cycle is an edge of the machine the lemmas are about, with its
    // outputs. A TLB update carries exactly the leaf, level and global bit of the
    // specified walk; an error means that the specified walk faults.
    method Step(i: Input) returns (o: Output)
      requires Valid() && Environment(table, Walk(), i)
      modifies this
      ensures Valid() && Walk() == Follow(old(Walk()), i, Registers())
      ensures Edge(old(Registers()), i, Registers()) && Shows(old(Registers()), i, o)
      ensures PortOf(Walk()) == PortNext(PortOf(old(Walk())), PortInputOf(old(Registers()), i))
      ensures Reports(table, old(job), old(Where()), o)
    {
      ghost var m := Walk();
      var d;
      d, o := Compute(i);
      ghost var after := Follow(m, i, d);
      CycleIsSound(table, m, i, o, d);
      Latch(d, after);
    }
  }
}
