/**
  The registers behind issue and commit: the scoreboard's ring of entries, its
  pointers and count, and the integer register file, updated cycle by cycle as
  in src/scoreboard.sv and src/issue_read_operands.sv.
*/
module Scoreboard {
  import opened InOrder
  import opened Rings
  import opened OutOfOrder

  // One cycle's inputs. `busy` is the busy signal of the unit the decoded
  // instruction needs, `multInFlight` that a multiplication entered execution.
  datatype Input = Input(
    instr: Instr, instrValid: bool, busy: bool, multInFlight: bool, flushUnissued: bool, flush: bool,
    wbs: seq<WriteBack>, commit: CommitInput)

  datatype Source = Source(value: nat, valid: bool)

  // The register a source operand may not take from an AMO in flight.
  ghost predicate NoAmoSource(window: seq<InFlight>, i: Instr) {
    forall k :: 0 <= k < |window| && window[k].instr.kind.Amo? && window[k].instr.rd != 0 ==>
      (ReadsRs1(i) ==> window[k].instr.rd != i.rs1) && (ReadsRs2(i) ==> window[k].instr.rd != i.rs2)
  }

  ghost predicate Orderly(window: seq<InFlight>) {
    OneWriter(window) && forall k :: 0 <= k < |window| ==> WellDecoded(window[k].instr)
  }

  // The clobber table's entry for a register: the unit of its writer in flight.
  ghost predicate ClobberRight(window: seq<InFlight>, r: nat, c: Fu) {
    && (forall k :: 0 <= k < |window| && window[k].instr.rd == r ==> c == window[k].instr.fu)
    && (c != NONE ==> exists k :: 0 <= k < |window| && Writes(window, k, r))
  }

  // Where a forwarded value comes from: a finished entry, or a result port.
  ghost predicate FromRing(window: seq<InFlight>, r: nat, v: nat) {
    exists k :: 0 <= k < |window| && window[k].instr.rd == r && window[k].done && window[k].result == v
  }

  ghost predicate FromPort(window: seq<InFlight>, read: nat, n: nat, wbs: seq<WriteBack>, r: nat, v: nat) {
    exists j :: 0 <= j < |wbs| && wbs[j].valid && wbs[j].data == v && SlotWrites(window, read, n, wbs[j].slot, r)
  }

  ghost predicate SlotWrites(window: seq<InFlight>, read: nat, n: nat, slot: nat, r: nat) {
    read < n && slot < n && Writes(window, Offset(slot, read, n), r)
  }

  // A finished writer of r is found.
  ghost predicate FoundIfDone(window: seq<InFlight>, r: nat, s: Source) {
    r != 0 && !s.valid ==> forall k :: 0 <= k < |window| && window[k].done ==> window[k].instr.rd != r
  }

  // Either way the value is the writer's result, if that may be forwarded, and
  // the placeholder if the writer is an AMO.
  ghost predicate Good(f: Oracle, init: Registers, a: Arch, r: nat, v: nat)
    requires Inv(f, init, a)
  {
    exists k :: 0 <= k < |a.window| && Writes(a.window, k, r)
      && (Forwardable(a.window[k].instr) ==> v == Value(f, init, a.prog, a.committed + k))
      && (a.window[k].instr.kind.Amo? ==> v == PLACEHOLDER)
  }

  lemma ForwardedIsGood(f: Oracle, init: Registers, a: Arch, read: nat, n: nat, wbs: seq<WriteBack>, r: nat, v: nat)
    requires Inv(f, init, a) && read < n && forall j :: 0 <= j < |wbs| ==> wbs[j].slot < n
    requires forall j :: 0 <= j < |wbs| && wbs[j].valid ==> RightResult(f, a, Offset(wbs[j].slot, read, n), wbs[j].data)
    requires FromRing(a.window, r, v) || FromPort(a.window, read, n, wbs, r, v)
    ensures Good(f, init, a, r, v)
  {
    if FromRing(a.window, r, v) {
      var k :| 0 <= k < |a.window| && a.window[k].instr.rd == r && a.window[k].done && a.window[k].result == v;
      assert Writes(a.window, k, r);
    } else {
      var j :| 0 <= j < |wbs| && wbs[j].valid && wbs[j].data == v && SlotWrites(a.window, read, n, wbs[j].slot, r);
      PortIsGood(f, init, a, Offset(wbs[j].slot, read, n), r, v);
    }
  }

  lemma PortIsGood(f: Oracle, init: Registers, a: Arch, k: nat, r: nat, v: nat)
    requires Inv(f, init, a) && RightResult(f, a, k, v) && Writes(a.window, k, r)
    ensures Good(f, init, a, r, v)
  {
    var i := a.committed + k;
    assert a.issued[i] == SequentialOperands(f, init, a.prog[..i], a.prog[i]);
    assert Forwardable(a.window[k].instr) ==> v == Value(f, init, a.prog, i);
  }

  // The AMO in flight that writes r, if there is one, returns the placeholder.
  ghost predicate AmoGivesPlaceholder(f: Oracle, init: Registers, a: Arch, r: nat)
    requires Inv(f, init, a)
  {
    forall k: nat :: r != 0 && Writes(a.window, k, r) && a.window[k].instr.kind.Amo? ==>
      Value(f, init, a.prog, a.committed + k) == PLACEHOLDER
  }

  // A register the clobber table knows no writer of has its sequential value.
  lemma RegisterIsSequential(f: Oracle, init: Registers, a: Arch, r: nat)
    requires Inv(f, init, a) && r < 32 && (r != 0 ==> ClobberRight(a.window, r, NONE))
    ensures a.regs[r] == Exec(f, init, a.prog)[r] && AmoGivesPlaceholder(f, init, a, r)
  {
    WindowDecoded(a);
    assert r != 0 ==> forall k: nat :: !Writes(a.window, k, r);
    DeliveredIsSequential(f, init, a.prog, a.committed, a.window, r, a.regs[r]);
  }

  // A forwarded value of a register whose writer is no CSR instruction is the
  // sequential one, or the placeholder if the writer is an AMO.
  lemma ForwardIsSequential(f: Oracle, init: Registers, a: Arch, r: nat, c: Fu, v: nat)
    requires Inv(f, init, a) && 0 < r < 32 && ClobberRight(a.window, r, c) && c != CSR && Good(f, init, a, r, v)
    ensures v == Exec(f, init, a.prog)[r] <==> AmoGivesPlaceholder(f, init, a, r)
    ensures (exists k: nat :: Writes(a.window, k, r) && a.window[k].instr.kind.Amo?) ==> v == PLACEHOLDER
  {
    var k :| 0 <= k < |a.window| && Writes(a.window, k, r)
      && (Forwardable(a.window[k].instr) ==> v == Value(f, init, a.prog, a.committed + k))
      && (a.window[k].instr.kind.Amo? ==> v == PLACEHOLDER);
    WriterInFlight(f, init, a.prog, a.committed, a.window, k, r);
    OnlyWriter(f, init, a, r, k);
  }

  lemma OnlyWriter(f: Oracle, init: Registers, a: Arch, r: nat, k: nat)
    requires Inv(f, init, a) && r != 0 && Writes(a.window, k, r)
    ensures forall j: nat :: Writes(a.window, j, r) ==> j == k
    ensures AmoGivesPlaceholder(f, init, a, r) <==>
      (a.window[k].instr.kind.Amo? ==> Value(f, init, a.prog, a.committed + k) == PLACEHOLDER)
  {
  }

  lemma WindowDecoded(a: Arch)
    requires AllDecoded(a.prog) && Holds(a.window, a.prog, a.committed)
    ensures forall k :: 0 <= k < |a.window| ==> WellDecoded(a.window[k].instr)
  {
    assert forall k :: 0 <= k < |a.window| ==> a.window[k].instr == a.prog[a.committed + k];
  }

  // What the two tables say about the decoded instruction's registers.
  datatype Lookup = Lookup(c1: Fu, c2: Fu, cd: Fu, s1: Source, s2: Source)

  ghost predicate LookupRight(window: seq<InFlight>, read: nat, n: nat, i: Input, l: Lookup) {
    && (if i.instr.rs1 == 0 then l.c1 == NONE else ClobberRight(window, i.instr.rs1, l.c1))
    && (if i.instr.rs2 == 0 then l.c2 == NONE else ClobberRight(window, i.instr.rs2, l.c2))
    && (if i.instr.rd == 0 then l.cd == NONE else ClobberRight(window, i.instr.rd, l.cd))
    && SourcesRight(window, read, n, i.wbs, i.instr.rs1, i.instr.rs2, l.s1, l.s2)
  }

  ghost predicate SourceRight(window: seq<InFlight>, read: nat, n: nat, wbs: seq<WriteBack>, r: nat, s: Source) {
    s.valid ==> r != 0 && (FromRing(window, r, s.value) || FromPort(window, read, n, wbs, r, s.value))
  }

  // A source is valid only with a value from the ring or a port; no finished
  // writer is missed; and the first port that brings one of the two registers is
  // taken. If both are the same register, only the first is served.
  ghost predicate SourcesRight(window: seq<InFlight>, read: nat, n: nat, wbs: seq<WriteBack>, rs1: nat, rs2: nat,
                               s1: Source, s2: Source) {
    && SourceRight(window, read, n, wbs, rs1, s1) && SourceRight(window, read, n, wbs, rs2, s2)
    && FoundIfDone(window, rs1, s1) && (if rs2 != rs1 then FoundIfDone(window, rs2, s2) else !s2.valid)
    && (forall j :: 0 <= j < |wbs| && FirstArrival(window, read, n, wbs, rs1, rs2, j) ==>
          if SlotWrites(window, read, n, wbs[j].slot, rs1) then rs1 != 0 ==> s1 == Source(wbs[j].data, true)
          else rs2 != 0 ==> s2 == Source(wbs[j].data, true))
  }

  ghost predicate Arrival(window: seq<InFlight>, read: nat, n: nat, wbs: seq<WriteBack>, rs1: nat, rs2: nat, j: nat) {
    && j < |wbs| && wbs[j].valid
    && (SlotWrites(window, read, n, wbs[j].slot, rs1) || SlotWrites(window, read, n, wbs[j].slot, rs2))
  }

  ghost predicate FirstArrival(window: seq<InFlight>, read: nat, n: nat, wbs: seq<WriteBack>, rs1: nat, rs2: nat,
                               j: nat) {
    && Arrival(window, read, n, wbs, rs1, rs2, j)
    && forall k :: 0 <= k < j ==> !Arrival(window, read, n, wbs, rs1, rs2, k)
  }

  // The decision taken on them: exactly when to go, and with which operands.
  ghost predicate Chosen(i: Input, d: Decision, rd0: nat, rd1: nat, full: bool, regs: seq<nat>, l: Lookup,
                         ack: bool, o: Operands)
    requires |regs| == 32 && WellDecoded(i.instr)
  {
    var ready1 := i.instr.useZimm || l.c1 == NONE || (l.s1.valid && l.c1 != CSR);
    var ready2 := l.c2 == NONE || (l.s2.valid && l.c2 != CSR);
    var free := l.cd == NONE || (d.we0 && rd0 == i.instr.rd) || (d.we1 && rd1 == i.instr.rd);
    && ack == (!full && !i.busy && ready1 && ready2 && free && (i.multInFlight ==> i.instr.fu == MULT))
    && (ack ==> o == Operands(
          if i.instr.useZimm then i.instr.rs1 else if i.instr.usePc then i.instr.pc
          else if l.c1 != NONE then l.s1.value else regs[i.instr.rs1],
          if !ReadsRs2(i.instr) then i.instr.imm else if l.c2 != NONE then l.s2.value else regs[i.instr.rs2]))
  }

  // The two oldest entries, as far as they are in flight; only those are finished.
  ghost predicate Oldest(window: seq<InFlight>, e0: InFlight, e1: InFlight) {
    && (if |window| > 0 then e0 == window[0] else !e0.done)
    && (if |window| > 1 then e1 == window[1] else !e1.done)
  }

  lemma CommitIsRight(f: Oracle, init: Registers, a: Arch, e0: InFlight, e1: InFlight, c: CommitInput)
    requires Inv(f, init, a) && Oldest(a.window, e0, e1)
    requires c.amoAck ==> a.window != [] && a.window[0].instr.kind.Amo?
    requires c.amoAck ==> c.amoResult == Value(f, init, a.prog, a.committed)
    requires a.window != [] && a.window[0].instr.fu == CSR ==> c.csrRdata == Value(f, init, a.prog, a.committed)
    ensures var d := Commit(e0, e1, c);
      && RightCommit(f, init, a, d) && (forall k :: 0 <= k < Acks(d) ==> a.window[k].done)
      && (d.we0 ==> e0.done && WellDecoded(e0.instr)) && (d.we1 ==> e1.done && WellDecoded(e1.instr) && d.ack1)
      && (d.we0 && !d.ack0 ==> e0.instr.rd == 0) && (d.ack0 ==> d.we0) && (d.ack1 ==> d.we1)
  {
    WindowDecoded(a);
    if e0.done {
      CommitIsOrderly(e0, e1, c);
    }
  }

  // An instruction chosen to issue has sequential operands, if it reads no
  // register an AMO in flight is going to write, and leaves no second writer of
  // its register behind.
  lemma ChosenIsRight(f: Oracle, init: Registers, a: Arch, read: nat, n: nat, i: Input, d: Decision,
                      e0: InFlight, e1: InFlight, full: bool, l: Lookup, ack: bool, o: Operands)
    requires Inv(f, init, a) && read < n && (forall j :: 0 <= j < |i.wbs| ==> i.wbs[j].slot < n)
    requires forall j :: 0 <= j < |i.wbs| && i.wbs[j].valid ==>
      RightResult(f, a, Offset(i.wbs[j].slot, read, n), i.wbs[j].data)
    requires WellDecoded(i.instr) && NoAmoSource(a.window, i.instr)
    requires Oldest(a.window, e0, e1) && (d.we0 ==> e0.done) && (d.we1 ==> e1.done && d.ack1) && (d.ack1 ==> d.ack0)
    requires d.we0 && !d.ack0 ==> e0.instr.rd == 0
    requires LookupRight(a.window, read, n, i, l) && Chosen(i, d, e0.instr.rd, e1.instr.rd, full, a.regs, l, ack, o)
    ensures ack ==> !full && RightIssue(f, init, a, Issued(i.instr, o), Acks(d))
    ensures !full && !i.busy && (i.multInFlight ==> i.instr.fu == MULT) && Unhindered(a.window, i.instr) ==> ack
  {
    if ack {
      OperandsAreSequential(f, init, a, read, n, i, d, e0.instr.rd, e1.instr.rd, full, l, o);
      NoSecondWriter(a.window, i.instr.rd, l.cd, d, e0, e1);
    }
    if Unhindered(a.window, i.instr) {
      assert l.c1 == NONE && l.c2 == NONE && l.cd == NONE;
    }
  }

  // Nothing keeps the decoded instruction from going.
  ghost predicate Free(i: Input, window: seq<InFlight>, n: nat) {
    && i.instrValid && !i.flushUnissued && !i.busy && |window| + 1 < n
    && (i.multInFlight ==> i.instr.fu == MULT) && Unhindered(window, i.instr)
  }

  // No instruction in flight writes a register the instruction names.
  ghost predicate Unhindered(window: seq<InFlight>, i: Instr) {
    forall k, r :: r in {i.rs1, i.rs2, i.rd} && r != 0 ==> !Writes(window, k, r)
  }

  // What the operand stage makes of the clobber table and the forwarded value,
  // unless it has to stall: the value sequential execution gives if and only if
  // no AMO in flight returns something else than the placeholder.
  lemma SourceIsSequential(f: Oracle, init: Registers, a: Arch, read: nat, n: nat, wbs: seq<WriteBack>,
                           r: nat, c: Fu, s: Source)
    requires Inv(f, init, a) && read < n && (forall j :: 0 <= j < |wbs| ==> wbs[j].slot < n) && r < 32
    requires forall j :: 0 <= j < |wbs| && wbs[j].valid ==> RightResult(f, a, Offset(wbs[j].slot, read, n), wbs[j].data)
    requires (if r == 0 then c == NONE else ClobberRight(a.window, r, c)) && SourceRight(a.window, read, n, wbs, r, s)
    requires c == NONE || (s.valid && c != CSR)
    ensures (if c != NONE then s.value else a.regs[r]) == Exec(f, init, a.prog)[r] <==>
      AmoGivesPlaceholder(f, init, a, r)
  {
    if c == NONE {
      RegisterIsSequential(f, init, a, r);
    } else {
      ForwardedIsGood(f, init, a, read, n, wbs, r, s.value);
      ForwardIsSequential(f, init, a, r, c, s.value);
    }
  }

  // Exactly when the operands are those of sequential execution: an AMO in
  // flight whose destination is read must happen to return the placeholder.
  lemma OperandsAreSequential(f: Oracle, init: Registers, a: Arch, read: nat, n: nat, i: Input, d: Decision,
                              rd0: nat, rd1: nat, full: bool, l: Lookup, o: Operands)
    requires Inv(f, init, a) && read < n && (forall j :: 0 <= j < |i.wbs| ==> i.wbs[j].slot < n)
    requires forall j :: 0 <= j < |i.wbs| && i.wbs[j].valid ==>
      RightResult(f, a, Offset(i.wbs[j].slot, read, n), i.wbs[j].data)
    requires WellDecoded(i.instr)
    requires LookupRight(a.window, read, n, i, l) && Chosen(i, d, rd0, rd1, full, a.regs, l, true, o)
    ensures o == SequentialOperands(f, init, a.prog, i.instr) <==>
      && (ReadsRs1(i.instr) ==> AmoGivesPlaceholder(f, init, a, i.instr.rs1))
      && (ReadsRs2(i.instr) ==> AmoGivesPlaceholder(f, init, a, i.instr.rs2))
    ensures NoAmoSource(a.window, i.instr) ==> o == SequentialOperands(f, init, a.prog, i.instr)
  {
    if ReadsRs1(i.instr) {
      SourceIsSequential(f, init, a, read, n, i.wbs, i.instr.rs1, l.c1, l.s1);
    }
    if ReadsRs2(i.instr) {
      SourceIsSequential(f, init, a, read, n, i.wbs, i.instr.rs2, l.c2, l.s2);
    }
  }

  lemma NoSecondWriter(window: seq<InFlight>, rd: nat, cd: Fu, d: Decision, e0: InFlight, e1: InFlight)
    requires OneWriter(window)
    requires forall k :: 0 <= k < |window| ==> window[k].instr.fu != NONE
    requires Oldest(window, e0, e1) && (d.we0 ==> e0.done) && (d.we1 ==> e1.done && d.ack1) && (d.ack1 ==> d.ack0)
    requires d.we0 && !d.ack0 ==> e0.instr.rd == 0
    requires rd != 0 ==> ClobberRight(window, rd, cd)
    requires cd == NONE || (d.we0 && e0.instr.rd == rd) || (d.we1 && e1.instr.rd == rd)
    ensures rd != 0 ==> forall k :: Acks(d) <= k < |window| ==> window[k].instr.rd != rd
  {
  }

  // The register file after the write ports, and the ring's window after a cycle.
  function Written(regs: seq<nat>, d: Decision, rd0: nat, rd1: nat): seq<nat>
    requires |regs| == 32 && (d.we0 ==> rd0 < 32) && (d.we1 ==> rd1 < 32)
  {
    var r := if d.we0 && rd0 != 0 then regs[rd0 := d.data0] else regs;
    if d.we1 && rd1 != 0 then r[rd1 := d.data1] else r
  }

  function NextWindow(window: seq<InFlight>, push: bool, instr: Instr, read: nat, n: nat, wbs: seq<WriteBack>,
                      acks: nat, flush: bool): seq<InFlight>
    requires read < n && acks <= |window| && forall j :: 0 <= j < |wbs| ==> wbs[j].slot < n
  {
    if flush then []
    else RecordAll(window + if push then [InFlight(instr, false, instr.imm)] else [], read, n, wbs)[acks..]
  }

  // ---------- Cycles and runs ----------

  // The machine between two clock edges, and where the ring's read pointer stands.
  datatype Machine = Machine(arch: Arch, read: nat)

  ghost predicate Sound(f: Oracle, init: Registers, n: nat, m: Machine) {
    n >= 2 && m.read < n && |m.arch.window| < n && Inv(f, init, m.arch)
  }

  // A cycle: the inputs, the entries at the commit ports, what the tables say,
  // and what the issue logic answers.
  datatype Tick = Tick(i: Input, e0: InFlight, e1: InFlight, l: Lookup, ack: bool, o: Operands, after: Machine)

  function Decided(t: Tick): Decision {
    Commit(t.e0, t.e1, t.i.commit)
  }

  predicate Pushed(t: Tick) {
    t.i.instrValid && t.ack && !t.i.flushUnissued
  }

  function IssueOf(t: Tick): Issue {
    if Pushed(t) then Issued(t.i.instr, t.o) else NoIssue
  }

  // What the rest of the core keeps: decoded instructions are well formed,
  // writebacks name issued entries and carry the units' results, and so do the
  // CSR file and the AMO response.
  ghost predicate Environment(f: Oracle, init: Registers, n: nat, m: Machine, i: Input)
    requires Sound(f, init, n, m)
  {
    && (i.instrValid ==> WellDecoded(i.instr))
    && (forall j :: 0 <= j < |i.wbs| ==> i.wbs[j].slot < n)
    && (forall j :: 0 <= j < |i.wbs| && i.wbs[j].valid ==>
          RightResult(f, m.arch, Offset(i.wbs[j].slot, m.read, n), i.wbs[j].data))
    && (i.commit.amoAck ==> m.arch.window != [] && m.arch.window[0].instr.kind.Amo?
                            && i.commit.amoResult == Value(f, init, m.arch.prog, m.arch.committed))
    && (m.arch.window != [] && m.arch.window[0].instr.fu == CSR ==>
          i.commit.csrRdata == Value(f, init, m.arch.prog, m.arch.committed))
  }

  // The environment's rules, and no instruction is offered that reads the
  // destination of an AMO in flight.
  ghost predicate Allowed(f: Oracle, init: Registers, n: nat, m: Machine, i: Input)
    requires Sound(f, init, n, m)
  {
    Environment(f, init, n, m, i) && (i.instrValid ==> NoAmoSource(m.arch.window, i.instr))
  }

  // What the issue logic makes of the tables, the ports and the inputs.
  ghost predicate Combinational(n: nat, m: Machine, t: Tick) {
    && m.read < n && |m.arch.regs| == 32
    && Oldest(m.arch.window, t.e0, t.e1)
    && (t.i.instrValid ==>
          && WellDecoded(t.i.instr) && LookupRight(m.arch.window, m.read, n, t.i, t.l)
          && Chosen(t.i, Decided(t), t.e0.instr.rd, t.e1.instr.rd, |m.arch.window| == n - 1, m.arch.regs,
                    t.l, t.ack, t.o))
  }

  // The cycle has a next state: no pop from an empty ring.
  ghost predicate Poppable(n: nat, m: Machine, t: Tick) {
    && m.read < n && (forall j :: 0 <= j < |t.i.wbs| ==> t.i.wbs[j].slot < n)
    && var w := RecordAll(Issuing(m.arch, IssueOf(t)).window, m.read, n, t.i.wbs);
       Acks(Decided(t)) <= |w| && Acks(Decided(t)) <= n && forall k :: 0 <= k < Acks(Decided(t)) ==> w[k].instr.rd < 32
  }

  // The clock edge. The read pointer moves by the number of acknowledged entries.
  ghost predicate Clocked(n: nat, m: Machine, t: Tick) {
    Poppable(n, m, t) ==>
      && t.after.arch == Cycle(m.arch, IssueOf(t), m.read, n, t.i.wbs, Decided(t), t.i.flush)
      && t.after.read == if t.i.flush then 0 else Advance(m.read, Acks(Decided(t)), n)
  }

  ghost predicate Follows(n: nat, m: Machine, t: Tick) {
    Combinational(n, m, t) && Clocked(n, m, t)
  }

  ghost function ClockedTick(n: nat, m: Machine, i: Input, e0: InFlight, e1: InFlight, l: Lookup, ack: bool,
                             o: Operands):
      (t: Tick)
    ensures Clocked(n, m, t) && t == Tick(i, e0, e1, l, ack, o, t.after)
  {
    var t := Tick(i, e0, e1, l, ack, o, m);
    if !Poppable(n, m, t) then t
    else
      var d := Decided(t);
      t.(after := Machine(Cycle(m.arch, IssueOf(t), m.read, n, i.wbs, d, i.flush),
                          if i.flush then 0 else Advance(m.read, Acks(d), n)))
  }

  // What is right about a cycle: the operands of the instruction that issues,
  // the data that commit, and that nothing commits unfinished.
  ghost predicate RightTick(f: Oracle, init: Registers, n: nat, m: Machine, t: Tick)
    requires Sound(f, init, n, m)
  {
    && RightIssue(f, init, m.arch, IssueOf(t), Acks(Decided(t)))
    && RightCommit(f, init, m.arch, Decided(t))
    && (forall k :: 0 <= k < Acks(Decided(t)) ==> m.arch.window[k].done)
    && Poppable(n, m, t) && Extends(m.arch, t.after.arch, Acks(Decided(t)))
  }

  // What has committed stays committed, and `acks` more have, in issue order.
  ghost predicate Extends(a: Arch, b: Arch, acks: nat) {
    && a.committed <= |a.prog| && b.committed == a.committed + acks <= |b.prog|
    && b.prog[..a.committed] == a.prog[..a.committed]
  }

  // The clock edge, seen as what happens to the ring and the register file.
  lemma CycleParts(f: Oracle, init: Registers, n: nat, m: Machine, t: Tick)
    requires Sound(f, init, n, m) && Follows(n, m, t) && RightTick(f, init, n, m, t)
    ensures var a, read, d := m.arch, m.read, Decided(t);
      && (d.we0 ==> t.e0.instr.rd < 32) && (d.we1 ==> t.e1.instr.rd < 32)
      && t.after.arch.regs == Written(a.regs, d, t.e0.instr.rd, t.e1.instr.rd)
      && t.after.arch.window == NextWindow(a.window, Pushed(t), t.i.instr, read, n, t.i.wbs, Acks(d), t.i.flush)
  {
    var a, read, d, b := m.arch, m.read, Decided(t), Issuing(m.arch, IssueOf(t));
    WindowDecoded(a);
    if t.e0.done {
      CommitIsOrderly(t.e0, t.e1, t.i.commit);
    }
    assert b.window == a.window + if Pushed(t) then [InFlight(t.i.instr, false, t.i.instr.imm)] else [];
    InstrsStay(b.window, read, n, t.i.wbs);
    CommittingParts(b.(window := RecordAll(b.window, read, n, t.i.wbs)), a.regs, d, t.e0.instr.rd, t.e1.instr.rd);
  }

  lemma {:induction false} InstrsStay(window: seq<InFlight>, read: nat, n: nat, wbs: seq<WriteBack>)
    requires read < n && forall j :: 0 <= j < |wbs| ==> wbs[j].slot < n
    ensures forall k :: 0 <= k < |window| ==> RecordAll(window, read, n, wbs)[k].instr == window[k].instr
    decreases |wbs|
  {
    if wbs == [] {
    } else {
      InstrsStay(window, read, n, wbs[..|wbs| - 1]);
    }
  }

  lemma CommittingParts(c: Arch, regs: Registers, d: Decision, rd0: nat, rd1: nat)
    requires Acks(d) <= |c.window| && (d.ack1 ==> d.ack0) && c.regs == regs
    requires forall k :: 0 <= k < Acks(d) ==> c.window[k].instr.rd < 32
    requires (d.we0 ==> rd0 < 32) && (d.we1 ==> rd1 < 32 && d.ack1)
    requires (d.we0 && !d.ack0 ==> rd0 == 0) && (d.ack0 ==> d.we0) && (d.ack1 ==> d.we1)
    requires (d.ack0 ==> c.window[0].instr.rd == rd0) && (d.ack1 ==> c.window[1].instr.rd == rd1)
    ensures Committing(c, d).window == c.window[Acks(d)..] && Committing(c, d).regs == Written(regs, d, rd0, rd1)
  {
  }

  lemma TickIsRight(f: Oracle, init: Registers, n: nat, m: Machine, t: Tick)
    requires Sound(f, init, n, m) && Allowed(f, init, n, m, t.i) && Follows(n, m, t)
    ensures RightTick(f, init, n, m, t) && Sound(f, init, n, t.after)
  {
    var a, d := m.arch, Decided(t);
    CommitIsRight(f, init, a, t.e0, t.e1, t.i.commit);
    if t.i.instrValid {
      ChosenIsRight(f, init, a, m.read, n, t.i, d, t.e0, t.e1, |a.window| == n - 1, t.l, t.ack, t.o);
    }
    CycleKeepsInv(f, init, a, IssueOf(t), m.read, n, t.i.wbs, d, t.i.flush);
    assert Poppable(n, m, t);
    HistoryStands(a, IssueOf(t), m.read, n, t.i.wbs, d, t.i.flush);
  }

  lemma HistoryStands(a: Arch, i: Issue, read: nat, n: nat, wbs: seq<WriteBack>, d: Decision, flush: bool)
    requires read < n && forall j :: 0 <= j < |wbs| ==> wbs[j].slot < n
    requires Holds(a.window, a.prog, a.committed) && |a.issued| == |a.prog|
    requires Acks(d) <= |a.window| && (d.ack1 ==> d.ack0)
    requires forall k :: 0 <= k < Acks(d) ==> RecordAll(Issuing(a, i).window, read, n, wbs)[k].instr.rd < 32
    ensures var b := Cycle(a, i, read, n, wbs, d, flush);
      Extends(a, b, Acks(d)) && |b.window| <= |a.window| + (if i.Issued? then 1 else 0)
  {
  }

  // A run: in every cycle the environment keeps its rules and the registers
  // follow the logic. The state each cycle starts from is sound by TickIsRight.
  ghost predicate Run(f: Oracle, init: Registers, n: nat, m: Machine, run: seq<Tick>)
    requires Sound(f, init, n, m)
    decreases |run|
  {
    run == [] ||
    (Allowed(f, init, n, m, run[0].i) && Follows(n, m, run[0])
     && (TickIsRight(f, init, n, m, run[0]); Run(f, init, n, run[0].after, run[1..])))
  }

  // The state a run ends in.
  function End(m: Machine, run: seq<Tick>): Machine
    decreases |run|
  {
    if run == [] then m else End(run[0].after, run[1..])
  }

  // Every cycle of the run is right, in the state it starts from.
  ghost predicate RightTicks(f: Oracle, init: Registers, n: nat, m: Machine, run: seq<Tick>)
    decreases |run|
  {
    run == [] ||
    (Sound(f, init, n, m) && RightTick(f, init, n, m, run[0]) && RightTicks(f, init, n, run[0].after, run[1..]))
  }

  function TotalAcks(run: seq<Tick>): nat {
    if run == [] then 0 else Acks(Decided(run[0])) + TotalAcks(run[1..])
  }

  // Over every run: in every cycle the operands of the issued instruction and
  // the data of the committed ones are those of sequential execution, the
  // register file ends up as the committed program leaves it, and commits follow
  // issue order.
  lemma {:induction false} RunsAreSequential(f: Oracle, init: Registers, n: nat, m: Machine, run: seq<Tick>)
    requires Sound(f, init, n, m) && Run(f, init, n, m, run)
    ensures RightTicks(f, init, n, m, run)
    ensures Sound(f, init, n, End(m, run)) && Extends(m.arch, End(m, run).arch, TotalAcks(run))
    decreases |run|
  {
    if run == [] {
    } else {
      var t, rest := run[0], run[1..];
      TickIsRight(f, init, n, m, t);
      RunsAreSequential(f, init, n, t.after, rest);
      ExtendsTransitive(m.arch, t.after.arch, End(m, run).arch, Acks(Decided(t)), TotalAcks(rest));
    }
  }

  lemma ExtendsTransitive(a: Arch, b: Arch, c: Arch, first: nat, second: nat)
    requires Extends(a, b, first) && Extends(b, c, second)
    ensures Extends(a, c, first + second)
  {
    assert c.prog[..a.committed] == c.prog[..b.committed][..a.committed];
    assert b.prog[..a.committed] == b.prog[..b.committed][..a.committed];
  }

  // What sequential operands are, register by register: the first is an immediate
  // of CSR instructions, the pc, or register rs1; a store or a branch always
  // reads rs2, any other instruction only if it has no immediate.
  lemma IssuedOperandsAre(f: Oracle, init: Registers, n: nat, m: Machine, t: Tick)
    requires Sound(f, init, n, m) && Allowed(f, init, n, m, t.i) && Follows(n, m, t) && Pushed(t)
    ensures var i, regs := t.i.instr, Exec(f, init, m.arch.prog);
      && (i.useZimm ==> t.o.a == i.rs1)
      && (!i.useZimm && i.usePc ==> t.o.a == i.pc)
      && (!i.useZimm && !i.usePc ==> t.o.a == regs[i.rs1])
      && (!i.useImm || i.fu == STORE || i.fu == CTRL_FLOW ==> t.o.b == regs[i.rs2])
      && (i.useImm && i.fu != STORE && i.fu != CTRL_FLOW ==> t.o.b == i.imm)
  {
    TickIsRight(f, init, n, m, t);
  }

  // The result of the k-th instruction in flight can be taken this cycle: it is
  // in the ring or on a port.
  ghost predicate InReach(m: Machine, n: nat, wbs: seq<WriteBack>, k: nat) {
    && k < |m.arch.window|
    && (m.arch.window[k].done
        || exists j :: 0 <= j < |wbs| && wbs[j].valid && Sent(m, n, wbs[j].slot, k))
  }

  ghost predicate Sent(m: Machine, n: nat, slot: nat, k: nat) {
    m.read < n && slot < n && Offset(slot, m.read, n) == k
  }

  // What an instruction waits for: a free entry besides the last, its unit, the
  // multiplication in flight, the writers of its sources, which must have sent
  // their results and not be for the CSR file, and the writer of its destination,
  // which must be retiring. Two equal sources get nothing from a writer in flight.
  lemma IssueWaitsForHazards(f: Oracle, init: Registers, n: nat, m: Machine, t: Tick)
    requires Sound(f, init, n, m) && Environment(f, init, n, m, t.i) && Combinational(n, m, t) && Pushed(t)
    ensures |m.arch.window| + 1 < n && !t.i.busy && (t.i.multInFlight ==> t.i.instr.fu == MULT)
    ensures forall k: nat, r: nat :: Writes(m.arch.window, k, r) && r != 0 ==>
      var i, writer := t.i.instr, m.arch.window[k].instr;
      && (r == i.rs1 && !i.useZimm ==> writer.fu != CSR && InReach(m, n, t.i.wbs, k))
      && (r == i.rs2 ==> writer.fu != CSR && InReach(m, n, t.i.wbs, k) && i.rs1 != i.rs2)
      && (r == i.rd ==> k < Acks(Decided(t)))
  {
    var i, window := t.i.instr, m.arch.window;
    WindowDecoded(m.arch);
    CommitIsRight(f, init, m.arch, t.e0, t.e1, t.i.commit);
    forall k: nat, r: nat | Writes(window, k, r) && r != 0
      ensures r == i.rs1 && !i.useZimm ==> window[k].instr.fu != CSR && InReach(m, n, t.i.wbs, k)
      ensures r == i.rs2 ==> window[k].instr.fu != CSR && InReach(m, n, t.i.wbs, k) && i.rs1 != i.rs2
      ensures r == i.rd ==> k < Acks(Decided(t))
    {
      if r == i.rs1 && !i.useZimm {
        WriterIsReached(f, init, n, m, t.i.wbs, r, t.l.c1, t.l.s1, k);
      }
      if r == i.rs2 {
        WriterIsReached(f, init, n, m, t.i.wbs, r, t.l.c2, t.l.s2, k);
      }
    }
  }

  lemma WriterIsReached(f: Oracle, init: Registers, n: nat, m: Machine, wbs: seq<WriteBack>, r: nat, c: Fu, s: Source,
                        k: nat)
    requires Sound(f, init, n, m) && Writes(m.arch.window, k, r) && r != 0
    requires ClobberRight(m.arch.window, r, c) && SourceRight(m.arch.window, m.read, n, wbs, r, s)
    requires c == NONE || (s.valid && c != CSR)
    ensures m.arch.window[k].instr.fu != CSR && InReach(m, n, wbs, k)
  {
    WindowDecoded(m.arch);
  }

  // And nothing else keeps it: once the writers of its sources have finished and
  // the writer of its destination is the one that retires, it issues.
  lemma IssueGoesWhenFree(f: Oracle, init: Registers, n: nat, m: Machine, t: Tick)
    requires Sound(f, init, n, m) && Environment(f, init, n, m, t.i) && Combinational(n, m, t)
    requires t.i.instrValid && !t.i.flushUnissued
    requires |m.arch.window| + 1 < n && !t.i.busy && (t.i.multInFlight ==> t.i.instr.fu == MULT)
    requires forall k: nat, r: nat :: Writes(m.arch.window, k, r) && r != 0 ==>
      var i, writer := t.i.instr, m.arch.window[k].instr;
      && (r == i.rs1 && !i.useZimm ==> writer.fu != CSR && m.arch.window[k].done)
      && (r == i.rs2 ==> writer.fu != CSR && m.arch.window[k].done && i.rs1 != i.rs2)
      && (r == i.rd ==> k < Acks(Decided(t)))
    ensures Pushed(t)
  {
    var i, window, d := t.i.instr, m.arch.window, Decided(t);
    WindowDecoded(m.arch);
    CommitIsRight(f, init, m.arch, t.e0, t.e1, t.i.commit);
    FinishedIsFound(window, i.rs1, t.l.c1, t.l.s1, !i.useZimm);
    FinishedIsFound(window, i.rs2, t.l.c2, t.l.s2, true);
  }

  lemma FinishedIsFound(window: seq<InFlight>, r: nat, c: Fu, s: Source, used: bool)
    requires if r == 0 then c == NONE else ClobberRight(window, r, c)
    requires forall k: nat :: used && Writes(window, k, r) && r != 0 ==>
      window[k].instr.fu != CSR && window[k].done && FoundIfDone(window, r, s)
    ensures used ==> c == NONE || (s.valid && c != CSR)
  {
  }

  // ---------- What retiring sets off ----------

  // Instructions whose effect waits for their commit: a store moves to the commit
  // queue, a CSR instruction is carried out, an AMO gets its response.
  datatype Duty = StoreDuty | CsrDuty | AmoDuty

  predicate Owes(duty: Duty, i: Instr) {
    match duty
    case StoreDuty => i.fu == STORE && i.kind != Amo
    case CsrDuty => i.fu == CSR && i.kind != Fence
    case AmoDuty => i.kind == Amo
  }

  // The commit stage's signal for it.
  predicate Signals(duty: Duty, t: Tick) {
    match duty
    case StoreDuty => Decided(t).commitLsu
    case CsrDuty => Decided(t).commitCsr && t.e0.instr.kind != Fence
    case AmoDuty => Decided(t).amoValid && t.i.commit.amoAck
  }

  // The instructions at the first commit port in the cycles with the signal.
  function Signalled(duty: Duty, run: seq<Tick>): seq<Instr> {
    if run == [] then [] else (if Signals(duty, run[0]) then [run[0].e0.instr] else []) + Signalled(duty, run[1..])
  }

  function Owing(duty: Duty, prog: seq<Instr>): seq<Instr> {
    if prog == [] then [] else (if Owes(duty, prog[0]) then [prog[0]] else []) + Owing(duty, prog[1..])
  }

  lemma {:induction false} OwingOfConcat(duty: Duty, a: seq<Instr>, b: seq<Instr>)
    ensures Owing(duty, a + b) == Owing(duty, a) + Owing(duty, b)
    decreases |a|
  {
    if a == [] {
      assert a + b == b;
    } else {
      OwingOfConcat(duty, a[1..], b);
      assert (a + b)[1..] == a[1..] + b;
    }
  }

  // What retires in a cycle is the oldest part of the window, and the program
  // keeps it, flush or not.
  lemma RetiredOfACycle(a: Arch, i: Issue, read: nat, n: nat, wbs: seq<WriteBack>, d: Decision, flush: bool)
    requires read < n && forall j :: 0 <= j < |wbs| ==> wbs[j].slot < n
    requires Holds(a.window, a.prog, a.committed) && |a.issued| == |a.prog|
    requires Acks(d) <= |a.window| && (d.ack1 ==> d.ack0)
    requires forall k :: 0 <= k < Acks(d) ==> RecordAll(Issuing(a, i).window, read, n, wbs)[k].instr.rd < 32
    ensures var b := Cycle(a, i, read, n, wbs, d, flush);
      && b.committed == a.committed + Acks(d) <= |a.prog| && b.committed <= |b.prog|
      && b.prog[..b.committed] == a.prog[..b.committed]
  {
  }

  // The instructions at the ports, as far as they retire.
  function RetiredBy(e0: InFlight, e1: InFlight, d: Decision): seq<Instr> {
    (if d.ack0 then [e0.instr] else []) + (if d.ack1 then [e1.instr] else [])
  }

  lemma RetiredAreOldest(a: Arch, e0: InFlight, e1: InFlight, d: Decision)
    requires Holds(a.window, a.prog, a.committed) && Oldest(a.window, e0, e1)
    requires Acks(d) <= |a.window| && (d.ack1 ==> d.ack0)
    ensures a.committed + Acks(d) <= |a.prog|
    ensures a.prog[a.committed..a.committed + Acks(d)] == RetiredBy(e0, e1, d)
  {
  }

  // The second port's instruction owes nothing, and the first one's duty is
  // signalled exactly when it retires.
  lemma DutiesAtThePorts(t: Tick, duty: Duty)
    requires (t.e0.done ==> WellDecoded(t.e0.instr)) && (t.e1.done ==> WellDecoded(t.e1.instr))
    ensures Owing(duty, RetiredBy(t.e0, t.e1, Decided(t))) == Signalled(duty, [t])
  {
    var d := Decided(t);
    RetiresExactlyWhenFree(t.e0, t.e1, t.i.commit);
    OwingOfConcat(duty, if d.ack0 then [t.e0.instr] else [], if d.ack1 then [t.e1.instr] else []);
    OwingOfOne(duty, t.e0.instr);
    OwingOfOne(duty, t.e1.instr);
    assert [t][1..] == [];
  }

  lemma CommittedInACycle(f: Oracle, init: Registers, n: nat, m: Machine, t: Tick)
    requires Sound(f, init, n, m) && Allowed(f, init, n, m, t.i) && Follows(n, m, t)
    ensures var a, b, d := m.arch, t.after.arch, Decided(t);
      && Acks(d) <= |a.window| && (d.ack1 ==> d.ack0) && Holds(a.window, a.prog, a.committed)
      && b.committed == a.committed + Acks(d) <= |a.prog| && b.committed <= |b.prog|
      && b.prog[..b.committed] == a.prog[..b.committed]
  {
    TickIsRight(f, init, n, m, t);
    RetiredOfACycle(m.arch, IssueOf(t), m.read, n, t.i.wbs, Decided(t), t.i.flush);
  }

  lemma SignalledInACycle(f: Oracle, init: Registers, n: nat, m: Machine, t: Tick, duty: Duty)
    requires Sound(f, init, n, m) && Allowed(f, init, n, m, t.i) && Follows(n, m, t)
    ensures var c, c' := m.arch.committed, t.after.arch.committed;
      && c <= c' <= |m.arch.prog| && c' <= |t.after.arch.prog|
      && t.after.arch.prog[..c'] == m.arch.prog[..c']
      && Signalled(duty, [t]) == Owing(duty, m.arch.prog[c..c'])
  {
    CommittedInACycle(f, init, n, m, t);
    PortsDecoded(m.arch, t.e0, t.e1);
    RetiredAreOldest(m.arch, t.e0, t.e1, Decided(t));
    DutiesAtThePorts(t, duty);
  }

  lemma PortsDecoded(a: Arch, e0: InFlight, e1: InFlight)
    requires AllDecoded(a.prog) && Holds(a.window, a.prog, a.committed) && Oldest(a.window, e0, e1)
    ensures (e0.done ==> WellDecoded(e0.instr)) && (e1.done ==> WellDecoded(e1.instr))
  {
    WindowDecoded(a);
  }

  lemma OwingOfOne(duty: Duty, i: Instr)
    ensures Owing(duty, [i]) == if Owes(duty, i) then [i] else []
  {
    assert [i][1..] == [];
  }

  // Over every run: the stores handed to the store buffer are exactly the plain
  // stores that retire, the CSR instructions carried out exactly those that
  // retire, and the AMOs answered exactly the AMOs that retire, in program order
  // and each once.
  lemma {:induction false} RetiringSetsOff(f: Oracle, init: Registers, n: nat, m: Machine, run: seq<Tick>, duty: Duty)
    requires Sound(f, init, n, m) && Run(f, init, n, m, run)
    ensures var a, end := m.arch, End(m, run).arch;
      && a.committed <= end.committed <= |end.prog|
      && Signalled(duty, run) == Owing(duty, end.prog[a.committed..end.committed])
    decreases |run|
  {
    if run == [] {
      assert m.arch.prog[m.arch.committed..m.arch.committed] == [];
    } else {
      var t, rest := run[0], run[1..];
      TickIsRight(f, init, n, m, t);
      SignalledInACycle(f, init, n, m, t, duty);
      RetiringSetsOff(f, init, n, t.after, rest, duty);
      RunsAreSequential(f, init, n, t.after, rest);
      PartsOfTheProgram(m.arch.prog, t.after.arch.prog, End(m, run).arch.prog, m.arch.committed,
                        t.after.arch.committed, End(m, run).arch.committed, duty);
      FirstSignalled(duty, run);
    }
  }

  lemma PartsOfTheProgram(p: seq<Instr>, p': seq<Instr>, q: seq<Instr>, c: nat, c': nat, e: nat, duty: Duty)
    requires c <= c' <= e <= |q| && c' <= |p| && c' <= |p'| && p'[..c'] == p[..c'] && q[..c'] == p'[..c']
    ensures Owing(duty, q[c..e]) == Owing(duty, p[c..c']) + Owing(duty, q[c'..e])
  {
    assert q[c..c'] == q[..c'][c..] == p[..c'][c..] == p[c..c'];
    assert q[c..e] == q[c..c'] + q[c'..e];
    OwingOfConcat(duty, q[c..c'], q[c'..e]);
  }

  lemma FirstSignalled(duty: Duty, run: seq<Tick>)
    requires run != []
    ensures Signalled(duty, run) == Signalled(duty, [run[0]]) + Signalled(duty, run[1..])
  {
    assert [run[0]][1..] == [];
  }

  // ---------- AMOs ----------

  // Why an AMO's consumer must wait. In every sound state, whatever comes back
  // in the same cycle, an instruction that issues while an AMO in flight is going
  // to write one of its sources gets the placeholder there. With the guard
  // NoAmoSource its operands are right; without it they are right exactly if the
  // AMOs return the placeholder.
  lemma AmoConsumerGetsPlaceholder(f: Oracle, init: Registers, n: nat, m: Machine, t: Tick)
    requires Sound(f, init, n, m) && Environment(f, init, n, m, t.i) && Combinational(n, m, t) && Pushed(t)
    ensures forall k: nat, r: nat :: r != 0 && Writes(m.arch.window, k, r) && m.arch.window[k].instr.kind.Amo? ==>
      && (ReadsRs1(t.i.instr) && t.i.instr.rs1 == r ==> t.o.a == PLACEHOLDER)
      && (ReadsRs2(t.i.instr) && t.i.instr.rs2 == r ==> t.o.b == PLACEHOLDER)
    ensures t.o == SequentialOperands(f, init, m.arch.prog, t.i.instr) <==>
      && (ReadsRs1(t.i.instr) ==> AmoGivesPlaceholder(f, init, m.arch, t.i.instr.rs1))
      && (ReadsRs2(t.i.instr) ==> AmoGivesPlaceholder(f, init, m.arch, t.i.instr.rs2))
    ensures NoAmoSource(m.arch.window, t.i.instr) ==> t.o == SequentialOperands(f, init, m.arch.prog, t.i.instr)
  {
    var a, i := m.arch, t.i.instr;
    OperandsAreSequential(f, init, a, m.read, n, t.i, Decided(t), t.e0.instr.rd, t.e1.instr.rd,
                          |a.window| == n - 1, t.l, t.o);
    forall k: nat, r: nat | r != 0 && Writes(a.window, k, r) && a.window[k].instr.kind.Amo?
      ensures ReadsRs1(i) && i.rs1 == r ==> t.o.a == PLACEHOLDER
      ensures ReadsRs2(i) && i.rs2 == r ==> t.o.b == PLACEHOLDER
    {
      if ReadsRs1(i) && i.rs1 == r {
        PlaceholderForwarded(f, init, a, m.read, n, t.i.wbs, r, t.l.c1, t.l.s1, k);
      }
      if ReadsRs2(i) && i.rs2 == r {
        PlaceholderForwarded(f, init, a, m.read, n, t.i.wbs, r, t.l.c2, t.l.s2, k);
      }
    }
  }

  lemma PlaceholderForwarded(f: Oracle, init: Registers, a: Arch, read: nat, n: nat, wbs: seq<WriteBack>,
                             r: nat, c: Fu, s: Source, k: nat)
    requires Inv(f, init, a) && read < n && forall j :: 0 <= j < |wbs| ==> wbs[j].slot < n
    requires forall j :: 0 <= j < |wbs| && wbs[j].valid ==> RightResult(f, a, Offset(wbs[j].slot, read, n), wbs[j].data)
    requires 0 < r < 32 && ClobberRight(a.window, r, c) && SourceRight(a.window, read, n, wbs, r, s)
    requires Writes(a.window, k, r) && a.window[k].instr.kind.Amo?
    ensures c == STORE && (s.valid ==> s.value == PLACEHOLDER)
  {
    WindowDecoded(a);
    if s.valid {
      ForwardedIsGood(f, init, a, read, n, wbs, r, s.value);
      ForwardIsSequential(f, init, a, r, c, s.value);
    }
  }

  // A machine that has just come out of reset.
  function Empty(): Machine {
    Machine(Arch([], [], 0, [], seq(32, _ => 0)), 0)
  }

  // Such a wrong operand is reached from reset in two cycles: an AMO to x1 that
  // returns 7 issues, and in the cycle of its writeback an addition to x1 does.
  const AMO_TO_X1 := Instr(0, STORE, Amo, 0, 0, 1, false, false, false, 0, 0)
  const ADD_FROM_X1 := Instr(1, ALU, Plain, 1, 0, 2, false, false, true, 0, 0)
  const QUIET := CommitInput(false, false, false, false, false, false, false, 0, 0)
  const NO_SOURCE := Source(0, false)

  function AmoIssued(): Machine {
    Machine(Arch([AMO_TO_X1], [Operands(0, 0)], 0, [InFlight(AMO_TO_X1, false, 0)], seq(32, _ => 0)), 0)
  }

  function Seven(): Oracle {
    (i: Instr, a: nat, b: nat) => 7
  }

  lemma AmoIssues(n: nat) returns (t: Tick)
    requires n >= 4
    ensures Sound(Seven(), Empty().arch.regs, n, Empty()) && Allowed(Seven(), Empty().arch.regs, n, Empty(), t.i)
    ensures Follows(n, Empty(), t) && t.after == AmoIssued()
  {
    var none := InFlight(AMO_TO_X1, false, 0);
    var i := Input(AMO_TO_X1, true, false, false, false, false, [], QUIET);
    t := ClockedTick(n, Empty(), i, none, none, Lookup(NONE, NONE, NONE, NO_SOURCE, NO_SOURCE), true, Operands(0, 0));
    assert Issuing(Empty().arch, IssueOf(t)) == AmoIssued().arch;
  }

  lemma AdditionIssues(n: nat) returns (t: Tick)
    requires n >= 4 && Sound(Seven(), Empty().arch.regs, n, AmoIssued())
    ensures Environment(Seven(), Empty().arch.regs, n, AmoIssued(), t.i) && Follows(n, AmoIssued(), t)
    ensures t.i.instr == ADD_FROM_X1 && Pushed(t) && t.o == Operands(PLACEHOLDER, 0)
  {
    var wbs := [WriteBack(true, 0, PLACEHOLDER)];
    var i := Input(ADD_FROM_X1, true, false, false, false, false, wbs, QUIET);
    var l := Lookup(STORE, NONE, NONE, Source(PLACEHOLDER, true), NO_SOURCE);
    var entry, window := InFlight(AMO_TO_X1, false, 0), AmoIssued().arch.window;
    assert Writes(window, 0, 1) && SlotWrites(window, 0, n, 0, 1);
    assert wbs[0].valid && wbs[0].data == PLACEHOLDER && SlotWrites(window, 0, n, wbs[0].slot, 1);
    assert LookupRight(window, 0, n, i, l);
    t := ClockedTick(n, AmoIssued(), i, entry, entry, l, true, Operands(PLACEHOLDER, 0));
  }

  lemma WrongOperandIsReachable(n: nat) returns (run: seq<Tick>, t: Tick)
    requires n >= 4
    ensures Sound(Seven(), Empty().arch.regs, n, Empty()) && Run(Seven(), Empty().arch.regs, n, Empty(), run)
    ensures var m := End(Empty(), run);
      && Sound(Seven(), Empty().arch.regs, n, m) && Environment(Seven(), Empty().arch.regs, n, m, t.i)
      && Follows(n, m, t) && Pushed(t)
      && t.o != SequentialOperands(Seven(), Empty().arch.regs, m.arch.prog, t.i.instr)
  {
    var f, init := Seven(), Empty().arch.regs;
    var first := AmoIssues(n);
    run := [first];
    TickIsRight(f, init, n, Empty(), first);
    t := AdditionIssues(n);
    SevenInX1(init);
  }

  lemma SevenInX1(init: Registers)
    ensures AllDecoded([AMO_TO_X1]) && Exec(Seven(), init, [AMO_TO_X1])[1] == 7
  {
    assert [AMO_TO_X1][..0] == [];
  }

  class Core {
    const n: nat                          // NR_ENTRIES
    const mem: array<Slot<InFlight>>
    const regs: array<nat>
    var issueCount: nat
    var issuePointer: nat
    var commitPointer: nat
    var exOperands: Operands              // operand_a_q, operand_b_q
    ghost const f: Oracle
    ghost const init: Registers
    ghost var arch: Arch

    // The ring holds exactly the window, and only issued entries are finished.
    ghost predicate RingValid(window: seq<InFlight>)
      reads this, mem
    {
      && mem.Length == n && n >= 2 && Ring(mem[..], commitPointer, window)
      && issueCount == |window| < n && issuePointer == Advance(commitPointer, issueCount, n)
      && forall s :: 0 <= s < n && mem[s].item.done ==> mem[s].valid
    }

    ghost predicate Valid()
      reads this, mem, regs
    {
      && RingValid(arch.window) && regs.Length == 32 && regs[..] == arch.regs && Inv(f, init, arch)
    }

    ghost function State(): Machine
      reads this
    {
      Machine(arch, commitPointer)
    }

    constructor (entries: nat, ghost oracle: Oracle)
      requires entries >= 2
      ensures Valid() && fresh(mem) && fresh(regs) && n == entries && f == oracle && init == Empty().arch.regs
        && State() == Empty()
    {
      var nop := Instr(0, ALU, Plain, 0, 0, 0, false, false, false, 0, 0);
      n := entries;
      mem := new Slot<InFlight>[entries](_ => Slot(InFlight(nop, false, 0), false));
      regs := new nat[32](_ => 0);
      issueCount, issuePointer, commitPointer, exOperands := 0, 0, 0, Operands(0, 0);
      f, init := oracle, seq(32, _ => 0);
      arch := Arch([], [], 0, [], seq(32, _ => 0));
    }

    // Which unit, if any, is going to write each register.
    method ClobberOutput(ghost window: seq<InFlight>) returns (clobber: seq<Fu>)
      requires RingValid(window) && Orderly(window)
      ensures |clobber| == 32 && clobber[0] == NONE
      ensures forall r :: 0 < r < 32 ==> ClobberRight(window, r, clobber[r])
    {
      var c := new Fu[32](_ => NONE);
      for s := 0 to n
        invariant forall t :: 0 <= t < s && mem[t].valid && mem[t].item.instr.rd != 0 ==>
          c[mem[t].item.instr.rd] == mem[t].item.instr.fu
        invariant forall r :: 0 < r < 32 && c[r] != NONE ==> WrittenBelow(s, r)
      {
        if mem[s].valid {
          SlotItem(window, s);
          OthersWriteElsewhere(window, s);
          assert mem[s].item.instr.rd < 32;
          c[mem[s].item.instr.rd] := mem[s].item.instr.fu;
        }
      }
      c[0] := NONE;
      clobber := c[..];
      forall r | 0 < r < 32
        ensures ClobberRight(window, r, clobber[r])
      {
        ClobberFromSlots(window, r, clobber[r]);
      }
    }

    ghost predicate WrittenBelow(slots: nat, r: nat)
      requires slots <= mem.Length
      reads mem
    {
      exists t :: 0 <= t < slots && mem[t].valid && mem[t].item.instr.rd == r
    }

    lemma ClobberFromSlots(window: seq<InFlight>, r: nat, c: Fu)
      requires RingValid(window) && Orderly(window) && r != 0
      requires forall t :: 0 <= t < n && mem[t].valid && mem[t].item.instr.rd == r ==> c == mem[t].item.instr.fu
      requires c != NONE ==> WrittenBelow(n, r)
      ensures ClobberRight(window, r, c)
    {
      forall k | 0 <= k < |window| && window[k].instr.rd == r
        ensures c == window[k].instr.fu
      {
        RingPlaces(mem[..], commitPointer, window, k);
      }
      if c != NONE {
        var t :| 0 <= t < n && mem[t].valid && mem[t].item.instr.rd == r;
        SlotItem(window, t);
        assert Writes(window, Offset(t, commitPointer, n), r);
      }
    }

    lemma SlotItem(window: seq<InFlight>, s: nat)
      requires RingValid(window) && s < n && mem[s].valid
      ensures Offset(s, commitPointer, n) < |window| && mem[s].item == window[Offset(s, commitPointer, n)]
    {
      assert mem[..][s] == mem[s];
    }

    // The slots other than the one that holds a register's writer hold none.
    lemma OthersWriteElsewhere(window: seq<InFlight>, s: nat)
      requires RingValid(window) && Orderly(window) && s < n && mem[s].valid
      ensures mem[s].item.instr.rd != 0 ==>
        forall t :: 0 <= t < n && t != s && mem[t].valid ==> mem[t].item.instr.rd != mem[s].item.instr.rd
    {
      forall t | 0 <= t < n && t != s && mem[t].valid
        ensures mem[s].item.instr.rd != 0 ==> mem[t].item.instr.rd != mem[s].item.instr.rd
      {
        SlotItem(window, s);
        SlotItem(window, t);
        assert Offset(s, commitPointer, n) != Offset(t, commitPointer, n);
      }
    }

    // The forwarding network: finished entries of the ring, overridden by the
    // results arriving in this cycle. A source that another one shadows stays
    // invalid for the cycle.
    method ReadOperands(rs1: nat, rs2: nat, wbs: seq<WriteBack>, ghost window: seq<InFlight>)
      returns (s1: Source, s2: Source)
      requires RingValid(window) && Orderly(window) && forall j :: 0 <= j < |wbs| ==> wbs[j].slot < n
      requires forall j :: 0 <= j < |wbs| && wbs[j].valid ==> Offset(wbs[j].slot, commitPointer, n) < |window|
      ensures SourcesRight(window, commitPointer, n, wbs, rs1, rs2, s1, s2)
    {
      s1, s2 := SearchRing(rs1, rs2, window);
      s1, s2 := ForwardPorts(rs1, rs2, wbs, s1, s2, window);
      if rs1 == 0 {
        s1 := s1.(valid := false);
      }
      if rs2 == 0 {
        s2 := s2.(valid := false);
      }
    }

    // The first port that brings a result for one of the two registers replaces
    // what the ring says about it.
    method ForwardPorts(rs1: nat, rs2: nat, wbs: seq<WriteBack>, ring1: Source, ring2: Source,
                        ghost window: seq<InFlight>)
      returns (s1: Source, s2: Source)
      requires RingValid(window) && forall j :: 0 <= j < |wbs| ==> wbs[j].slot < n
      requires forall j :: 0 <= j < |wbs| && wbs[j].valid ==> Offset(wbs[j].slot, commitPointer, n) < |window|
      ensures s1 == ring1 || (s1.valid && FromPort(window, commitPointer, n, wbs, rs1, s1.value))
      ensures s2 == ring2 || (rs1 != rs2 && s2.valid && FromPort(window, commitPointer, n, wbs, rs2, s2.value))
      ensures forall j :: 0 <= j < |wbs| && FirstArrival(window, commitPointer, n, wbs, rs1, rs2, j) ==>
        if SlotWrites(window, commitPointer, n, wbs[j].slot, rs1) then s1 == Source(wbs[j].data, true)
        else s2 == Source(wbs[j].data, true)
    {
      s1, s2 := ring1, ring2;
      for j := 0 to |wbs|
        invariant s1 == ring1 && s2 == ring2
        invariant forall k :: 0 <= k < j ==> !Arrival(window, commitPointer, n, wbs, rs1, rs2, k)
      {
        PortEntry(window, wbs[j]);
        if mem[wbs[j].slot].item.instr.rd == rs1 && wbs[j].valid {
          s1 := Source(wbs[j].data, true);
          assert Arrival(window, commitPointer, n, wbs, rs1, rs2, j);
          break;
        }
        if mem[wbs[j].slot].item.instr.rd == rs2 && wbs[j].valid {
          s2 := Source(wbs[j].data, true);
          assert Arrival(window, commitPointer, n, wbs, rs1, rs2, j);
          break;
        }
      }
    }

    lemma PortEntry(window: seq<InFlight>, wb: WriteBack)
      requires RingValid(window) && wb.slot < n && (wb.valid ==> Offset(wb.slot, commitPointer, n) < |window|)
      ensures forall r :: wb.valid ==> (SlotWrites(window, commitPointer, n, wb.slot, r) <==>
        mem[wb.slot].item.instr.rd == r)
    {
      if wb.valid {
        assert mem[..][wb.slot].valid;
        SlotItem(window, wb.slot);
      }
    }

    method SearchRing(rs1: nat, rs2: nat, ghost window: seq<InFlight>) returns (s1: Source, s2: Source)
      requires RingValid(window) && Orderly(window)
      ensures s1.valid ==> FromRing(window, rs1, s1.value)
      ensures s2.valid ==> FromRing(window, rs2, s2.value)
      ensures FoundIfDone(window, rs1, s1) && (if rs2 != rs1 then FoundIfDone(window, rs2, s2) else !s2.valid)
    {
      s1, s2 := Source(0, false), Source(0, false);
      for s := 0 to n
        invariant s1.valid ==> FromRing(window, rs1, s1.value)
        invariant s2.valid ==> FromRing(window, rs2, s2.value)
        invariant FoundUpTo(s, rs1, s1) && (if rs2 != rs1 then FoundUpTo(s, rs2, s2) else !s2.valid)
      {
        if mem[s].valid {
          OthersWriteElsewhere(window, s);
          SlotItem(window, s);
          if mem[s].item.instr.rd == rs1 {
            s1 := Source(mem[s].item.result, mem[s].item.done);
          } else if mem[s].item.instr.rd == rs2 {
            s2 := Source(mem[s].item.result, mem[s].item.done);
          }
        }
      }
      FoundEverywhere(window, rs1, s1);
      FoundEverywhere(window, rs2, s2);
    }

    // No slot below holds a finished writer of r that was not noticed.
    ghost predicate FoundUpTo(slots: nat, r: nat, s: Source)
      requires slots <= mem.Length
      reads mem
    {
      r != 0 && !s.valid ==> forall t :: 0 <= t < slots && mem[t].valid && mem[t].item.done ==>
        mem[t].item.instr.rd != r
    }

    lemma FoundEverywhere(window: seq<InFlight>, r: nat, s: Source)
      requires RingValid(window)
      ensures FoundUpTo(n, r, s) ==> FoundIfDone(window, r, s)
    {
      forall k | 0 <= k < |window|
        ensures mem[Advance(commitPointer, k, n)] == Slot(window[k], true)
      {
        RingPlaces(mem[..], commitPointer, window, k);
      }
    }

    // What both tables say about the decoded instruction's registers.
    method LookUp(i: Input, ghost window: seq<InFlight>) returns (l: Lookup)
      requires RingValid(window) && Orderly(window) && WellDecoded(i.instr)
      requires forall j :: 0 <= j < |i.wbs| ==> i.wbs[j].slot < n
      requires forall j :: 0 <= j < |i.wbs| && i.wbs[j].valid ==> Offset(i.wbs[j].slot, commitPointer, n) < |window|
      ensures LookupRight(window, commitPointer, n, i, l)
    {
      var clobber := ClobberOutput(window);
      var s1, s2 := ReadOperands(i.instr.rs1, i.instr.rs2, i.wbs, window);
      l := Lookup(clobber[i.instr.rs1], clobber[i.instr.rs2], clobber[i.instr.rd], s1, s2);
    }

    // Stall, forward, and the write-after-write rule: may the decoded
    // instruction go, and with which operands?
    method IssueDecision(i: Input, d: Decision, rd0: nat, rd1: nat, l: Lookup) returns (ack: bool, o: Operands)
      requires regs.Length == 32 && WellDecoded(i.instr)
      ensures Chosen(i, d, rd0, rd1, issueCount == n - 1, regs[..], l, ack, o)
    {
      var stall := false;
      o := Operands(regs[i.instr.rs1], regs[i.instr.rs2]);
      if !i.instr.useZimm && l.c1 != NONE {
        if l.s1.valid && l.c1 != CSR {
          o := o.(a := l.s1.value);
        } else {
          stall := true;
        }
      }
      if l.c2 != NONE {
        if l.s2.valid && l.c2 != CSR {
          o := o.(b := l.s2.value);
        } else {
          stall := true;
        }
      }
      if i.instr.usePc {
        o := o.(a := i.instr.pc);
      }
      if i.instr.useZimm {
        o := o.(a := i.instr.rs1);
      }
      if i.instr.useImm && i.instr.fu != STORE && i.instr.fu != CTRL_FLOW {
        o := o.(b := i.instr.imm);
      }
      ack := false;
      if issueCount != n - 1 && !stall && !i.busy {
        if l.cd == NONE {
          ack := true;
        }
        if d.we0 && rd0 == i.instr.rd {
          ack := true;
        }
        if d.we1 && rd1 == i.instr.rd {
          ack := true;
        }
      }
      if i.multInFlight && i.instr.fu != MULT {
        ack := false;
      }
    }

    // The ring's next state: push, writebacks, commits, flush.
    method IssueFifo(push: bool, instr: Instr, wbs: seq<WriteBack>, d: Decision, flush: bool,
                     ghost window: seq<InFlight>)
      requires RingValid(window) && forall j :: 0 <= j < |wbs| ==> wbs[j].slot < n
      requires (push ==> |window| < n - 1) && Acks(d) <= |window| && (d.ack1 ==> d.ack0)
      modifies this`issueCount, this`issuePointer, this`commitPointer, mem
      ensures RingValid(if flush then []
                        else RecordAll(window + if push then [InFlight(instr, false, instr.imm)] else [],
                                       old(commitPointer), n, wbs)[Acks(d)..])
      ensures commitPointer == if flush then 0 else Advance(old(commitPointer), Acks(d), n)
    {
      ghost var w := window + if push then [InFlight(instr, false, instr.imm)] else [];
      if push {
        Push(instr, window);
      }
      WriteBacks(wbs, w);
      w := RecordAll(w, commitPointer, n, wbs);
      if d.ack0 {
        Retire(w);
        w := w[1..];
        if d.ack1 {
          Retire(w);
          w := w[1..];
        }
      }
      if flush {
        Clear();
      }
    }

    method Push(instr: Instr, ghost window: seq<InFlight>)
      requires RingValid(window) && |window| < n - 1
      modifies this`issueCount, this`issuePointer, mem
      ensures RingValid(window + [InFlight(instr, false, instr.imm)])
    {
      ghost var q := mem[..];
      RingPush(q, commitPointer, window, InFlight(instr, false, instr.imm));
      mem[issuePointer] := Slot(InFlight(instr, false, instr.imm), true);
      assert mem[..] == q[issuePointer := Slot(InFlight(instr, false, instr.imm), true)];
      issueCount := issueCount + 1;
      issuePointer := Advance(issuePointer, 1, n);
    }

    // A flush invalidates every slot, whatever is left in it.
    method Clear()
      requires mem.Length == n && n >= 2
      modifies this`issueCount, this`issuePointer, this`commitPointer, mem
      ensures RingValid([]) && commitPointer == 0
    {
      for s := 0 to n
        invariant mem.Length == n && forall t :: 0 <= t < s ==> !mem[t].valid && !mem[t].item.done
      {
        mem[s] := Slot(mem[s].item.(done := false), false);
      }
      issueCount, issuePointer, commitPointer := 0, 0, 0;
    }

    method WriteBacks(wbs: seq<WriteBack>, ghost window: seq<InFlight>)
      requires RingValid(window) && forall j :: 0 <= j < |wbs| ==> wbs[j].slot < n
      modifies mem
      ensures RingValid(RecordAll(window, commitPointer, n, wbs))
    {
      for j := 0 to |wbs|
        invariant RingValid(RecordAll(window, commitPointer, n, wbs[..j]))
      {
        ghost var w := RecordAll(window, commitPointer, n, wbs[..j]);
        assert wbs[..j + 1][..j] == wbs[..j];
        assert mem[..][wbs[j].slot] == mem[wbs[j].slot];
        if wbs[j].valid && mem[wbs[j].slot].valid {
          ghost var q := mem[..];
          var item := mem[wbs[j].slot].item.(done := true, result := wbs[j].data);
          RingUpdate(q, commitPointer, w, wbs[j].slot, item);
          mem[wbs[j].slot] := Slot(item, true);
          assert mem[..] == q[wbs[j].slot := Slot(item, true)];
        }
      }
      assert wbs[..|wbs|] == wbs;
    }

    // An acknowledged entry leaves the ring.
    method Retire(ghost window: seq<InFlight>)
      requires RingValid(window) && window != []
      modifies this`issueCount, this`commitPointer, mem
      ensures RingValid(window[1..]) && commitPointer == Advance(old(commitPointer), 1, n)
    {
      ghost var q := mem[..];
      var item := mem[commitPointer].item.(done := false);
      RingPop(q, commitPointer, window, item);
      mem[commitPointer] := Slot(item, false);
      assert mem[..] == q[commitPointer := Slot(item, false)];
      issueCount := issueCount - 1;
      commitPointer := Advance(commitPointer, 1, n);
    }

    // The register file's write ports; register zero is not writable.
    method WriteRegisters(d: Decision, rd0: nat, rd1: nat)
      requires regs.Length == 32 && (d.we0 ==> rd0 < 32) && (d.we1 ==> rd1 < 32)
      modifies regs
      ensures regs[..] == Written(old(regs[..]), d, rd0, rd1)
    {
      if d.we0 && rd0 != 0 {
        regs[rd0] := d.data0;
      }
      if d.we1 && rd1 != 0 {
        regs[rd1] := d.data1;
      }
    }

    // The scoreboard's two oldest entries. A finished one is in flight.
    method CommitPorts(ghost window: seq<InFlight>) returns (e0: InFlight, e1: InFlight)
      requires RingValid(window)
      ensures Oldest(window, e0, e1)
    {
      e0 := mem[commitPointer].item;
      e1 := mem[Advance(commitPointer, 1, n)].item;
      assert mem[..][commitPointer].valid == mem[commitPointer].valid;
      assert mem[..][Advance(commitPointer, 1, n)].valid == mem[Advance(commitPointer, 1, n)].valid;
    }

    // What the combinational logic makes of a cycle.
    method Decide(i: Input) returns (push: bool, o: Operands, d: Decision, rd0: nat, rd1: nat, ghost t: Tick)
      requires Valid() && Allowed(f, init, n, State(), i)
      ensures Combinational(n, State(), t) && t.i == i && push == Pushed(t) && o == t.o
      ensures d == Decided(t) && rd0 == t.e0.instr.rd && rd1 == t.e1.instr.rd
      ensures Free(i, arch.window, n) ==> push
    {
      var e0, e1 := CommitPorts(arch.window);
      d := Commit(e0, e1, i.commit);
      rd0, rd1 := e0.instr.rd, e1.instr.rd;
      CommitIsRight(f, init, arch, e0, e1, i.commit);
      var ack;
      ghost var l;
      ack, o, l := IssueLogic(i, d, e0, e1);
      push := i.instrValid && ack && !i.flushUnissued;
      t := Tick(i, e0, e1, l, ack, o, State());
    }

    method IssueLogic(i: Input, d: Decision, e0: InFlight, e1: InFlight)
      returns (ack: bool, o: Operands, ghost l: Lookup)
      requires Valid() && Allowed(f, init, n, State(), i)
      requires Oldest(arch.window, e0, e1) && (d.we0 ==> e0.done) && (d.we1 ==> e1.done && d.ack1)
      requires d.ack1 ==> d.ack0
      requires d.we0 && !d.ack0 ==> e0.instr.rd == 0
      ensures i.instrValid ==>
        && LookupRight(arch.window, commitPointer, n, i, l)
        && Chosen(i, d, e0.instr.rd, e1.instr.rd, |arch.window| == n - 1, arch.regs, l, ack, o)
      ensures Free(i, arch.window, n) ==> ack
    {
      ack, o := false, exOperands;
      l := Lookup(NONE, NONE, NONE, Source(0, false), Source(0, false));
      if i.instrValid {
        WindowDecoded(arch);
        var tables := LookUp(i, arch.window);
        ack, o := IssueDecision(i, d, e0.instr.rd, e1.instr.rd, tables);
        l := tables;
        ChosenIsRight(f, init, arch, commitPointer, n, i, d, e0, e1, issueCount == n - 1, l, ack, o);
      }
    }

    // One clock cycle is a tick of the machine. Whatever is issued gets the
    // operands of sequential execution, commits follow issue order and leave the
    // register file as sequential execution leaves it, and an instruction that
    // nothing hinders is issued.
    method Step(i: Input) returns (pushed: bool, d: Decision, ghost t: Tick)
      requires Valid() && Allowed(f, init, n, State(), i)
      modifies this, mem, regs
      ensures Valid()
      ensures Follows(n, old(State()), t) && RightTick(f, init, n, old(State()), t)
      ensures t.i == i && pushed == Pushed(t) && d == Decided(t) && exOperands == t.o && State() == t.after
      ensures Free(i, old(arch).window, n) ==> pushed
    {
      var o, rd0, rd1;
      pushed, o, d, rd0, rd1, t := Decide(i);
      t := ClockedTick(n, State(), i, t.e0, t.e1, t.l, t.ack, t.o);
      TickIsRight(f, init, n, State(), t);
      CycleParts(f, init, n, State(), t);
      Latch(pushed, i, o, d, rd0, rd1, t.after.arch);
    }

    // The clock edge.
    method Latch(push: bool, i: Input, o: Operands, d: Decision, rd0: nat, rd1: nat, ghost next: Arch)
      requires RingValid(arch.window) && forall j :: 0 <= j < |i.wbs| ==> i.wbs[j].slot < n
      requires (push ==> |arch.window| < n - 1) && Acks(d) <= |arch.window| && (d.ack1 ==> d.ack0)
      requires regs.Length == 32 && (d.we0 ==> rd0 < 32) && (d.we1 ==> rd1 < 32)
      requires Inv(f, init, next) && next.regs == Written(regs[..], d, rd0, rd1)
      requires next.window == NextWindow(arch.window, push, i.instr, commitPointer, n, i.wbs, Acks(d), i.flush)
      modifies this, mem, regs
      ensures Valid() && arch == next && exOperands == o
      ensures commitPointer == if i.flush then 0 else Advance(old(commitPointer), Acks(d), n)
    {
      IssueFifo(push, i.instr, i.wbs, d, i.flush, arch.window);
      WriteRegisters(d, rd0, rd1);
      exOperands := o;
      arch := next;
    }
  }
}
