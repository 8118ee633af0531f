/**
  The machine with instructions in flight: a program issued so far, a window of
  instructions that have not committed, and the register file. This module has
  the two commit ports of src/commit_stage.sv and shows what issue, writeback,
  commit and flush keep, provided that issue and commit do the right thing; that
  they do is shown in module Scoreboard.

  Exceptions, and the flush request of the data cache, do not occur in this model.
*/
module OutOfOrder {
  import opened InOrder
  import opened Rings

  // ---------- Commit ----------

  datatype CommitInput = CommitInput(
    halt: bool, debugReq: bool, debugMode: bool, singleStep: bool, lsuReady: bool, noStorePending: bool,
    amoAck: bool, amoResult: nat, csrRdata: nat)

  // Acknowledged ports, register writes and their data.
  datatype Decision = Decision(ack0: bool, ack1: bool, we0: bool, we1: bool, data0: nat, data1: nat,
                               commitLsu: bool, commitCsr: bool, amoValid: bool)

  predicate SecondPortTakes(fu: Fu) {
    fu in {ALU, LOAD, CTRL_FLOW, MULT, FPU}
  }

  // The commit stage's decision on the two oldest entries.
  function Commit(e0: InFlight, e1: InFlight, c: CommitInput): Decision {
    var go := e0.done && !c.halt && (!c.debugReq || c.debugMode);
    var isStore := e0.instr.fu == STORE && !e0.instr.kind.Amo?;
    var amo := e0.done && !c.halt && e0.instr.kind.Amo?;
    var ack0 := if amo then c.amoAck
                else go && (isStore ==> c.lsuReady) && (e0.instr.kind.Fence? ==> c.noStorePending);
    var ack1 := ack0 && e1.done && !c.halt && e0.instr.fu != CSR && !c.singleStep && SecondPortTakes(e1.instr.fu);
    Decision(ack0, ack1, if amo then c.amoAck else go, ack1,
             if go && e0.instr.fu == CSR then c.csrRdata else if c.amoAck then c.amoResult else e0.result,
             e1.result, go && isStore && c.lsuReady, go && e0.instr.fu == CSR, amo)
  }

  function Acks(d: Decision): nat {
    (if d.ack0 then 1 else 0) + (if d.ack1 then 1 else 0)
  }

  // Only finished instructions commit, the second only behind the first, and a
  // register write without an acknowledge concerns register zero only.
  lemma CommitIsOrderly(e0: InFlight, e1: InFlight, c: CommitInput)
    requires WellDecoded(e0.instr) && (e1.done ==> WellDecoded(e1.instr))
    ensures var d := Commit(e0, e1, c);
      && (d.ack0 ==> e0.done) && (d.ack1 ==> d.ack0 && e1.done && Forwardable(e1.instr))
      && (d.we1 <==> d.ack1) && (d.we0 && !d.ack0 ==> e0.instr.rd == 0) && (d.ack0 ==> d.we0)
  {
  }

  // Nothing keeps the oldest instruction from retiring: no halt or debug request,
  // room for a store, drained stores for a fence, the response for an AMO.
  predicate MayRetire(i: Instr, c: CommitInput) {
    && !c.halt
    && match i.kind
       case Amo => c.amoAck
       case Fence => c.noStorePending && (c.debugReq ==> c.debugMode)
       case Plain => (i.fu == STORE ==> c.lsuReady) && (c.debugReq ==> c.debugMode)
  }

  // A finished instruction retires exactly when nothing holds it back. A store is
  // handed to the store buffer in the cycle in which it retires and in no other,
  // an instruction for the CSR file carries its commit signal, an AMO offers
  // itself until it is answered, and a fence waits for the stores to drain. The
  // second port never retires one of these.
  lemma RetiresExactlyWhenFree(e0: InFlight, e1: InFlight, c: CommitInput)
    requires e0.done ==> WellDecoded(e0.instr)
    ensures var d := Commit(e0, e1, c);
      && (d.ack0 <==> e0.done && MayRetire(e0.instr, c))
      && (d.commitLsu <==> d.ack0 && e0.instr.fu == STORE && e0.instr.kind != Amo)
      && (d.commitCsr <==> e0.done && !c.halt && (c.debugReq ==> c.debugMode) && e0.instr.fu == CSR)
      && (d.ack0 && e0.instr.fu == CSR ==> d.commitCsr)
      && (d.amoValid <==> e0.done && !c.halt && e0.instr.kind == Amo)
      && (d.ack0 && e0.instr.kind == Fence ==> c.noStorePending)
      && (d.ack1 ==> e1.instr.fu != STORE && e1.instr.fu != CSR)
  {
  }

  // The second port retires behind the first whatever needs no unit of its own at
  // commit, unless the first is for the CSR file or the core is stepped.
  lemma SecondRetiresBehindFirst(e0: InFlight, e1: InFlight, c: CommitInput)
    requires WellDecoded(e0.instr) && WellDecoded(e1.instr)
    ensures var d := Commit(e0, e1, c);
      d.ack1 <==> d.ack0 && e1.done && !c.singleStep && e0.instr.fu != CSR && e1.instr.fu != CSR && e1.instr.fu != STORE
  {
  }

  // ---------- The machine state ----------

  // The instructions issued so far with the operands they got, how many have
  // committed, the ones in flight, and the register file.
  datatype Arch = Arch(prog: seq<Instr>, issued: seq<Operands>, committed: nat, window: seq<InFlight>, regs: Registers)

  ghost predicate OperandsSequential(f: Oracle, init: Registers, prog: seq<Instr>, issued: seq<Operands>)
    requires AllDecoded(prog)
  {
    && |issued| == |prog|
    && forall k :: 0 <= k < |prog| ==> issued[k] == SequentialOperands(f, init, prog[..k], prog[k])
  }

  ghost predicate Inv(f: Oracle, init: Registers, a: Arch) {
    OneWriter(a.window) && InvBase(f, init, a)
  }

  // The invariant without the uniqueness of writers, which is suspended between
  // issuing an instruction and committing the previous writer of its register.
  ghost predicate InvBase(f: Oracle, init: Registers, a: Arch) {
    && init[0] == 0 && AllDecoded(a.prog) && Holds(a.window, a.prog, a.committed)
    && OperandsSequential(f, init, a.prog, a.issued)
    && Trustworthy(f, init, a.prog, a.committed, a.window)
    && a.regs == Exec(f, init, a.prog[..a.committed])
  }

  // ---------- One cycle of the machine ----------

  datatype WriteBack = WriteBack(valid: bool, slot: nat, data: nat)

  datatype Issue = NoIssue | Issued(instr: Instr, operands: Operands)

  // A result comes in for the k-th instruction in flight.
  function Record(window: seq<InFlight>, k: nat, data: nat): seq<InFlight> {
    if k < |window| then window[k := window[k].(done := true, result := data)] else window
  }

  function RecordAll(window: seq<InFlight>, read: nat, n: nat, wbs: seq<WriteBack>): (r: seq<InFlight>)
    requires read < n && forall j :: 0 <= j < |wbs| ==> wbs[j].slot < n
    ensures |r| == |window|
  {
    if wbs == [] then window
    else
      var w := RecordAll(window, read, n, wbs[..|wbs| - 1]);
      var last := wbs[|wbs| - 1];
      if last.valid then Record(w, Offset(last.slot, read, n), last.data) else w
  }

  function Issuing(a: Arch, i: Issue): Arch {
    if i.NoIssue? then a
    else a.(prog := a.prog + [i.instr], issued := a.issued + [i.operands],
            window := a.window + [InFlight(i.instr, false, i.instr.imm)])
  }

  // The oldest instruction commits with the given result.
  function CommitOne(a: Arch, data: nat): Arch
    requires a.window != [] && a.window[0].instr.rd < 32
  {
    a.(committed := a.committed + 1, window := a.window[1..], regs := WriteReg(a.regs, a.window[0].instr.rd, data))
  }

  function Committing(a: Arch, d: Decision): Arch
    requires Acks(d) <= |a.window|
    requires forall k :: 0 <= k < Acks(d) ==> a.window[k].instr.rd < 32
  {
    if !d.ack0 then a
    else if !d.ack1 then CommitOne(a, d.data0)
    else CommitOne(CommitOne(a, d.data0), d.data1)
  }

  function Flushing(a: Arch): Arch {
    if a.committed <= |a.prog| && a.committed <= |a.issued| then
      a.(prog := a.prog[..a.committed], issued := a.issued[..a.committed], window := [])
    else a
  }

  // ---------- The invariant is kept ----------

  // A valid writeback names an instruction in flight and, unless that one's
  // result only counts at commit, carries the functional unit's result for the
  // operands that were issued. For an AMO the store unit writes a placeholder.
  ghost predicate RightResult(f: Oracle, a: Arch, k: nat, data: nat) {
    && k < |a.window| && a.committed + k < |a.issued|
    && var o := a.issued[a.committed + k];
       && (Forwardable(a.window[k].instr) ==> data == f(a.window[k].instr, o.a, o.b))
       && (a.window[k].instr.kind.Amo? ==> data == PLACEHOLDER)
  }

  lemma RecordKeepsBase(f: Oracle, init: Registers, a: Arch, k: nat, data: nat)
    requires InvBase(f, init, a) && RightResult(f, a, k, data)
    ensures InvBase(f, init, a.(window := Record(a.window, k, data)))
  {
    var w := Record(a.window, k, data);
    assert forall j :: 0 <= j < |w| ==> w[j].instr == a.window[j].instr;
    assert Value(f, init, a.prog, a.committed + k)
        == f(a.prog[a.committed + k], a.issued[a.committed + k].a, a.issued[a.committed + k].b);
  }

  lemma IssueKeepsOperands(f: Oracle, init: Registers, a: Arch, i: Instr, o: Operands)
    requires InvBase(f, init, a) && WellDecoded(i)
    requires o == SequentialOperands(f, init, a.prog, i)
    ensures AllDecoded(a.prog + [i]) && OperandsSequential(f, init, a.prog + [i], a.issued + [o])
  {
    var p := a.prog + [i];
    forall k | 0 <= k < |p|
      ensures (a.issued + [o])[k] == SequentialOperands(f, init, p[..k], p[k])
    {
      assert p[..k] == if k < |a.prog| then a.prog[..k] else a.prog;
    }
  }

  lemma IssueKeepsBase(f: Oracle, init: Registers, a: Arch, i: Issue)
    requires InvBase(f, init, a)
    requires i.Issued? ==> WellDecoded(i.instr) && i.operands == SequentialOperands(f, init, a.prog, i.instr)
    ensures InvBase(f, init, Issuing(a, i))
    ensures forall k {:trigger Value(f, init, Issuing(a, i).prog, k)} :: 0 <= k < |a.prog| ==>
      Value(f, init, Issuing(a, i).prog, k) == Value(f, init, a.prog, k)
  {
    if i.Issued? {
      var b := Issuing(a, i);
      IssueKeepsOperands(f, init, a, i.instr, i.operands);
      assert b.prog[..a.committed] == a.prog[..a.committed];
      forall k | 0 <= k < |a.prog|
        ensures Value(f, init, b.prog, k) == Value(f, init, a.prog, k)
      {
        assert b.prog[..k] == a.prog[..k];
      }
    }
  }

  lemma CommitOneKeepsBase(f: Oracle, init: Registers, a: Arch, data: nat)
    requires InvBase(f, init, a) && a.window != [] && data == Value(f, init, a.prog, a.committed)
    ensures InvBase(f, init, CommitOne(a, data))
  {
    LastInstruction(f, init, a.prog, a.committed);
    DropOldest(f, init, a.prog, a.committed, a.window);
  }

  lemma DropOldest(f: Oracle, init: Registers, prog: seq<Instr>, committed: nat, window: seq<InFlight>)
    requires AllDecoded(prog) && Holds(window, prog, committed) && Trustworthy(f, init, prog, committed, window)
    requires window != []
    ensures Holds(window[1..], prog, committed + 1) && Trustworthy(f, init, prog, committed + 1, window[1..])
  {
    forall k | 0 <= k < |window[1..]|
      ensures window[1..][k] == window[k + 1]
      ensures Value(f, init, prog, committed + 1 + k) == Value(f, init, prog, committed + (k + 1))
    {
    }
  }

  lemma CommitKeepsBase(f: Oracle, init: Registers, a: Arch, d: Decision)
    requires InvBase(f, init, a) && Acks(d) <= |a.window| && (d.ack1 ==> d.ack0)
    requires d.ack0 ==> d.data0 == Value(f, init, a.prog, a.committed)
    requires d.ack1 ==> d.data1 == Value(f, init, a.prog, a.committed + 1)
    ensures InvBase(f, init, Committing(a, d))
  {
    if d.ack0 {
      CommitOneKeepsBase(f, init, a, d.data0);
      if d.ack1 {
        CommitOneKeepsBase(f, init, CommitOne(a, d.data0), d.data1);
      }
    }
  }

  lemma FlushKeepsInv(f: Oracle, init: Registers, a: Arch)
    requires Inv(f, init, a)
    ensures Inv(f, init, Flushing(a))
  {
    var p := a.prog[..a.committed];
    assert forall k :: 0 <= k < |p| ==> p[..k] == a.prog[..k];
    assert p[..a.committed] == p;
  }

  lemma {:induction false} RecordAllKeepsBase(f: Oracle, init: Registers, a: Arch, read: nat, n: nat,
                                              wbs: seq<WriteBack>)
    requires InvBase(f, init, a) && read < n && forall j :: 0 <= j < |wbs| ==> wbs[j].slot < n
    requires forall j :: 0 <= j < |wbs| && wbs[j].valid ==> RightResult(f, a, Offset(wbs[j].slot, read, n), wbs[j].data)
    ensures var w := RecordAll(a.window, read, n, wbs);
      InvBase(f, init, a.(window := w)) && |w| == |a.window|
        && forall k :: 0 <= k < |w| ==> w[k].instr == a.window[k].instr
    decreases |wbs|
  {
    if wbs == [] {
    } else {
      var rest, last := wbs[..|wbs| - 1], wbs[|wbs| - 1];
      RecordAllKeepsBase(f, init, a, read, n, rest);
      if last.valid {
        var b := a.(window := RecordAll(a.window, read, n, rest));
        RecordKeepsBase(f, init, b, Offset(last.slot, read, n), last.data);
      }
    }
  }

  // A whole cycle: issue, writeback, commit and possibly a flush.
  function Cycle(a: Arch, i: Issue, read: nat, n: nat, wbs: seq<WriteBack>, d: Decision, flush: bool): Arch
    requires read < n && forall j :: 0 <= j < |wbs| ==> wbs[j].slot < n
    requires Acks(d) <= |RecordAll(Issuing(a, i).window, read, n, wbs)|
    requires forall k :: 0 <= k < Acks(d) ==> RecordAll(Issuing(a, i).window, read, n, wbs)[k].instr.rd < 32
  {
    var b := Issuing(a, i);
    var c := Committing(b.(window := RecordAll(b.window, read, n, wbs)), d);
    if flush then Flushing(c) else c
  }

  // What the commit ports do is right for the oldest instructions.
  ghost predicate RightCommit(f: Oracle, init: Registers, a: Arch, d: Decision)
    requires AllDecoded(a.prog)
  {
    && Acks(d) <= |a.window| && (d.ack1 ==> d.ack0) && a.committed + |a.window| == |a.prog|
    && (d.ack0 ==> d.data0 == Value(f, init, a.prog, a.committed))
    && (d.ack1 ==> d.data1 == Value(f, init, a.prog, a.committed + 1))
  }

  // What the issue stage does is right: sequential operands, and no writer of
  // the same register is left behind.
  ghost predicate RightIssue(f: Oracle, init: Registers, a: Arch, i: Issue, acks: nat)
    requires AllDecoded(a.prog)
  {
    i.Issued? ==>
      && WellDecoded(i.instr) && i.operands == SequentialOperands(f, init, a.prog, i.instr)
      && (i.instr.rd != 0 ==> forall k :: acks <= k < |a.window| ==> a.window[k].instr.rd != i.instr.rd)
  }

  lemma CycleKeepsInv(f: Oracle, init: Registers, a: Arch, i: Issue, read: nat, n: nat, wbs: seq<WriteBack>,
                      d: Decision, flush: bool)
    requires Inv(f, init, a) && read < n && forall j :: 0 <= j < |wbs| ==> wbs[j].slot < n
    requires forall j :: 0 <= j < |wbs| && wbs[j].valid ==> RightResult(f, a, Offset(wbs[j].slot, read, n), wbs[j].data)
    requires RightCommit(f, init, a, d) && RightIssue(f, init, a, i, Acks(d))
    ensures Acks(d) <= |RecordAll(Issuing(a, i).window, read, n, wbs)|
    ensures forall k :: 0 <= k < Acks(d) ==> RecordAll(Issuing(a, i).window, read, n, wbs)[k].instr.rd < 32
    ensures Inv(f, init, Cycle(a, i, read, n, wbs, d, flush))
  {
    var c := IssueAndRecord(f, init, a, i, read, n, wbs);
    CommitKeepsBase(f, init, c, d);
    OneWriterStays(a, i, c, d);
    if flush {
      FlushKeepsInv(f, init, Committing(c, d));
    }
  }

  lemma IssueKeepsResults(f: Oracle, a: Arch, i: Issue, k: nat, data: nat)
    requires RightResult(f, a, k, data)
    ensures RightResult(f, Issuing(a, i), k, data)
  {
  }

  lemma IssueAndRecord(f: Oracle, init: Registers, a: Arch, i: Issue, read: nat, n: nat, wbs: seq<WriteBack>)
    returns (c: Arch)
    requires InvBase(f, init, a) && read < n && forall j :: 0 <= j < |wbs| ==> wbs[j].slot < n
    requires forall j :: 0 <= j < |wbs| && wbs[j].valid ==> RightResult(f, a, Offset(wbs[j].slot, read, n), wbs[j].data)
    requires i.Issued? ==> WellDecoded(i.instr) && i.operands == SequentialOperands(f, init, a.prog, i.instr)
    ensures c == Issuing(a, i).(window := RecordAll(Issuing(a, i).window, read, n, wbs)) && InvBase(f, init, c)
    ensures |c.window| == |Issuing(a, i).window|
    ensures forall k :: 0 <= k < |c.window| ==>
      c.window[k].instr == Issuing(a, i).window[k].instr && c.window[k].instr.rd < 32
    ensures forall k {:trigger Value(f, init, c.prog, k)} :: 0 <= k < |a.prog| ==>
      Value(f, init, c.prog, k) == Value(f, init, a.prog, k)
  {
    var b := Issuing(a, i);
    IssueKeepsBase(f, init, a, i);
    forall j | 0 <= j < |wbs| && wbs[j].valid
      ensures RightResult(f, b, Offset(wbs[j].slot, read, n), wbs[j].data)
    {
      IssueKeepsResults(f, a, i, Offset(wbs[j].slot, read, n), wbs[j].data);
    }
    RecordAllKeepsBase(f, init, b, read, n, wbs);
    c := b.(window := RecordAll(b.window, read, n, wbs));
  }

  lemma OneWriterStays(a: Arch, i: Issue, c: Arch, d: Decision)
    requires OneWriter(a.window) && Acks(d) <= |a.window| && (d.ack1 ==> d.ack0)
    requires i.Issued? && i.instr.rd != 0 ==> forall k :: Acks(d) <= k < |a.window| ==>
      a.window[k].instr.rd != i.instr.rd
    requires |c.window| == |Issuing(a, i).window|
    requires forall k :: 0 <= k < |c.window| ==> c.window[k].instr == Issuing(a, i).window[k].instr
    requires forall k :: 0 <= k < Acks(d) ==> c.window[k].instr.rd < 32
    ensures OneWriter(Committing(c, d).window)
  {
    assert Committing(c, d).window == c.window[Acks(d)..];
  }
}
