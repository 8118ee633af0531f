/**
  The write port the fixed-latency units share: the issue logic of
  src/issue_read_operands.sv, the port of src/ex_stage.sv, the control of
  src/mult.sv, src/multiplier.sv and src/serdiv.sv, and the CSR buffer of
  src/csr_buffer.sv. Results themselves are left to the modules about the
  units; here an instruction is its transaction ID.
*/
module FluPort {
  import Rings

  // The unit an instruction needs. Multiplications and divisions both go to
  // MULT; `Elsewhere` is the load/store unit and the FPU.
  datatype Kind = NoUnit | Alu | CtrlFlow | Csr | Multiply | Divide | Elsewhere

  predicate IsMult(k: Kind) {
    k.Multiply? || k.Divide?
  }

  predicate FixedLatency(k: Kind) {
    k.Alu? || k.CtrlFlow? || k.Csr? || IsMult(k)
  }

  datatype Phase = Idle | Dividing | Finished

  // The valid flags and the ID of the ID/EX register, the multiplier's stage,
  // the divider's phase and the CSR buffer.
  datatype Regs = Regs(
    alu: bool, branch: bool, csr: bool, mult: bool, divides: bool, id: nat,
    mulValid: bool, mulId: nat,
    phase: Phase, divId: nat,
    csrFull: bool)

  // An instruction at issue and whether anything other than a busy unit keeps
  // it there, the two flush signals, the CSR commit, and where the divider's
  // counter stands: at zero, or a result known to be zero.
  datatype Input = Input(
    valid: bool, kind: Kind, id: nat, exception: bool, free: bool,
    flushIssue: bool, flushUnits: bool, csrCommit: bool,
    counterZero: bool, resultZero: bool)

  // ---------- Combinational signals ----------

  predicate DivStarts(r: Regs, i: Input) {
    !i.flushUnits && r.mult && r.divides
  }

  predicate DivReady(r: Regs, i: Input) {
    r.phase.Idle? && !DivStarts(r, i) && !i.flushUnits
  }

  predicate DivValid(r: Regs, i: Input) {
    !i.flushUnits && (r.phase.Finished? || (r.phase.Dividing? && i.resultZero))
  }

  predicate CsrReady(r: Regs, i: Input) {
    !((r.csrFull || r.csr) && !i.csrCommit)
  }

  predicate FluReady(r: Regs, i: Input) {
    CsrReady(r, i) && DivReady(r, i)
  }

  // The unit is ready, or none is needed.
  predicate Acceptable(r: Regs, i: Input) {
    i.valid && ((i.free && (FixedLatency(i.kind) ==> FluReady(r, i))) || i.exception || i.kind.NoUnit?)
  }

  // The multiplication rule: behind a multiplication only another may go.
  predicate MultRule(r: Regs, i: Input) {
    r.mult ==> IsMult(i.kind)
  }

  predicate Acknowledges(r: Regs, i: Input) {
    Acceptable(r, i) && MultRule(r, i)
  }

  predicate Starts(r: Regs, i: Input) {
    Acknowledges(r, i) && !i.exception && !i.flushIssue
  }

  function PhaseNext(r: Regs, i: Input): Phase {
    if i.flushUnits then Idle
    else
      match r.phase
      case Idle => if DivStarts(r, i) then Dividing else Idle
      case Dividing =>
        if i.resultZero then (if r.mulValid then Finished else Idle) else if i.counterZero then Finished else Dividing
      case Finished => if r.mulValid then Finished else Idle
  }

  function Next(r: Regs, i: Input): Regs {
    NextIf(r, i, Starts(r, i))
  }

  // The next state if the instruction at issue goes, or does not.
  function NextIf(r: Regs, i: Input, go: bool): Regs {
    Regs(
      go && i.kind.Alu?, go && i.kind.CtrlFlow?, go && i.kind.Csr?, go && IsMult(i.kind), i.kind.Divide?, i.id,
      !i.flushUnits && r.mult && !r.divides, r.id,
      PhaseNext(r, i), if DivStarts(r, i) && r.phase.Idle? then r.id else r.divId,
      !i.flushUnits && (r.csr || (r.csrFull && !i.csrCommit)))
  }

  // What the port carries: one result's ID, or nothing.
  function Port(r: Regs, i: Input): seq<nat> {
    if r.alu || r.csr then [r.id]
    else if DivValid(r, i) || r.mulValid then [if r.mulValid then r.mulId else r.divId]
    else if r.branch then [r.id]
    else []
  }

  // ---------- One result at a time ----------

  function Count(b: bool): nat {
    if b then 1 else 0
  }

  // How many of the five units have a result this cycle.
  function Contenders(r: Regs, i: Input): nat {
    Count(r.alu) + Count(r.branch) + Count(r.csr) + Count(r.mulValid) + Count(DivValid(r, i))
  }

  ghost predicate Apart(r: Regs) {
    && Count(r.alu) + Count(r.branch) + Count(r.csr) + Count(r.mult) <= 1
    && (r.mulValid ==> !r.alu && !r.branch && !r.csr)
    && (!r.phase.Idle? ==> !r.mulValid && !r.alu && !r.branch && !r.csr && !r.mult)
  }

  const RESET: Regs := Regs(false, false, false, false, false, 0, false, 0, Idle, 0, false)

  function Run(r: Regs, run: seq<Input>): Regs
    decreases |run|
  {
    if run == [] then r else Run(Next(r, run[0]), run[1..])
  }

  lemma NextApart(r: Regs, i: Input)
    requires Apart(r)
    ensures Apart(Next(r, i))
  {
  }

  lemma {:induction false} RunApart(r: Regs, run: seq<Input>)
    requires Apart(r)
    ensures Apart(Run(r, run))
    decreases |run|
  {
    if run == [] {
    } else {
      NextApart(r, run[0]);
      RunApart(Next(r, run[0]), run[1..]);
    }
  }

  lemma OneTaker(r: Regs, i: Input)
    requires Apart(r)
    ensures Contenders(r, i) <= 1 && |Port(r, i)| == Contenders(r, i) && (DivValid(r, i) ==> !r.mulValid)
  {
  }

  // In every reachable cycle, whatever is issued or flushed, the port has at
  // most one taker, and a division never waits for it.
  lemma PortIsNeverContended(run: seq<Input>, i: Input)
    ensures var r := Run(RESET, run);
            Contenders(r, i) <= 1 && |Port(r, i)| == Contenders(r, i) && (DivValid(r, i) ==> !r.mulValid)
  {
    RunApart(RESET, run);
    OneTaker(Run(RESET, run), i);
  }

  // ---------- Results leave in issue order, each once ----------

  // What has been started and not yet delivered, oldest first.
  function Pending(r: Regs): seq<nat> {
    (if r.mulValid then [r.mulId] else if !r.phase.Idle? then [r.divId] else [])
    + (if r.alu || r.branch || r.csr || r.mult then [r.id] else [])
  }

  function Started(r: Regs, i: Input): seq<nat> {
    if Starts(r, i) && FixedLatency(i.kind) then [i.id] else []
  }

  predicate Flushes(i: Input) {
    i.flushIssue || i.flushUnits
  }

  lemma CycleConserves(r: Regs, i: Input)
    requires Apart(r) && !Flushes(i)
    ensures Pending(r) + Started(r, i) == Port(r, i) + Pending(Next(r, i))
  {
  }

  function AllStarted(r: Regs, run: seq<Input>): seq<nat>
    decreases |run|
  {
    if run == [] then [] else Started(r, run[0]) + AllStarted(Next(r, run[0]), run[1..])
  }

  function AllDelivered(r: Regs, run: seq<Input>): seq<nat>
    decreases |run|
  {
    if run == [] then [] else Port(r, run[0]) + AllDelivered(Next(r, run[0]), run[1..])
  }

  // Over any run without a flush, the IDs on the port are those of the started
  // instructions in issue order, each once, but for at most two still inside.
  lemma {:induction false} ResultsLeaveInIssueOrder(r: Regs, run: seq<Input>)
    requires Apart(r) && forall i <- run :: !Flushes(i)
    ensures Pending(r) + AllStarted(r, run) == AllDelivered(r, run) + Pending(Run(r, run))
    ensures |Pending(Run(r, run))| <= 2
    decreases |run|
  {
    if run == [] {
      assert Pending(r) + [] == [] + Pending(r);
    } else {
      var next, rest := Next(r, run[0]), run[1..];
      NextApart(r, run[0]);
      CycleConserves(r, run[0]);
      ResultsLeaveInIssueOrder(next, rest);
      Rings.Regroup(Pending(r), Started(r, run[0]), AllStarted(next, rest),
                    Port(r, run[0]), Pending(next), AllDelivered(next, rest), Pending(Run(next, rest)));
    }
  }

  // ---------- When instructions start and arrive ----------

  // With its unit free and nothing else in its way an instruction starts; the CSR
  // entry is free as soon as the instruction in it commits.
  lemma UnhinderedStarts(r: Regs, i: Input)
    requires i.valid && i.free && !i.exception && !Flushes(i)
    requires r.mult ==> !r.divides && (i.kind.Multiply? || i.kind.Divide?)
    requires i.kind.NoUnit? || i.kind.Elsewhere? || (r.phase.Idle? && ((!r.csr && !r.csrFull) || i.csrCommit))
    ensures Starts(r, i)
  {
  }

  // A branch, a CSR instruction or one for the ALU is on the port in the next
  // cycle, a multiplication in the one after; a division when its counter is done.
  lemma ArrivesInTime(r: Regs, i: Input, j: Input, k: Input)
    requires Apart(r) && Starts(r, i) && !j.flushUnits && !k.flushUnits
    ensures i.kind.Alu? || i.kind.CtrlFlow? || i.kind.Csr? ==> Port(Next(r, i), j) == [i.id]
    ensures i.kind.Multiply? ==> Port(Next(Next(r, i), j), k) == [i.id]
    ensures i.kind.Divide? ==>
      var d := Next(Next(r, i), j);
      && d.phase.Dividing? && (k.resultZero ==> Port(d, k) == [i.id])
      && (!k.resultZero ==> Port(d, k) == [] && Next(d, k).divId == i.id
                            && Next(d, k).phase == if k.counterZero then Finished else Dividing)
  {
    NextApart(r, i);
    NextApart(Next(r, i), j);
  }

  lemma FinishedIsOnThePort(r: Regs, i: Input)
    requires Apart(r) && r.phase.Finished? && !i.flushUnits
    ensures Port(r, i) == [r.divId] && Next(r, i).phase.Idle?
  {
  }

  // ---------- The CSR buffer ----------

  // A CSR instruction commits only after its address has got into the buffer.
  ghost predicate CommitsWaiting(r: Regs, run: seq<Input>)
    decreases |run|
  {
    run == [] || ((run[0].csrCommit ==> r.csrFull) && CommitsWaiting(Next(r, run[0]), run[1..]))
  }

  lemma {:induction false} EntryKept(r: Regs, run: seq<Input>)
    requires CommitsWaiting(r, run) && !(r.csr && r.csrFull)
    ensures var end := Run(r, run);
            !(end.csr && end.csrFull)
    decreases |run|
  {
    if run != [] {
      EntryKept(Next(r, run[0]), run[1..]);
    }
  }

  // The addresses in the buffer over a run, by transaction ID: they enter from
  // the ID/EX register, and a commit takes the oldest one.
  function Waiting(r: Regs, ids: seq<nat>, run: seq<Input>): seq<nat>
    decreases |run|
  {
    if run == [] then ids
    else
      var left := if run[0].csrCommit && ids != [] then ids[1..] else ids;
      var now := if run[0].flushUnits then [] else left + if r.csr then [r.id] else [];
      Waiting(Next(r, run[0]), now, run[1..])
  }

  // In every run from reset the address of a CSR instruction stays in the one
  // entry until its commit: none comes for an entry that is in use, and with the
  // addresses kept in a list of any length never more than one would be in it.
  lemma CsrAddressIsKept(run: seq<Input>)
    requires CommitsWaiting(RESET, run)
    ensures var end := Run(RESET, run);
      && !(end.csr && end.csrFull)
      && |Waiting(RESET, [], run)| == Count(end.csrFull)
  {
    EntryKept(RESET, run);
    OneWaits(RESET, [], run);
  }

  lemma {:induction false} OneWaits(r: Regs, ids: seq<nat>, run: seq<Input>)
    requires CommitsWaiting(r, run) && !(r.csr && r.csrFull) && |ids| == Count(r.csrFull)
    ensures |Waiting(r, ids, run)| == Count(Run(r, run).csrFull)
    decreases |run|
  {
    if run != [] {
      var left := if run[0].csrCommit && ids != [] then ids[1..] else ids;
      var now := if run[0].flushUnits then [] else left + if r.csr then [r.id] else [];
      OneWaits(Next(r, run[0]), now, run[1..]);
    }
  }

  // ---------- Why the rule is there ----------

  // The same issue logic with the multiplication rule left out.
  predicate StartsUnruled(r: Regs, i: Input) {
    Acceptable(r, i) && !i.exception && !i.flushIssue
  }

  function NextUnruled(r: Regs, i: Input): Regs {
    NextIf(r, i, StartsUnruled(r, i))
  }

  // An instruction that nothing but its unit keeps waiting.
  function Offered(kind: Kind, id: nat): Input {
    Input(true, kind, id, false, true, false, false, false, false, false)
  }

  // Without the rule, from reset: a multiplication starts and an ALU instruction
  // behind it. In the cycle after, whatever it brings, both results are there,
  // only the ALU's is on the port, and the multiplication's is gone for good.
  // The rule keeps the second instruction back.
  lemma RuleIsNeeded(a: nat, b: nat, i: Input)
    ensures var r1 := NextUnruled(RESET, Offered(Multiply, a));
      var r2 := NextUnruled(r1, Offered(Alu, b));
      && StartsUnruled(RESET, Offered(Multiply, a)) && Port(RESET, Offered(Multiply, a)) == []
      && StartsUnruled(r1, Offered(Alu, b)) && Port(r1, Offered(Alu, b)) == []
      && Pending(r2) == [a, b] && Contenders(r2, i) == 2 && Port(r2, i) == [b]
      && (!StartsUnruled(r2, i) ==> Pending(NextUnruled(r2, i)) == [])
      && r1 == Next(RESET, Offered(Multiply, a)) && !Starts(r1, Offered(Alu, b))
  {
  }

  // ---------- The registers ----------

  class Flu {
    var alu: bool
    var branch: bool
    var csr: bool
    var mult: bool
    var divides: bool
    var id: nat
    var mulValid: bool
    var mulId: nat
    var phase: Phase
    var divId: nat
    var csrFull: bool

    ghost function Registers(): Regs
      reads this
    {
      Regs(alu, branch, csr, mult, divides, id, mulValid, mulId, phase, divId, csrFull)
    }

    constructor ()
      ensures Registers() == RESET && Apart(Registers())
    {
      alu, branch, csr, mult, divides, id := false, false, false, false, false, 0;
      mulValid, mulId, phase, divId, csrFull := false, 0, Idle, 0, false;
    }

    // The port: the multiplexers of the execute stage and of the multiply unit.
    method WritePort(divValid: bool) returns (valid: bool, transId: nat)
      ensures forall i :: divValid == DivValid(Registers(), i) ==>
                Port(Registers(), i) == if valid then [transId] else []
    {
      var multValid := divValid || mulValid;
      valid := alu || branch || csr || multValid;
      transId := id;
      if alu {
      } else if csr {
      } else if multValid {
        transId := if mulValid then mulId else divId;
      }
    }

    // The divider's control. The receiver is ready unless a product is coming out.
    method DividerControl(i: Input) returns (inReady: bool, outValid: bool, starts: bool, next: Phase)
      ensures inReady == DivReady(Registers(), i) && outValid == DivValid(Registers(), i)
      ensures starts <==> DivStarts(Registers(), i) && phase.Idle?
      ensures next == PhaseNext(Registers(), i)
    {
      var inValid := !i.flushUnits && mult && divides;
      var outReady := !mulValid;
      inReady, outValid, starts, next := false, false, false, phase;
      match phase {
        case Idle =>
          inReady := true;
          if inValid {
            inReady, starts, next := false, true, Dividing;
          }
        case Dividing =>
          if i.resultZero {
            outValid, next := true, Finished;
            if outReady {
              next := Idle;
            }
          } else if i.counterZero {
            next := Finished;
          }
        case Finished =>
          outValid := true;
          if outReady {
            next := Idle;
          }
      }
      if i.flushUnits {
        inReady, outValid, starts, next := false, false, false, Idle;
      }
    }

    method CsrBuffer(i: Input) returns (ready: bool, full: bool)
      ensures ready == CsrReady(Registers(), i)
      ensures full <==> !i.flushUnits && (csr || (csrFull && !i.csrCommit))
    {
      full, ready := csrFull, true;
      if (csrFull || csr) && !i.csrCommit {
        ready := false;
      }
      if csr {
        full := true;
      }
      if i.csrCommit && !csr {
        full := false;
      }
      if i.flushUnits {
        full := false;
      }
    }

    method Issue(i: Input, fluReady: bool) returns (ack: bool)
      requires fluReady == FluReady(Registers(), i)
      ensures ack == Acknowledges(Registers(), i)
    {
      var busy := FixedLatency(i.kind) && !fluReady;
      ack := false;
      if i.valid {
        if i.free && !busy {
          ack := true;
        }
        if i.exception {
          ack := true;
        }
        if i.kind.NoUnit? {
          ack := true;
        }
      }
      if mult && !IsMult(i.kind) {
        ack := false;
      }
    }

    // One clock cycle: what is on the port now is that of the one unit that
    // has a result.
    method Step(i: Input) returns (valid: bool, transId: nat, ack: bool)
      requires Apart(Registers())
      modifies this
      ensures Registers() == Next(old(Registers()), i) && Apart(Registers())
      ensures Port(old(Registers()), i) == if valid then [transId] else []
      ensures Contenders(old(Registers()), i) == if valid then 1 else 0
      ensures ack == Acknowledges(old(Registers()), i)
    {
      ghost var r := Registers();
      NextApart(r, i);
      OneTaker(r, i);
      var inReady, outValid, divStarts, nextPhase := DividerControl(i);
      var csrReady, nextFull := CsrBuffer(i);
      valid, transId := WritePort(outValid);
      ack := Issue(i, csrReady && inReady);
      var go := i.valid && ack && !i.exception && !i.flushIssue;
      var next := Regs(
        go && i.kind.Alu?, go && i.kind.CtrlFlow?, go && i.kind.Csr?, go && IsMult(i.kind), i.kind.Divide?, i.id,
        !i.flushUnits && mult && !divides, id,
        nextPhase, if divStarts then id else divId,
        nextFull);
      assert next == Next(r, i);
      Latch(next);
    }

    method Latch(next: Regs)
      modifies this
      ensures Registers() == next
    {
      alu, branch, csr, mult, divides, id := next.alu, next.branch, next.csr, next.mult, next.divides, next.id;
      mulValid, mulId, phase, divId, csrFull := next.mulValid, next.mulId, next.phase, next.divId, next.csrFull;
    }
  }
}
