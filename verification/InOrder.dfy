/**
  What out-of-order writeback has to look like from outside: registers and
  operands under sequential execution, and the in-flight window from which the
  issue stage takes operands.
*/
module InOrder {

  datatype Fu = NONE | ALU | CTRL_FLOW | MULT | CSR | LOAD | STORE | FPU

  // Operations the commit stage holds back until the stores have drained.
  datatype Kind = Plain | Amo | Fence

  // A decoded instruction. `id` tells dynamic instances apart.
  datatype Instr = Instr(
    id: nat, fu: Fu, kind: Kind, rs1: nat, rs2: nat, rd: nat, usePc: bool, useZimm: bool, useImm: bool, pc: nat,
      imm: nat)

  type Registers = r: seq<nat> | |r| == 32 witness seq(32, _ => 0)

  // Decoding leaves the destination of stores and fences zero, AMOs go to the
  // store unit, and only faulting instructions have no functional unit.
  predicate WellDecoded(i: Instr) {
    && i.rs1 < 32 && i.rs2 < 32 && i.rd < 32 && i.fu != NONE
    && (i.kind.Amo? ==> i.fu == STORE)
    && (i.fu == STORE && !i.kind.Amo? ==> i.rd == 0)
    && (i.kind.Fence? ==> i.fu == CSR && i.rd == 0)
  }

  // The result of an instruction for given operands: the functional units,
  // memory and CSRs as a parameter.
  type Oracle = (Instr, nat, nat) -> nat

  predicate ReadsRs1(i: Instr) {
    !i.useZimm && !i.usePc
  }

  predicate ReadsRs2(i: Instr) {
    !(i.useImm && i.fu != STORE && i.fu != CTRL_FLOW)
  }

  datatype Operands = Operands(a: nat, b: nat)

  function OperandsOf(i: Instr, regs: Registers): Operands
    requires i.rs1 < 32 && i.rs2 < 32
  {
    Operands(if i.useZimm then i.rs1 else if i.usePc then i.pc else regs[i.rs1],
             if ReadsRs2(i) then regs[i.rs2] else i.imm)
  }

  ghost predicate AllDecoded(prog: seq<Instr>) {
    forall k :: 0 <= k < |prog| ==> WellDecoded(prog[k])
  }

  // ---------- Sequential execution ----------

  function WriteReg(regs: Registers, rd: nat, v: nat): Registers
    requires rd < 32
  {
    if rd == 0 then regs else regs[rd := v]
  }

  ghost function Exec(f: Oracle, init: Registers, prog: seq<Instr>): Registers
    requires AllDecoded(prog)
    decreases |prog|, 0
  {
    if prog == [] then init
    else
      var n := |prog| - 1;
      WriteReg(Exec(f, init, prog[..n]), prog[n].rd, Value(f, init, prog, n))
  }

  // The result of the k-th instruction.
  ghost function Value(f: Oracle, init: Registers, prog: seq<Instr>, k: nat): nat
    requires AllDecoded(prog) && k < |prog|
    decreases k, 2
  {
    var o := SequentialOperands(f, init, prog[..k], prog[k]);
    f(prog[k], o.a, o.b)
  }

  // The operands instruction i reads after all of prog has executed.
  ghost function SequentialOperands(f: Oracle, init: Registers, prog: seq<Instr>, i: Instr): Operands
    requires AllDecoded(prog) && WellDecoded(i)
    decreases |prog|, 1
  {
    OperandsOf(i, Exec(f, init, prog))
  }

  // Younger instructions do not matter.
  lemma ValueOfPrefix(f: Oracle, init: Registers, prog: seq<Instr>, n: nat, k: nat)
    requires AllDecoded(prog) && k < n <= |prog|
    ensures Value(f, init, prog[..n], k) == Value(f, init, prog, k)
  {
    assert prog[..n][..k] == prog[..k];
  }

  // ---------- The window of instructions in flight ----------

  // A scoreboard entry: the instruction, whether its result is in, the result.
  datatype InFlight = InFlight(instr: Instr, done: bool, result: nat)

  ghost predicate Holds(window: seq<InFlight>, prog: seq<Instr>, committed: nat) {
    && committed + |window| == |prog|
    && forall k :: 0 <= k < |window| ==> window[k].instr == prog[committed + k]
  }

  // At most one instruction in flight writes a given register.
  ghost predicate OneWriter(window: seq<InFlight>) {
    forall i, j :: 0 <= i < j < |window| && window[i].instr.rd == window[j].instr.rd ==> window[i].instr.rd == 0
  }

  ghost predicate Writes(window: seq<InFlight>, k: nat, r: nat) {
    k < |window| && window[k].instr.rd == r
  }

  // Results that readers may take from the scoreboard are in and right. A CSR
  // instruction's or AMO's result comes only when it commits; until then a
  // finished AMO's entry holds the store unit's placeholder.
  ghost predicate Trustworthy(f: Oracle, init: Registers, prog: seq<Instr>, committed: nat, window: seq<InFlight>)
    requires AllDecoded(prog) && Holds(window, prog, committed)
  {
    forall k :: 0 <= k < |window| && window[k].done ==>
      && (Forwardable(window[k].instr) ==> window[k].result == Value(f, init, prog, committed + k))
      && (window[k].instr.kind.Amo? ==> window[k].result == PLACEHOLDER)
  }

  // What the store unit writes back, whatever the operation.
  const PLACEHOLDER: nat := 0

  predicate Forwardable(i: Instr) {
    i.fu != CSR && !i.kind.Amo?
  }

  // A register that nobody in flight writes keeps its committed value.
  lemma {:induction false} UnwrittenRegister(f: Oracle, init: Registers, prog: seq<Instr>, lo: nat, hi: nat, r: nat)
    requires AllDecoded(prog) && lo <= hi <= |prog| && 0 < r < 32
    requires forall k :: lo <= k < hi ==> prog[k].rd != r
    ensures Exec(f, init, prog[..hi])[r] == Exec(f, init, prog[..lo])[r]
    decreases hi
  {
    if lo == hi {
    } else {
      UnwrittenRegister(f, init, prog, lo, hi - 1, r);
      LastInstruction(f, init, prog, hi - 1);
    }
  }

  // A register with a single writer in flight ends up with that one's result.
  lemma WrittenRegister(f: Oracle, init: Registers, prog: seq<Instr>, k: nat, hi: nat, r: nat)
    requires AllDecoded(prog) && k < hi <= |prog| && 0 < r < 32 && prog[k].rd == r
    requires forall j :: k < j < hi ==> prog[j].rd != r
    ensures Exec(f, init, prog[..hi])[r] == Value(f, init, prog, k)
  {
    LastInstruction(f, init, prog, k);
    UnwrittenRegister(f, init, prog, k + 1, hi, r);
  }

  lemma LastInstruction(f: Oracle, init: Registers, prog: seq<Instr>, k: nat)
    requires AllDecoded(prog) && k < |prog|
    ensures Exec(f, init, prog[..k + 1]) == WriteReg(Exec(f, init, prog[..k]), prog[k].rd, Value(f, init, prog, k))
  {
    assert prog[..k + 1][..k] == prog[..k];
    ValueOfPrefix(f, init, prog, k + 1, k);
  }

  lemma {:induction false} ZeroStaysZero(f: Oracle, init: Registers, prog: seq<Instr>)
    requires AllDecoded(prog) && init[0] == 0
    ensures Exec(f, init, prog)[0] == 0
    decreases |prog|
  {
    if prog == [] {
    } else {
      ZeroStaysZero(f, init, prog[..|prog| - 1]);
    }
  }

  // ---------- Operand delivery ----------

  // Where the issue stage may take register r from: the register file if no
  // instruction in flight writes it, or the result of the one that does.
  ghost predicate Delivered(f: Oracle, init: Registers, prog: seq<Instr>, committed: nat, window: seq<InFlight>,
                            r: nat, v: nat)
    requires AllDecoded(prog) && Holds(window, prog, committed)
  {
    if r == 0 || (forall k :: 0 <= k < |window| ==> window[k].instr.rd != r) then
      r < 32 && v == Exec(f, init, prog[..committed])[r]
    else
      exists k :: 0 <= k < |window| && window[k].instr.rd == r && v == Value(f, init, prog, committed + k)
  }

  // After the whole program a register holds the result of its writer in flight.
  lemma WriterInFlight(f: Oracle, init: Registers, prog: seq<Instr>, committed: nat, window: seq<InFlight>, k: nat,
                       r: nat)
    requires AllDecoded(prog) && Holds(window, prog, committed) && OneWriter(window) && 0 < r < 32
      && Writes(window, k, r)
    ensures Exec(f, init, prog)[r] == Value(f, init, prog, committed + k)
  {
    assert prog[..|prog|] == prog;
    assert forall j :: committed + k < j < |prog| ==> prog[j] == window[j - committed].instr;
    WrittenRegister(f, init, prog, committed + k, |prog|, r);
  }

  lemma DeliveredIsSequential(f: Oracle, init: Registers, prog: seq<Instr>, committed: nat, window: seq<InFlight>,
                              r: nat, v: nat)
    requires AllDecoded(prog) && Holds(window, prog, committed) && OneWriter(window) && r < 32 && init[0] == 0
    requires Delivered(f, init, prog, committed, window, r, v)
    ensures v == Exec(f, init, prog)[r]
  {
    assert prog[..|prog|] == prog;
    if r == 0 {
      ZeroStaysZero(f, init, prog);
      ZeroStaysZero(f, init, prog[..committed]);
    } else {
      if k :| 0 <= k < |window| && window[k].instr.rd == r && v == Value(f, init, prog, committed + k) {
        WriterInFlight(f, init, prog, committed, window, k, r);
      } else {
        assert forall j :: committed <= j < |prog| ==> prog[j] == window[j - committed].instr;
        UnwrittenRegister(f, init, prog, committed, |prog|, r);
      }
    }
  }
}
