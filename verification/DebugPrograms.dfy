/**
  The three programs the host puts into the program buffer, and what running
  them does to the hart: one load or store through S0 and an increment of S0,
  or a loop that stores zeros until S0 meets S1.
*/
module DebugPrograms {
  import opened Fields
  import opened Encoding
  import opened Bytes
  import opened Hart

  const X0: Word := 0
  const S0: Word := 8
  const S1: Word := 9

  function Stride(xlen: nat): Word {
    if xlen == 64 then 8 else 4
  }

  function ReadProgram(xlen: nat): seq<Word> {
    [LoadWord(xlen, S1, S0, 0), AddiWord(S0, S0, Stride(xlen)), EBREAK]
  }

  function WriteProgram(xlen: nat): seq<Word> {
    [StoreWord(xlen, S1, S0, 0), AddiWord(S0, S0, Stride(xlen)), EBREAK]
  }

  function ClearProgram(xlen: nat): seq<Word> {
    [StoreWord(xlen, X0, S0, 0), AddiWord(S0, S0, Stride(xlen)), BneWord(S0, S1, 0, 8), EBREAK]
  }

  // ---------- What the words mean ----------

  // The program buffer starts with some code.
  predicate Begins(program: seq<Instr>, code: seq<Instr>) {
    code <= program && ValidCode(program)
  }

  function ReadCode(xlen: nat): seq<Instr>
    requires xlen == 32 || xlen == 64
  {
    [Load(Width(xlen), 9, 8, 0), Addi(8, 8, Width(xlen)), Ebreak]
  }

  function WriteCode(xlen: nat): seq<Instr>
    requires xlen == 32 || xlen == 64
  {
    [Store(Width(xlen), 9, 8, 0), Addi(8, 8, Width(xlen)), Ebreak]
  }

  function ClearCode(xlen: nat): seq<Instr>
    requires xlen == 32 || xlen == 64
  {
    [Store(Width(xlen), 0, 8, 0), Addi(8, 8, Width(xlen)), Bne(8, 9, -8), Ebreak]
  }

  lemma ReadProgramDecodes(xlen: nat)
    requires xlen == 32 || xlen == 64
    ensures Decoded(ReadProgram(xlen)) == ReadCode(xlen)
  {
    LoadRoundTrip(xlen, S1, S0, 0);
    AddiRoundTrip(S0, S0, Stride(xlen));
  }

  lemma WriteProgramDecodes(xlen: nat)
    requires xlen == 32 || xlen == 64
    ensures Decoded(WriteProgram(xlen)) == WriteCode(xlen)
  {
    StoreRoundTrip(xlen, S1, S0, 0);
    AddiRoundTrip(S0, S0, Stride(xlen));
  }

  lemma ClearProgramDecodes(xlen: nat)
    requires xlen == 32 || xlen == 64
    ensures Decoded(ClearProgram(xlen)) == ClearCode(xlen)
  {
    StoreRoundTrip(xlen, X0, S0, 0);
    AddiRoundTrip(S0, S0, Stride(xlen));
    BneRoundTrip(S0, S1, 0, 8);
  }

  // ---------- One instruction at a time ----------

  // S0 points at a word of memory.
  ghost predicate PointsAt(c: Cpu, a: nat) {
    Wf(c) && c.regs[8] == a && Aligned(c.xlen, a) && a + Width(c.xlen) <= |c.mem|
  }

  lemma AddressHere(c: Cpu, a: nat)
    requires PointsAt(c, a)
    ensures Address(c, 8, 0) == a && Accessible(c, Width(c.xlen), a)
  {
  }

  lemma LoadStep(c: Cpu, pc: nat, a: nat)
    requires PointsAt(c, a)
    ensures Perform(c, pc, Load(Width(c.xlen), 9, 8, 0))
         == Run(c.(regs := c.regs[9 := Value(c.mem[a..a + Width(c.xlen)])]), At(pc + 1))
  {
    AddressHere(c, a);
  }

  lemma StoreStep(c: Cpu, pc: nat, src: Reg, a: nat)
    requires PointsAt(c, a)
    ensures Perform(c, pc, Store(Width(c.xlen), src, 8, 0))
         == Run(c.(mem := Splice(c.mem, a, Encode(c.regs[src], Width(c.xlen)))), At(pc + 1))
  {
    AddressHere(c, a);
  }

  // ---------- The programs ----------

  function AfterRead(c: Cpu, a: nat): Cpu
    requires PointsAt(c, a)
  {
    c.(regs := c.regs[9 := Value(c.mem[a..a + Width(c.xlen)])][8 := Wrapped(c.xlen, a + Width(c.xlen))])
  }

  lemma ReadProgramRuns(c: Cpu, program: seq<Instr>, a: nat)
    requires PointsAt(c, a) && Begins(program, ReadCode(c.xlen))
    ensures RunN(c, program, 0, 3) == Run(AfterRead(c, a), Done)
  {
    LoadStep(c, 0, a);
    NextKeepsWf(c, program, 0);
    var c1 := Next(c, program, 0).cpu;
    NextKeepsWf(c1, program, 1);
    var c2 := Next(c1, program, 1).cpu;
    assert RunN(c2, program, 2, 1) == Run(c2, Done);
    assert RunN(c1, program, 1, 2) == RunN(c2, program, 2, 1);
  }

  function AfterWrite(c: Cpu, a: nat): Cpu
    requires PointsAt(c, a)
  {
    c.(mem := Splice(c.mem, a, Encode(c.regs[9], Width(c.xlen))),
       regs := c.regs[8 := Wrapped(c.xlen, a + Width(c.xlen))])
  }

  lemma WriteProgramRuns(c: Cpu, program: seq<Instr>, a: nat)
    requires PointsAt(c, a) && Begins(program, WriteCode(c.xlen))
    ensures RunN(c, program, 0, 3) == Run(AfterWrite(c, a), Done)
  {
    StoreStep(c, 0, 9, a);
    NextKeepsWf(c, program, 0);
    var c1 := Next(c, program, 0).cpu;
    NextKeepsWf(c1, program, 1);
    var c2 := Next(c1, program, 1).cpu;
    assert RunN(c2, program, 2, 1) == Run(c2, Done);
    assert RunN(c1, program, 1, 2) == RunN(c2, program, 2, 1);
  }

  function Zeros(n: nat): (z: seq<Byte>)
    ensures |z| == n
  {
    seq(n, i => 0)
  }

  lemma {:induction false} EncodeZero(n: nat)
    ensures Encode(0, n) == Zeros(n)
  {
    if n == 0 {
    } else {
      EncodeZero(n - 1);
    }
  }

  // The size of k words in bytes.
  function Extent(xlen: nat, k: nat): nat {
    if xlen == 64 then 8 * k else 4 * k
  }

  // S0 is at a, S1 is k words further on, around the end of the address space.
  ghost predicate AboutToClear(c: Cpu, a: nat, k: nat) {
    && PointsAt(c, a) && k >= 1
    && a + Extent(c.xlen, k) <= |c.mem|
    && c.regs[9] == Wrapped(c.xlen, a + Extent(c.xlen, k))
  }

  function AfterWord(c: Cpu, a: nat): Cpu
    requires PointsAt(c, a)
  {
    c.(mem := Splice(c.mem, a, Zeros(Width(c.xlen))), regs := c.regs[8 := Wrapped(c.xlen, a + Width(c.xlen))])
  }

  lemma StoreAndAdvance(c: Cpu, program: seq<Instr>, a: nat)
    requires PointsAt(c, a) && Begins(program, ClearCode(c.xlen))
    ensures RunN(c, program, 0, 2) == Run(AfterWord(c, a), At(2))
  {
    StoreStep(c, 0, 0, a);
    EncodeZero(Width(c.xlen));
    NextKeepsWf(c, program, 0);
    var c1 := Next(c, program, 0).cpu;
    NextKeepsWf(c1, program, 1);
    var c2 := Next(c1, program, 1).cpu;
    assert c2 == AfterWord(c, a);
    assert RunN(c1, program, 1, 1) == Run(c2, At(2));
  }

  // One turn of the loop.
  lemma ClearWord(c: Cpu, program: seq<Instr>, a: nat)
    requires PointsAt(c, a) && Begins(program, ClearCode(c.xlen))
    ensures RunN(c, program, 0, 3)
         == Run(AfterWord(c, a), At(if AfterWord(c, a).regs[8] == c.regs[9] then 3 else 0))
  {
    StoreAndAdvance(c, program, a);
    RunAdd(c, program, 0, 2, 1);
    var c2 := AfterWord(c, a);
    assert RunN(c2, program, 2, 1) == Run(c2, At(if c2.regs[8] == c2.regs[9] then 3 else 0));
  }

  function AfterClear(c: Cpu, a: nat, k: nat): Cpu
    requires |c.regs| == 32 && a + Extent(c.xlen, k) <= |c.mem|
  {
    c.(mem := Splice(c.mem, a, Zeros(Extent(c.xlen, k))), regs := c.regs[8 := c.regs[9]])
  }

  // S0 meets S1 exactly when the last word is done.
  lemma MeetsAtTheEnd(xlen: nat, a: nat, k: nat)
    requires (xlen == 32 || xlen == 64) && k >= 1 && a + Extent(xlen, k) <= Limit(xlen)
    ensures Wrapped(xlen, a + Width(xlen)) == Wrapped(xlen, a + Extent(xlen, k)) <==> k == 1
    ensures k > 1 ==> Wrapped(xlen, a + Width(xlen)) == a + Width(xlen)
  {
  }

  lemma ClearMeets(c: Cpu, a: nat, k: nat)
    requires AboutToClear(c, a, k)
    ensures AfterWord(c, a).regs[8] == c.regs[9] <==> k == 1
  {
    MeetsAtTheEnd(c.xlen, a, k);
  }

  lemma AfterWordFits(c: Cpu, a: nat) returns (next: Cpu)
    requires PointsAt(c, a)
    ensures next == AfterWord(c, a) && Wf(next) && next.xlen == c.xlen && |next.mem| == |c.mem|
    ensures next.regs[8] == Wrapped(c.xlen, a + Width(c.xlen)) && next.regs[9] == c.regs[9]
  {
    next := AfterWord(c, a);
  }

  lemma ClearContinues(c: Cpu, a: nat, k: nat)
    requires AboutToClear(c, a, k) && k > 1
    ensures AboutToClear(AfterWord(c, a), a + Width(c.xlen), k - 1)
  {
    var next := AfterWordFits(c, a);
    MeetsAtTheEnd(c.xlen, a, k);
    assert a + Width(c.xlen) + Extent(c.xlen, k - 1) == a + Extent(c.xlen, k);
    assert PointsAt(next, a + Width(c.xlen));
  }

  lemma ClearJoins(c: Cpu, a: nat, k: nat)
    requires AboutToClear(c, a, k) && k > 1
    ensures AfterClear(AfterWord(c, a), a + Width(c.xlen), k - 1) == AfterClear(c, a, k)
  {
    var stride := Width(c.xlen);
    var left := Extent(c.xlen, k - 1);
    SpliceTwice(c.mem, a, Zeros(stride), Zeros(left));
    assert Zeros(stride) + Zeros(left) == Zeros(stride + left);
  }

  // One turn with more to come.
  lemma ClearTurn(c: Cpu, program: seq<Instr>, a: nat, k: nat) returns (next: Cpu)
    requires AboutToClear(c, a, k) && k > 1 && Begins(program, ClearCode(c.xlen))
    ensures AboutToClear(next, a + Width(c.xlen), k - 1) && next.xlen == c.xlen
    ensures RunN(c, program, 0, 3 * k + 1) == RunN(next, program, 0, 3 * (k - 1) + 1)
    ensures AfterClear(next, a + Width(c.xlen), k - 1) == AfterClear(c, a, k)
  {
    ClearWord(c, program, a);
    RunAdd(c, program, 0, 3, 3 * (k - 1) + 1);
    ClearMeets(c, a, k);
    ClearContinues(c, a, k);
    ClearJoins(c, a, k);
    next := AfterWord(c, a);
  }

  lemma ClearLastTurn(c: Cpu, program: seq<Instr>, a: nat)
    requires AboutToClear(c, a, 1) && Begins(program, ClearCode(c.xlen))
    ensures RunN(c, program, 0, 4) == Run(AfterClear(c, a, 1), Done)
  {
    ClearWord(c, program, a);
    ClearMeets(c, a, 1);
    RunAdd(c, program, 0, 3, 1);
    var last := AfterWord(c, a);
    assert RunN(last, program, 3, 1) == Run(last, Done);
  }

  // The hand-assembled loop ends, after three instructions a word and the
  // ebreak, with exactly the range zeroed.
  lemma {:induction false} ClearLoop(c: Cpu, program: seq<Instr>, a: nat, k: nat)
    requires AboutToClear(c, a, k) && Begins(program, ClearCode(c.xlen))
    ensures RunN(c, program, 0, 3 * k + 1) == Run(AfterClear(c, a, k), Done)
    decreases k
  {
    if k == 1 {
      ClearLastTurn(c, program, a);
    } else {
      var next := ClearTurn(c, program, a, k);
      ClearLoop(next, program, a + Width(c.xlen), k - 1);
    }
  }
}
