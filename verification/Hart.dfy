/**
  A hart in debug mode running the program buffer: registers, memory, and the
  five instructions the host's programs are made of, as chapters 2 and 4 of the
  RISC-V User-Level ISA v2.2 define them.
*/
module Hart {
  import opened Fields
  import opened Encoding
  import opened Bytes

  datatype Cpu = Cpu(xlen: nat, regs: seq<nat>, mem: seq<Byte>)

  // Where a program is: about to execute a word, at its ebreak, or in an
  // exception.
  datatype Progress = At(pc: nat) | Done | Trapped

  datatype Run = Run(cpu: Cpu, progress: Progress)

  function Limit(xlen: nat): nat {
    if xlen == 64 then 0x1_0000_0000_0000_0000 else 0x1_0000_0000
  }

  // Register 0 reads as zero; every register fits.
  ghost predicate RegsFit(regs: seq<nat>, limit: nat) {
    |regs| == 32 && regs[0] == 0 && forall i :: 0 <= i < 32 ==> regs[i] < limit
  }

  ghost predicate Wf(c: Cpu) {
    (c.xlen == 32 || c.xlen == 64) && RegsFit(c.regs, Limit(c.xlen)) && |c.mem| <= Limit(c.xlen)
  }

  // Register width in bytes.
  function Width(xlen: nat): (w: nat)
    ensures xlen == 32 || xlen == 64 ==> w == xlen / 8
  {
    if xlen == 64 then 8 else 4
  }

  predicate Aligned(xlen: nat, a: nat) {
    if xlen == 64 then a % 8 == 0 else a % 4 == 0
  }

  function SetReg(c: Cpu, r: Reg, v: nat): Cpu
    requires |c.regs| == 32
  {
    if r == 0 then c else c.(regs := c.regs[r := v])
  }

  // A sum of a register and an immediate, around the end of the register.
  function Wrapped(xlen: nat, x: int): (r: nat)
    requires -4096 <= x < Limit(xlen) + 4096
    ensures r < Limit(xlen)
  {
    if x < 0 then x + Limit(xlen) else if x >= Limit(xlen) then x - Limit(xlen) else x
  }

  function Address(c: Cpu, base: Reg, imm: Imm): nat
    requires Wf(c)
  {
    Wrapped(c.xlen, c.regs[base] + imm)
  }

  // A misaligned access, and one outside memory, raises an exception.
  predicate Accessible(c: Cpu, width: nat, a: nat) {
    0 < width <= Width(c.xlen) && Aligned(8 * width, a) && a + width <= |c.mem|
  }

  // Loads narrower than the register are sign-extended.
  function Loaded(xlen: nat, bs: seq<Byte>): nat {
    var v := Value(bs);
    if |bs| == 4 && xlen == 64 && v >= 0x8000_0000 then v + 0xffff_ffff_0000_0000 else v
  }

  function Perform(c: Cpu, pc: nat, i: Instr): Run
    requires Wf(c)
  {
    match i
    case Ebreak => Run(c, Done)
    case Load(width, rd, base, imm) =>
      var a := Address(c, base, imm);
      if Accessible(c, width, a) then Run(SetReg(c, rd, Loaded(c.xlen, c.mem[a..a + width])), At(pc + 1))
      else Run(c, Trapped)
    case Store(width, src, base, imm) =>
      var a := Address(c, base, imm);
      if Accessible(c, width, a)
      then Run(c.(mem := Splice(c.mem, a, Encode(c.regs[src], width))), At(pc + 1))
      else Run(c, Trapped)
    case Addi(rd, src, imm) => Run(SetReg(c, rd, Address(c, src, imm)), At(pc + 1))
    case Bne(r1, r2, offset) =>
      var there := 4 * pc + offset;
      if c.regs[r1] == c.regs[r2] then Run(c, At(pc + 1))
      else if there >= 0 && there % 4 == 0 then Run(c, At(there / 4))
      else Run(c, Trapped)
    case Unknown => Run(c, Trapped)
  }

  // The instructions in the program buffer.
  function Decoded(words: seq<Word>): (program: seq<Instr>)
    ensures |program| == |words| && ValidCode(program)
  {
    seq(|words|, i requires 0 <= i < |words| => Decode(words[i]))
  }

  predicate ValidCode(program: seq<Instr>) {
    forall i <- program :: i.Load? || i.Store? ==> i.width == 4 || i.width == 8
  }

  // One step of a program. Running off the end of the buffer traps.
  function Next(c: Cpu, program: seq<Instr>, pc: nat): Run
    requires Wf(c)
  {
    if pc >= |program| then Run(c, Trapped) else Perform(c, pc, program[pc])
  }

  lemma LoadedFits(xlen: nat, bs: seq<Byte>)
    requires xlen == 32 || xlen == 64
    requires |bs| == 4 || (|bs| == 8 && xlen == 64)
    ensures Loaded(xlen, bs) < Limit(xlen)
  {
    ValueBelow(bs);
    SpanOfWords();
  }

  lemma NextKeepsWf(c: Cpu, program: seq<Instr>, pc: nat)
    requires Wf(c) && ValidCode(program)
    ensures Wf(Next(c, program, pc).cpu)
    ensures Next(c, program, pc).cpu.xlen == c.xlen && |Next(c, program, pc).cpu.mem| == |c.mem|
  {
    if pc < |program| {
      match program[pc]
      case Load(width, rd, base, imm) =>
        var a := Address(c, base, imm);
        if Accessible(c, width, a) {
          LoadedFits(c.xlen, c.mem[a..a + width]);
        }
      case _ =>
    }
  }

  function RunN(c: Cpu, program: seq<Instr>, pc: nat, n: nat): (r: Run)
    requires Wf(c) && ValidCode(program)
    ensures Wf(r.cpu)
    decreases n
  {
    if n == 0 then Run(c, At(pc))
    else
      NextKeepsWf(c, program, pc);
      var r := Next(c, program, pc);
      if r.progress.At? then RunN(r.cpu, program, r.progress.pc, n - 1) else r
  }

  lemma {:induction false} RunKeepsShape(c: Cpu, program: seq<Instr>, pc: nat, n: nat)
    requires Wf(c) && ValidCode(program)
    ensures RunN(c, program, pc, n).cpu.xlen == c.xlen && |RunN(c, program, pc, n).cpu.mem| == |c.mem|
    decreases n
  {
    if n == 0 {
    } else {
      NextKeepsWf(c, program, pc);
      var r := Next(c, program, pc);
      if r.progress.At? {
        RunKeepsShape(r.cpu, program, r.progress.pc, n - 1);
      }
    }
  }

  function Continue(r: Run, program: seq<Instr>, n: nat): Run
    requires Wf(r.cpu) && ValidCode(program)
  {
    if r.progress.At? then RunN(r.cpu, program, r.progress.pc, n) else r
  }

  lemma {:induction false} RunAdd(c: Cpu, program: seq<Instr>, pc: nat, m: nat, n: nat)
    requires Wf(c) && ValidCode(program)
    ensures RunN(c, program, pc, m + n) == Continue(RunN(c, program, pc, m), program, n)
    decreases m
  {
    if m == 0 {
      assert RunN(c, program, pc, 0) == Run(c, At(pc));
    } else {
      NextKeepsWf(c, program, pc);
      var r := Next(c, program, pc);
      if r.progress.At? {
        RunAdd(r.cpu, program, r.progress.pc, m - 1, n);
      }
    }
  }
}
