/**
  What the expansions of src/compressed_decoder.sv do when they are executed:
  to the registers, the memory and the program counter, from any state. The
  flag that an instruction was compressed travels with it, so that the branch
  unit of src/branch_unit.sv links and falls through two bytes on, not four.
*/
module CompressedEffect {
  import opened Bits
  import opened Bytes
  import opened ShortForms
  import opened Fields
  import opened Compressed

  // Registers and memory cells that are not listed hold zero.
  type Registers = map<nat, nat>

  type Memory = map<nat, nat>

  datatype State = State(pc: nat, x: Registers, mem: Memory)

  datatype Outcome = Next(s: State) | Breakpoint(pc: nat) | Stuck

  // ---------- Registers and memory ----------

  function Get(s: State, r: nat): (v: nat)
    ensures v < 0x1_0000_0000_0000_0000
  {
    if r == 0 || r !in s.x then 0 else Wrap64(s.x[r])
  }

  function Set(s: State, r: nat, v: nat): State {
    if r == 0 then s else s.(x := s.x[r := v])
  }

  function Wrap64(v: int): (r: nat)
    ensures r < 0x1_0000_0000_0000_0000
  {
    v % 0x1_0000_0000_0000_0000
  }

  // The byte at an address, and the little-endian value of n bytes.
  function ReadBytes(m: Memory, a: nat, n: nat): nat
    decreases n
  {
    if n == 0 then 0 else (if a in m then m[a] % 256 else 0) + 256 * ReadBytes(m, Wrap64(a + 1), n - 1)
  }

  function WriteBytes(m: Memory, a: nat, n: nat, v: nat): Memory
    decreases n
  {
    if n == 0 then m else WriteBytes(m[a := v % 256], Wrap64(a + 1), n - 1, v / 256)
  }

  // The low half of a word, sign-extended to 64 bits.
  function Sext(v: nat): nat {
    var low := v % 0x1_0000_0000;
    if low < 0x8000_0000 then low else low + 0xffff_ffff_0000_0000
  }

  // A base register plus an offset.
  function Address(s: State, base: nat, offset: nat): nat {
    Wrap64(Get(s, base) + Sext(offset))
  }

  // A loaded word is sign-extended, a doubleword fills the register.
  function Loaded(m: Memory, a: nat, size: nat): nat {
    var v := ReadBytes(m, a, size);
    if size == 4 then Sext(v) else v
  }

  // Shifts by n places; to the right, `fill` is what comes in at the top.
  function ShiftLeft(a: nat, n: nat): nat
    decreases n
  {
    if n == 0 then a else ShiftLeft(Wrap64(2 * a), n - 1)
  }

  function ShiftRight(a: nat, n: nat, fill: nat): nat
    decreases n
  {
    if n == 0 then a else ShiftRight(a / 2 + fill, n - 1, fill)
  }

  function SignBit(a: nat): nat {
    if a < 0x8000_0000_0000_0000 then 0 else 0x8000_0000_0000_0000
  }

  function Bitwise(f: AluOp, a: nat, b: nat): nat
    decreases a + b
  {
    if a == 0 && b == 0 then 0
    else
      var bit: bool := match f
        case And => a % 2 == 1 && b % 2 == 1
        case Or => a % 2 == 1 || b % 2 == 1
        case _ => a % 2 != b % 2;
      (if bit then 1 else 0) + 2 * Bitwise(f, a / 2, b / 2)
  }

  function Alu(f: AluOp, narrow: bool, a: nat, b: nat): nat {
    var r := match f
      case Add => Wrap64(a + b)
      case Sub => Wrap64(a - b)
      case Sll => ShiftLeft(a, b % 64)
      case Srl => ShiftRight(a, b % 64, 0)
      case Sra => ShiftRight(a, b % 64, SignBit(a))
      case _ => Bitwise(f, a, b);
    if narrow then Sext(r) else r
  }

  // ---------- Executing a 32-bit instruction ----------

  function MoveOn(s: State, length: nat): Outcome {
    Next(s.(pc := Wrap64(s.pc + length)))
  }

  function JumpTo(s: State, target: nat): Outcome {
    Next(s.(pc := target))
  }

  // Addresses in a register have their lowest bit cleared before a jump.
  function Even(a: nat): nat {
    a - a % 2
  }

  function Execute(op: Op<nat>, compressed: bool, s: State): Outcome {
    var length := if compressed then 2 else 4;
    match op
    case Immediate(f, narrow, rd, rs1, imm) => MoveOn(Set(s, rd, Alu(f, narrow, Get(s, rs1), Sext(imm))), length)
    case Register(f, narrow, rd, rs1, rs2) => MoveOn(Set(s, rd, Alu(f, narrow, Get(s, rs1), Get(s, rs2))), length)
    case Lui(rd, imm) => MoveOn(Set(s, rd, Sext(imm)), length)
    case Load(size, rd, base, imm) => MoveOn(Set(s, rd, Loaded(s.mem, Address(s, base, imm), size)), length)
    case Store(size, src, base, imm) =>
      MoveOn(s.(mem := WriteBytes(s.mem, Address(s, base, imm), size, Get(s, src))), length)
    case Jal(rd, offset) => JumpTo(Set(s, rd, Wrap64(s.pc + length)), Wrap64(s.pc + Sext(offset)))
    case Jalr(rd, base, imm) => JumpTo(Set(s, rd, Wrap64(s.pc + length)), Even(Address(s, base, imm)))
    case Branch(ne, rs1, rs2, offset) =>
      if (Get(s, rs1) != Get(s, rs2)) == ne then JumpTo(s, Wrap64(s.pc + Sext(offset))) else MoveOn(s, length)
    case Ebreak => Breakpoint(s.pc)
    case Unknown => Stuck
  }

  // ---------- What chapter 12 says each instruction does ----------

  // Sections 12.3 to 12.5. Constants are generated and registers copied without
  // an addition, a jump that does not link writes nothing, and one that does
  // leaves the address of the following instruction, two bytes on, in x1.
  function Effect(i: Short<nat>, s: State): Outcome {
    match i
    case CAddi4spn(rd, imm) => MoveOn(Set(s, rd, Wrap64(Get(s, 2) + Sext(imm))), 2)
    case CLoad(size, rd, base, offset) => MoveOn(Set(s, rd, Loaded(s.mem, Address(s, base, offset), size)), 2)
    case CStore(size, src, base, offset) =>
      MoveOn(s.(mem := WriteBytes(s.mem, Address(s, base, offset), size, Get(s, src))), 2)
    case CAddi(rd, imm) => MoveOn(Set(s, rd, Wrap64(Get(s, rd) + Sext(imm))), 2)
    case CAddiw(rd, imm) => MoveOn(Set(s, rd, Sext(Wrap64(Get(s, rd) + Sext(imm)))), 2)
    case CLi(rd, imm) => MoveOn(Set(s, rd, Sext(imm)), 2)
    case CLui(rd, imm) => MoveOn(Set(s, rd, Sext(imm)), 2)
    case CAddi16sp(imm) => MoveOn(Set(s, 2, Wrap64(Get(s, 2) + Sext(imm))), 2)
    case CSlli(rd, shamt) => MoveOn(Set(s, rd, ShiftLeft(Get(s, rd), Sext(shamt) % 64)), 2)
    case CSrli(rd, shamt) => MoveOn(Set(s, rd, ShiftRight(Get(s, rd), Sext(shamt) % 64, 0)), 2)
    case CSrai(rd, shamt) => MoveOn(Set(s, rd, ShiftRight(Get(s, rd), Sext(shamt) % 64, SignBit(Get(s, rd)))), 2)
    case CAndi(rd, imm) => MoveOn(Set(s, rd, Bitwise(And, Get(s, rd), Sext(imm))), 2)
    case CAlu(f, narrow, rd, rs2) => MoveOn(Set(s, rd, Alu(f, narrow, Get(s, rd), Get(s, rs2))), 2)
    case CMv(rd, rs2) => MoveOn(Set(s, rd, Get(s, rs2)), 2)
    case CAdd(rd, rs2) => MoveOn(Set(s, rd, Wrap64(Get(s, rd) + Get(s, rs2))), 2)
    case CJ(offset) => JumpTo(s, Wrap64(s.pc + Sext(offset)))
    case CJr(rs1) => JumpTo(s, Even(Get(s, rs1)))
    case CJalr(rs1) => JumpTo(Set(s, 1, Wrap64(s.pc + 2)), Even(Get(s, rs1)))
    case CBeqz(rs1, offset) => if Get(s, rs1) == 0 then JumpTo(s, Wrap64(s.pc + Sext(offset))) else MoveOn(s, 2)
    case CBnez(rs1, offset) => if Get(s, rs1) != 0 then JumpTo(s, Wrap64(s.pc + Sext(offset))) else MoveOn(s, 2)
    case CEbreak => Breakpoint(s.pc)
    case NotDefined => Stuck
  }

  // ---------- Execution of the expansion has that effect ----------

  lemma ZeroHasNoEffect(a: nat)
    requires a < 0x1_0000_0000_0000_0000
    ensures Wrap64(0 + a) == a && Wrap64(a + Sext(0)) == a
  {
  }

  lemma ZeroOffset(s: State, base: nat)
    ensures Address(s, base, 0) == Get(s, base)
  {
    ZeroHasNoEffect(Get(s, base));
  }

  lemma SextFits(v: nat)
    ensures Sext(v) < 0x1_0000_0000_0000_0000
  {
  }

  lemma LongHasTheEffect(i: Short<nat>, s: State)
    ensures Execute(Long(i, 0, 1, 2), true, s) == Effect(i, s)
  {
    match i
    case CLi(rd, imm) => LiEffect(rd, imm, s);
    case CMv(rd, rs2) => MvEffect(rd, rs2, s);
    case CJr(rs1) => JrEffect(rs1, s);
    case CJalr(rs1) => JalrEffect(rs1, s);
    case CJ(offset) =>
    case CBeqz(rs1, offset) =>
    case CBnez(rs1, offset) =>
    case _ => ComputesTheSame(i, s);
  }

  // Adding to the zero register is what chapter 12 leaves out.
  lemma LiEffect(rd: nat, imm: nat, s: State)
    ensures Execute(Long(CLi(rd, imm), 0, 1, 2), true, s) == Effect(CLi(rd, imm), s)
  {
    SextFits(imm);
    ZeroHasNoEffect(Sext(imm));
  }

  lemma MvEffect(rd: nat, rs2: nat, s: State)
    ensures Execute(Long(CMv(rd, rs2), 0, 1, 2), true, s) == Effect(CMv(rd, rs2), s)
  {
    ZeroHasNoEffect(Get(s, rs2));
  }

  lemma JrEffect(rs1: nat, s: State)
    ensures Execute(Long(CJr(rs1), 0, 1, 2), true, s) == Effect(CJr(rs1), s)
  {
    ZeroOffset(s, rs1);
  }

  lemma JalrEffect(rs1: nat, s: State)
    ensures Execute(Long(CJalr(rs1), 0, 1, 2), true, s) == Effect(CJalr(rs1), s)
  {
    ZeroOffset(s, rs1);
  }

  lemma ComputesTheSame(i: Short<nat>, s: State)
    requires !i.CLi? && !i.CMv? && !i.CJ? && !i.CJr? && !i.CJalr? && !i.CBeqz? && !i.CBnez?
    ensures Execute(Long(i, 0, 1, 2), true, s) == Effect(i, s)
  {
  }

  // The fields of the decoded words, as numbers.
  function OpNumbers(op: Op<Word>): Op<nat> {
    match op
    case Immediate(f, narrow, rd, rs1, imm) => Immediate(f, narrow, rd as nat, rs1 as nat, imm as nat)
    case Register(f, narrow, rd, rs1, rs2) => Register(f, narrow, rd as nat, rs1 as nat, rs2 as nat)
    case Lui(rd, imm) => Lui(rd as nat, imm as nat)
    case Load(size, rd, base, imm) => Load(size, rd as nat, base as nat, imm as nat)
    case Store(size, src, base, imm) => Store(size, src as nat, base as nat, imm as nat)
    case Jal(rd, offset) => Jal(rd as nat, offset as nat)
    case Jalr(rd, base, imm) => Jalr(rd as nat, base as nat, imm as nat)
    case Branch(ne, rs1, rs2, offset) => Branch(ne, rs1 as nat, rs2 as nat, offset as nat)
    case Ebreak => Ebreak
    case Unknown => Unknown
  }

  function ShortNumbers(i: Short<Word>): Short<nat> {
    match i
    case CAddi4spn(rd, imm) => CAddi4spn(rd as nat, imm as nat)
    case CLoad(size, rd, base, offset) => CLoad(size, rd as nat, base as nat, offset as nat)
    case CStore(size, src, base, offset) => CStore(size, src as nat, base as nat, offset as nat)
    case CAddi(rd, imm) => CAddi(rd as nat, imm as nat)
    case CAddiw(rd, imm) => CAddiw(rd as nat, imm as nat)
    case CLi(rd, imm) => CLi(rd as nat, imm as nat)
    case CLui(rd, imm) => CLui(rd as nat, imm as nat)
    case CAddi16sp(imm) => CAddi16sp(imm as nat)
    case CSlli(rd, shamt) => CSlli(rd as nat, shamt as nat)
    case CSrli(rd, shamt) => CSrli(rd as nat, shamt as nat)
    case CSrai(rd, shamt) => CSrai(rd as nat, shamt as nat)
    case CAndi(rd, imm) => CAndi(rd as nat, imm as nat)
    case CAlu(f, narrow, rd, rs2) => CAlu(f, narrow, rd as nat, rs2 as nat)
    case CMv(rd, rs2) => CMv(rd as nat, rs2 as nat)
    case CAdd(rd, rs2) => CAdd(rd as nat, rs2 as nat)
    case CJ(offset) => CJ(offset as nat)
    case CJr(rs1) => CJr(rs1 as nat)
    case CJalr(rs1) => CJalr(rs1 as nat)
    case CBeqz(rs1, offset) => CBeqz(rs1 as nat, offset as nat)
    case CBnez(rs1, offset) => CBnez(rs1 as nat, offset as nat)
    case CEbreak => CEbreak
    case NotDefined => NotDefined
  }

  lemma NumbersOfLong(i: Short<Word>, zero: Word, ra: Word, sp: Word)
    ensures OpNumbers(Long(i, zero, ra, sp)) == Long(ShortNumbers(i), zero as nat, ra as nat, sp as nat)
  {
    if NamesTwo(i) {
      NumbersOfTwo(i, zero, ra, sp);
    } else {
      NumbersOfOne(i, zero, ra, sp);
    }
  }

  // Forms with two registers, and jumps.
  predicate NamesTwo(i: Short<Word>) {
    || i.CLoad? || i.CStore? || i.CAlu? || i.CAdd? || i.CMv?
    || i.CJ? || i.CJr? || i.CJalr? || i.CBeqz? || i.CBnez?
  }

  lemma NumbersOfTwo(i: Short<Word>, zero: Word, ra: Word, sp: Word)
    requires NamesTwo(i)
    ensures OpNumbers(Long(i, zero, ra, sp)) == Long(ShortNumbers(i), zero as nat, ra as nat, sp as nat)
  {
  }

  lemma NumbersOfOne(i: Short<Word>, zero: Word, ra: Word, sp: Word)
    requires !NamesTwo(i)
    ensures OpNumbers(Long(i, zero, ra, sp)) == Long(ShortNumbers(i), zero as nat, ra as nat, sp as nat)
  {
  }

  lemma SmallNumbers()
    ensures (0 as Word) as nat == 0 && (1 as Word) as nat == 1 && (2 as Word) as nat == 2
  {
  }

  // For every integer encoding the decoder does not flag, from every state of
  // registers, memory and pc: executing the 32-bit expansion, with the flag that
  // goes with it, does what chapter 12 says the encoding does.
  lemma ExpansionHasTheEffect(c: Word, s: State)
    requires !FloatingPoint(c) && Expand(c).Expanded?
    ensures IsCompressed(c) && Read(c) != NotDefined
    ensures Execute(OpNumbers(Decode(Expand(c).word)), IsCompressed(c), s) == Effect(ShortNumbers(Read(c)), s)
  {
    ExpansionMeansTheSame(c);
    ExpandedIsDefined(c);
    NumbersOfLong(Read(c), 0, 1, 2);
    SmallNumbers();
    LongHasTheEffect(ShortNumbers(Read(c)), s);
  }

  lemma ExpandedIsDefined(c: Word)
    requires !FloatingPoint(c) && Expand(c).Expanded?
    ensures IsCompressed(c) && Read(c) != NotDefined
  {
  }

  // The flag matters: without it the linking jump leaves the wrong address.
  lemma LinkNeedsTheFlag(rs1: nat, s: State)
    ensures Execute(Long(CJalr(rs1), 0, 1, 2), false, s) != Effect(CJalr(rs1), s)
  {
    var wrong, right := Execute(Long(CJalr(rs1), 0, 1, 2), false, s), Effect(CJalr(rs1), s);
    assert wrong.s.x[1] == Wrap64(s.pc + 4) && right.s.x[1] == Wrap64(s.pc + 2);
    TwoApart(s.pc);
  }

  lemma TwoApart(pc: nat)
    ensures Wrap64(pc + 4) != Wrap64(pc + 2)
  {
  }

  // ---------- What the operations compute ----------

  // The definitions execution and effect have in common, against what the ISA
  // says about memory, logic and shifts.

  function Bit(x: nat, k: nat): bool
    decreases k
  {
    if k == 0 then x % 2 == 1 else Bit(x / 2, k - 1)
  }

  lemma {:induction false} BitwiseAt(f: AluOp, a: nat, b: nat, k: nat)
    requires f in {And, Or, Xor}
    ensures Bit(Bitwise(f, a, b), k) ==
      match f
      case And => Bit(a, k) && Bit(b, k)
      case Or => Bit(a, k) || Bit(b, k)
      case _ => Bit(a, k) != Bit(b, k)
    decreases k
  {
    if k == 0 {
    } else {
      BitwiseAt(f, a / 2, b / 2, k - 1);
    }
  }

  lemma {:induction false} BitwiseFits(f: AluOp, a: nat, b: nat, n: nat)
    requires a < Pow2(n) && b < Pow2(n)
    ensures Bitwise(f, a, b) < Pow2(n)
    decreases n
  {
    if n == 0 {
    } else {
      BitwiseFits(f, a / 2, b / 2, n - 1);
    }
  }

  lemma {:induction false} ShiftLeftMultiplies(a: nat, n: nat)
    requires a < 0x1_0000_0000_0000_0000
    ensures ShiftLeft(a, n) == Wrap64(a * Pow2(n))
    decreases n
  {
    if n == 0 {
    } else {
      ShiftLeftMultiplies(Wrap64(2 * a), n - 1);
      WrapTwice(2 * a, Pow2(n - 1));
      DoubleProduct(a, Pow2(n - 1));
    }
  }

  lemma DoubleProduct(a: nat, k: nat)
    ensures (2 * a) * k == a * (2 * k)
  {
  }

  lemma WrapTwice(x: nat, k: nat)
    ensures Wrap64(Wrap64(x) * k) == Wrap64(x * k)
  {
    var m := 0x1_0000_0000_0000_0000;
    assert x * k == Wrap64(x) * k + ((x / m) * k) * m by {
      assert x == Wrap64(x) + (x / m) * m;
      assert (Wrap64(x) + (x / m) * m) * k == Wrap64(x) * k + ((x / m) * m) * k;
    }
    ModShift(Wrap64(x) * k, (x / m) * k, m);
  }

  // A logical shift divides the number, an arithmetic one the signed number,
  // rounding down. `x` is the number the word stands for.
  lemma {:induction false} ShiftRightDivides(a: nat, n: nat, fill: nat, x: int)
    requires a < 0x1_0000_0000_0000_0000
    requires (fill == 0 && x == a) || (fill == SignBit(a) != 0 && x == a - 0x1_0000_0000_0000_0000)
    ensures ShiftRight(a, n, fill) == Wrap64(x / Pow2(n))
    decreases n
  {
    if n == 0 {
    } else {
      ShiftRightDivides(a / 2 + fill, n - 1, fill, x / 2);
      DivideTwice(x, Pow2(n - 1));
    }
  }

  lemma DivideTwice(x: int, k: nat)
    requires k >= 1
    ensures (x / 2) / k == x / (2 * k)
  {
    var q, r := x / 2, x % 2;
    var q', r' := q / k, q % k;
    assert x == q' * (2 * k) + (2 * r' + r) by {
      assert q == q' * k + r' && 2 * (q' * k) == q' * (2 * k);
    }
    DivModUnique(x, 2 * k, q', 2 * r' + r);
  }

  // What is stored is loaded again, as long as the addresses do not wrap around.
  lemma {:induction false} LoadReturnsStore(m: Memory, a: nat, n: nat, v: nat)
    requires a + n <= 0x1_0000_0000_0000_0000
    ensures ReadBytes(WriteBytes(m, a, n, v), a, n) == v % Span(n)
    decreases n
  {
    if n == 0 {
    } else {
      var first := m[a := v % 256];
      LoadReturnsStore(first, if n == 1 then 0 else a + 1, n - 1, v / 256);
      FirstByteStays(m, a, n, v);
      LowByteFirst(v, Span(n - 1));
    }
  }

  lemma FirstByteStays(m: Memory, a: nat, n: nat, v: nat)
    requires n > 0 && a + n <= 0x1_0000_0000_0000_0000
    ensures var w, next := WriteBytes(m, a, n, v), if n == 1 then 0 else a + 1;
      && w == WriteBytes(m[a := v % 256], next, n - 1, v / 256)
      && ReadBytes(w, a, n) == v % 256 + 256 * ReadBytes(w, next, n - 1)
  {
    if n > 1 {
      StoresAbove(m[a := v % 256], a + 1, n - 1, v / 256, a);
    }
  }

  lemma {:induction false} StoresAbove(m: Memory, a: nat, n: nat, v: nat, k: nat)
    requires k < a && a + n <= 0x1_0000_0000_0000_0000 && k in m
    ensures k in WriteBytes(m, a, n, v) && WriteBytes(m, a, n, v)[k] == m[k]
    decreases n
  {
    if n <= 1 {
    } else {
      StoresAbove(m[a := v % 256], a + 1, n - 1, v / 256, k);
    }
  }

  // A compressed load gets what a compressed store of that size has put at the
  // address, a word of it sign-extended.
  lemma StoreThenLoad(size: nat, src: nat, base: nat, offset: nat, rd: nat, s: State)
    returns (stored: State, loaded: State)
    requires size in {4, 8} && rd != 0 && Address(s, base, offset) + size <= 0x1_0000_0000_0000_0000
    ensures Effect(CStore(size, src, base, offset), s) == Next(stored)
    ensures Effect(CLoad(size, rd, base, offset), stored) == Next(loaded)
    ensures Get(loaded, rd) == if size == 4 then Sext(Get(s, src)) else Get(s, src)
  {
    var a, v := Address(s, base, offset), Get(s, src);
    stored := StoreEffect(size, src, base, offset, s, a, v);
    StoredIsLoaded(s.mem, a, size, v);
    loaded := LoadEffect(size, rd, base, offset, stored, a, if size == 4 then Sext(v) else v);
  }

  lemma StoredIsLoaded(m: Memory, a: nat, size: nat, v: nat)
    requires size in {4, 8} && a + size <= 0x1_0000_0000_0000_0000 && v < 0x1_0000_0000_0000_0000
    ensures Loaded(WriteBytes(m, a, size, v), a, size) == if size == 4 then Sext(v) else v
    ensures (if size == 4 then Sext(v) else v) < 0x1_0000_0000_0000_0000
  {
    LoadReturnsStore(m, a, size, v);
    LowBytes(size, v);
    LoadedValue(WriteBytes(m, a, size, v), a, size, v);
    SextFits(v);
  }

  lemma StoreEffect(size: nat, src: nat, base: nat, offset: nat, s: State, a: nat, v: nat) returns (stored: State)
    requires a == Address(s, base, offset) && v == Get(s, src)
    ensures Effect(CStore(size, src, base, offset), s) == Next(stored)
    ensures stored.mem == WriteBytes(s.mem, a, size, v) && Address(stored, base, offset) == a
  {
    stored := s.(mem := WriteBytes(s.mem, a, size, v), pc := Wrap64(s.pc + 2));
  }

  lemma LoadEffect(size: nat, rd: nat, base: nat, offset: nat, s: State, a: nat, v: nat) returns (loaded: State)
    requires rd != 0 && a == Address(s, base, offset) && Loaded(s.mem, a, size) == v < 0x1_0000_0000_0000_0000
    ensures Effect(CLoad(size, rd, base, offset), s) == Next(loaded) && Get(loaded, rd) == v
  {
    GetAfterSet(s, rd, v);
    loaded := Set(s, rd, v).(pc := Wrap64(s.pc + 2));
  }

  lemma LowBytes(size: nat, v: nat)
    requires size in {4, 8} && v < 0x1_0000_0000_0000_0000
    ensures v % Span(size) == if size == 4 then v % 0x1_0000_0000 else v
  {
    SpanOfWords();
  }

  lemma LoadedValue(m: Memory, a: nat, size: nat, v: nat)
    requires size in {4, 8} && ReadBytes(m, a, size) == if size == 4 then v % 0x1_0000_0000 else v
    ensures Loaded(m, a, size) == if size == 4 then Sext(v) else v
  {
    SextOfLow(v);
  }

  lemma GetAfterSet(s: State, rd: nat, v: nat)
    requires rd != 0
    ensures Get(Set(s, rd, v), rd) == Wrap64(v)
    ensures v < 0x1_0000_0000_0000_0000 ==> Get(Set(s, rd, v), rd) == v
  {
  }

  lemma SextOfLow(v: nat)
    ensures Sext(v % 0x1_0000_0000) == Sext(v)
  {
  }

  // Every bit of the result of c.and, c.or and c.xor comes from the bits of the
  // two operands at its place.
  lemma LogicIsBitwise(f: AluOp, rd: nat, rs2: nat, s: State, k: nat)
    requires f in {And, Or, Xor} && rd != 0
    ensures var done := Effect(CAlu(f, false, rd, rs2), s);
      done.Next? && Bit(Get(done.s, rd), k) ==
        match f
        case And => Bit(Get(s, rd), k) && Bit(Get(s, rs2), k)
        case Or => Bit(Get(s, rd), k) || Bit(Get(s, rs2), k)
        case _ => Bit(Get(s, rd), k) != Bit(Get(s, rs2), k)
  {
    var a, b := Get(s, rd), Get(s, rs2);
    BitwiseAt(f, a, b, k);
    BitwiseIsAWord(f, a, b);
    assert Get(Effect(CAlu(f, false, rd, rs2), s).s, rd) == Bitwise(f, a, b);
  }

  lemma BitwiseIsAWord(f: AluOp, a: nat, b: nat)
    requires a < 0x1_0000_0000_0000_0000 && b < 0x1_0000_0000_0000_0000
    ensures Bitwise(f, a, b) < 0x1_0000_0000_0000_0000
  {
    var width := 64;
    PowOfWidth(width);
    BitwiseFits(f, a, b, width);
  }

  lemma PowOfWidth(n: nat)
    requires n == 64
    ensures Pow2(n) == 0x1_0000_0000_0000_0000
  {
    PowOfQuarter(n / 4);
    Pow2Add(n / 4, n / 4);
    Pow2Add(n / 2, n / 2);
  }

  lemma PowOfQuarter(n: nat)
    requires n == 16
    ensures Pow2(n) == 0x1_0000
  {
    assert Pow2(n / 8) == 4;
    Pow2Add(n / 8, n / 8);
    Pow2Add(n / 4, n / 4);
    Pow2Add(n / 2, n / 2);
  }

  // The number a register stands for in two's complement.
  function SignedValue(a: nat): int {
    if a < 0x8000_0000_0000_0000 then a else a - 0x1_0000_0000_0000_0000
  }

  // The three shifts by a constant, on the number or the signed number.
  lemma ShiftsScale(rd: nat, shamt: nat, s: State)
    requires rd != 0 && shamt < 64
    ensures var a := Get(s, rd);
      var left, right, signed := Effect(CSlli(rd, shamt), s), Effect(CSrli(rd, shamt), s), Effect(CSrai(rd, shamt), s);
      && left.Next? && Get(left.s, rd) == Wrap64(a * Pow2(shamt))
      && right.Next? && Get(right.s, rd) == Wrap64(a / Pow2(shamt))
      && signed.Next? && Get(signed.s, rd) == Wrap64(SignedValue(a) / Pow2(shamt))
  {
    var a := Get(s, rd);
    SmallSext(shamt);
    ShiftLeftMultiplies(a, shamt);
    GetAfterSet(s, rd, ShiftLeft(a, shamt));
    ShiftRightDivides(a, shamt, 0, a);
    GetAfterSet(s, rd, ShiftRight(a, shamt, 0));
    ShiftRightDivides(a, shamt, SignBit(a), SignedValue(a));
    GetAfterSet(s, rd, ShiftRight(a, shamt, SignBit(a)));
  }

  lemma SmallSext(shamt: nat)
    requires shamt < 64
    ensures Sext(shamt) % 64 == shamt
  {
  }
}
