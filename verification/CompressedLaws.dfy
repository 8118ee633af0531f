/**
  What the expansion of a compressed encoding does when it is executed, stated
  from the bits of the encoding: which register, by which signed number, which
  address, which bytes, and where the pc goes. These laws name neither the decoded
  fields nor the effects of chapter 12 of modules Compressed and CompressedEffect.
*/
module CompressedLaws {
  import opened Bits
  import opened Bytes
  import opened Fields
  import opened ShortForms
  import opened Compressed
  import opened CompressedEffect

  const TWO32: int := 0x1_0000_0000
  const TWO64: int := 0x1_0000_0000_0000_0000

  // The expansion, executed with its flag.
  function Ran(c: Word, s: State): Outcome
    requires !FloatingPoint(c) && Expand(c).Expanded?
  {
    Execute(OpNumbers(Decode(Expand(c).word)), IsCompressed(c), s)
  }

  // ---------- Numbers in an encoding ----------

  // One bit of the encoding, as a number.
  function At(c: Word, mask: Word): nat {
    if c & mask == 0 then 0 else 1
  }

  // Bits 11 to 7, and bits 6 to 2.
  function Bits11(c: Word): nat {
    16 * At(c, 0x800) + 8 * At(c, 0x400) + 4 * At(c, 0x200) + 2 * At(c, 0x100) + At(c, 0x80)
  }

  function Bits6(c: Word): nat {
    16 * At(c, 0x40) + 8 * At(c, 0x20) + 4 * At(c, 0x10) + 2 * At(c, 8) + At(c, 4)
  }

  // The registers x8 to x15 that bits 9 to 7 and bits 4 to 2 name.
  function Bits9(c: Word): nat {
    8 + 4 * At(c, 0x200) + 2 * At(c, 0x100) + At(c, 0x80)
  }

  function Bits4(c: Word): nat {
    8 + 4 * At(c, 0x10) + 2 * At(c, 8) + At(c, 4)
  }

  // The signed six-bit constant.
  function Constant(c: Word): (i: int)
    ensures -32 <= i <= 31
  {
    Bits6(c) - 32 * At(c, 0x1000)
  }

  lemma RdNumber(c: Word)
    ensures FullRd(c) as nat == Bits11(c)
  {
  }

  lemma Rs2Number(c: Word)
    ensures FullRs2(c) as nat == Bits6(c)
  {
  }

  lemma HighNumber(c: Word)
    ensures High(c) as nat == Bits9(c)
  {
  }

  lemma LowNumber(c: Word)
    ensures Low(c) as nat == Bits4(c)
  {
  }

  // A 32-bit field v stands for the signed number i.
  predicate StandsFor(v: nat, i: int) {
    -0x8000_0000 <= i < 0x8000_0000 && v == if i < 0 then i + TWO32 else i
  }

  lemma ConstantStands(c: Word)
    ensures StandsFor(ImmCI(c) as nat, Constant(c))
  {
  }

  // The extended field is the number, modulo 2^64.
  lemma ExtendedField(x: int, v: nat, i: int)
    requires StandsFor(v, i)
    ensures Wrap64(x + Sext(v)) == (x + i) % TWO64 && Sext(v) == i % TWO64
  {
    if i < 0 {
      ModShift(x + i, 1, TWO64);
    }
  }

  // ---------- Outcomes ----------

  // The state s, but for register rd, which holds v, and the pc.
  ghost predicate Leaves(o: Outcome, s: State, rd: nat, v: int, pc: int) {
    && o.Next? && o.s.mem == s.mem && o.s.pc == pc % TWO64
    && forall r :: Get(o.s, r) == if r == rd && rd != 0 then v else Get(s, r)
  }

  lemma SetLeaves(s: State, rd: nat, v: nat)
    requires v < TWO64
    ensures Leaves(MoveOn(Set(s, rd, v), 2), s, rd, v, s.pc + 2)
  {
    GetsAfterSet(s, rd, v, Wrap64(s.pc + 2));
  }

  lemma GetsAfterSet(s: State, rd: nat, v: nat, pc: nat)
    requires v < TWO64
    ensures forall r :: Get(Set(s, rd, v).(pc := pc), r) == if r == rd && rd != 0 then v else Get(s, r)
  {
    SmallStays(v);
  }

  lemma SmallStays(v: nat)
    requires v < TWO64
    ensures Wrap64(v) == v
  {
  }

  // A word's result: the 32-bit two's-complement value of x, in a register.
  ghost predicate IsWordOf(v: nat, x: int) {
    -0x8000_0000 <= SignedValue(v) < 0x8000_0000 && (SignedValue(v) - x) % TWO32 == 0
  }

  lemma SextIsWord(x: int, r: nat)
    requires (r - x) % TWO32 == 0
    ensures Sext(r) < TWO64 && IsWordOf(Sext(r), x)
  {
    var low := r % TWO32;
    var k := r / TWO32;
    assert r == k * TWO32 + low;
    assert SignedValue(Sext(r)) == if low < 0x8000_0000 then low else low - TWO32;
    var sv := SignedValue(Sext(r));
    var j := if low < 0x8000_0000 then k else k + 1;
    assert sv - x == (r - x) + (-j) * TWO32;
    ModShift(r - x, -j, TWO32);
  }

  // ---------- Constants and arithmetic ----------

  lemma ReadConstants(c: Word)
    requires c & 3 == 1
    ensures c & 0xe000 == 0 ==> Read(c) == CAddi(FullRd(c), ImmCI(c)) && Expand(c).Expanded?
    ensures c & 0xe000 == 0x2000 && c & 0xf80 != 0 ==> Read(c) == CAddiw(FullRd(c), ImmCI(c)) && Expand(c).Expanded?
    ensures c & 0xe000 == 0x4000 && c & 0xf80 != 0 ==> Read(c) == CLi(FullRd(c), ImmCI(c)) && Expand(c).Expanded?
    ensures c & 0xef80 == 0x6100 && c & 0x107c != 0 ==> Read(c) == CAddi16sp(ImmAddi16sp(c)) && Expand(c).Expanded?
    ensures c & 0xe000 == 0x6000 && c & 0xf80 != 0 && c & 0xf80 != 0x100 && c & 0x107c != 0 ==>
      Read(c) == CLui(FullRd(c), ImmLui(c)) && Expand(c).Expanded?
  {
  }

  lemma AddiNumbers(c: Word) returns (imm: nat)
    requires c & 0xe003 == 0x0001
    ensures Expand(c).Expanded? && StandsFor(imm, Constant(c)) && ShortNumbers(Read(c)) == CAddi(Bits11(c), imm)
  {
    ReadConstants(c);
    RdNumber(c);
    ConstantStands(c);
    imm := ImmCI(c) as nat;
  }

  lemma AddiRuns(c: Word, s: State) returns (imm: nat)
    requires c & 0xe003 == 0x0001
    ensures Expand(c).Expanded? && StandsFor(imm, Constant(c)) && Ran(c, s) == Effect(CAddi(Bits11(c), imm), s)
  {
    imm := AddiNumbers(c);
    ExpansionHasTheEffect(c, s);
  }

  lemma AddiEffect(rd: nat, imm: nat, i: int, s: State, o: Outcome)
    requires StandsFor(imm, i) && o == Effect(CAddi(rd, imm), s)
    ensures Leaves(o, s, rd, (Get(s, rd) + i) % TWO64, s.pc + 2)
  {
    ExtendedField(Get(s, rd), imm, i);
    SetLeaves(s, rd, Wrap64(Get(s, rd) + i));
  }

  // c.addi adds the constant, a number from -32 to 31.
  lemma AddiAdds(c: Word, s: State)
    requires c & 0xe003 == 0x0001
    ensures Expand(c).Expanded?
    ensures Leaves(Ran(c, s), s, Bits11(c), (Get(s, Bits11(c)) + Constant(c)) % TWO64, s.pc + 2)
  {
    var imm := AddiRuns(c, s);
    AddiEffect(Bits11(c), imm, Constant(c), s, Ran(c, s));
  }

  lemma LiRuns(c: Word, s: State) returns (imm: nat)
    requires c & 0xe003 == 0x4001 && c & 0xf80 != 0
    ensures Expand(c).Expanded? && StandsFor(imm, Constant(c)) && Ran(c, s) == Effect(CLi(Bits11(c), imm), s)
  {
    ReadConstants(c);
    ExpansionHasTheEffect(c, s);
    RdNumber(c);
    ConstantStands(c);
    imm := ImmCI(c) as nat;
  }

  lemma ConstantEffect(rd: nat, imm: nat, i: int, s: State, o: Outcome)
    requires StandsFor(imm, i) && (o == Effect(CLi(rd, imm), s) || o == Effect(CLui(rd, imm), s))
    ensures Leaves(o, s, rd, i % TWO64, s.pc + 2)
  {
    ExtendedField(0, imm, i);
    SetLeaves(s, rd, Wrap64(i));
  }

  // c.li puts the constant into the register.
  lemma LiLoads(c: Word, s: State)
    requires c & 0xe003 == 0x4001 && c & 0xf80 != 0
    ensures Expand(c).Expanded? && Leaves(Ran(c, s), s, Bits11(c), Constant(c) % TWO64, s.pc + 2)
  {
    var imm := LiRuns(c, s);
    ConstantEffect(Bits11(c), imm, Constant(c), s, Ran(c, s));
  }

  lemma LuiNumbers(c: Word) returns (imm: nat)
    requires c & 0xe003 == 0x6001 && c & 0xf80 != 0 && c & 0xf80 != 0x100 && c & 0x107c != 0
    ensures Expand(c).Expanded? && StandsFor(imm, 4096 * Constant(c)) && ShortNumbers(Read(c)) == CLui(Bits11(c), imm)
  {
    ReadConstants(c);
    RdNumber(c);
    UpperStands(c);
    imm := ImmLui(c) as nat;
  }

  lemma LuiRuns(c: Word, s: State) returns (imm: nat)
    requires c & 0xe003 == 0x6001 && c & 0xf80 != 0 && c & 0xf80 != 0x100 && c & 0x107c != 0
    ensures Expand(c).Expanded? && StandsFor(imm, 4096 * Constant(c)) && Ran(c, s) == Effect(CLui(Bits11(c), imm), s)
  {
    imm := LuiNumbers(c);
    ExpansionHasTheEffect(c, s);
  }

  lemma UpperStands(c: Word)
    ensures StandsFor(ImmLui(c) as nat, 4096 * Constant(c))
  {
  }

  // c.lui puts 4096 times the constant there.
  lemma LuiLoads(c: Word, s: State)
    requires c & 0xe003 == 0x6001 && c & 0xf80 != 0 && c & 0xf80 != 0x100 && c & 0x107c != 0
    ensures Expand(c).Expanded? && Leaves(Ran(c, s), s, Bits11(c), (4096 * Constant(c)) % TWO64, s.pc + 2)
  {
    var imm := LuiRuns(c, s);
    ConstantEffect(Bits11(c), imm, 4096 * Constant(c), s, Ran(c, s));
  }

  // The two stack adjustments: by a signed multiple of 16, and upwards by a
  // multiple of 4 into another register.
  function StackStep(c: Word): (i: int)
    ensures -512 <= i <= 496 && i % 16 == 0
  {
    256 * At(c, 0x10) + 128 * At(c, 8) + 64 * At(c, 0x20) + 32 * At(c, 4) + 16 * At(c, 0x40) - 512 * At(c, 0x1000)
  }

  function StackOffset(c: Word): (i: int)
    ensures 0 <= i <= 1020 && i % 4 == 0
  {
    512 * At(c, 0x400) + 256 * At(c, 0x200) + 128 * At(c, 0x100) + 64 * At(c, 0x80) + 32 * At(c, 0x1000)
      + 16 * At(c, 0x800) + 8 * At(c, 0x20) + 4 * At(c, 0x40)
  }

  lemma StackStepStands(c: Word)
    ensures StandsFor(ImmAddi16sp(c) as nat, StackStep(c))
  {
  }

  lemma StackOffsetStands(c: Word)
    ensures StandsFor(ImmCIW(c) as nat, StackOffset(c))
  {
  }

  lemma Addi16spRuns(c: Word, s: State) returns (imm: nat)
    requires c & 0xef83 == 0x6101 && c & 0x107c != 0
    ensures Expand(c).Expanded? && StandsFor(imm, StackStep(c)) && Ran(c, s) == Effect(CAddi16sp(imm), s)
  {
    ReadConstants(c);
    ExpansionHasTheEffect(c, s);
    StackStepStands(c);
    imm := ImmAddi16sp(c) as nat;
  }

  lemma StackEffect(imm: nat, i: int, rd: nat, s: State, o: Outcome)
    requires StandsFor(imm, i)
    requires (rd == 2 && o == Effect(CAddi16sp(imm), s)) || o == Effect(CAddi4spn(rd, imm), s)
    ensures Leaves(o, s, rd, (Get(s, 2) + i) % TWO64, s.pc + 2)
  {
    ExtendedField(Get(s, 2), imm, i);
    SetLeaves(s, rd, Wrap64(Get(s, 2) + i));
  }

  lemma Addi16spMoves(c: Word, s: State)
    requires c & 0xef83 == 0x6101 && c & 0x107c != 0
    ensures Expand(c).Expanded? && Leaves(Ran(c, s), s, 2, (Get(s, 2) + StackStep(c)) % TWO64, s.pc + 2)
  {
    var imm := Addi16spRuns(c, s);
    StackEffect(imm, StackStep(c), 2, s, Ran(c, s));
  }

  lemma Addi4spnRuns(c: Word, s: State) returns (imm: nat)
    requires c & 0xe003 == 0 && c & 0x1fe0 != 0
    ensures !FloatingPoint(c) && Expand(c).Expanded? && StandsFor(imm, StackOffset(c))
    ensures Ran(c, s) == Effect(CAddi4spn(Bits4(c), imm), s)
  {
    assert Read(c) == CAddi4spn(Low(c), ImmCIW(c));
    ExpansionHasTheEffect(c, s);
    LowNumber(c);
    StackOffsetStands(c);
    imm := ImmCIW(c) as nat;
  }

  lemma Addi4spnPoints(c: Word, s: State)
    requires c & 0xe003 == 0 && c & 0x1fe0 != 0
    ensures !FloatingPoint(c) && Expand(c).Expanded?
    ensures Leaves(Ran(c, s), s, Bits4(c), (Get(s, 2) + StackOffset(c)) % TWO64, s.pc + 2)
  {
    var imm := Addi4spnRuns(c, s);
    StackEffect(imm, StackOffset(c), Bits4(c), s, Ran(c, s));
  }

  // ---------- Word results ----------

  // A register that holds the 32-bit two's-complement value of x.
  ghost predicate LeavesWord(o: Outcome, s: State, rd: nat, x: int) {
    o.Next? && Leaves(o, s, rd, Get(o.s, rd), s.pc + 2) && (rd != 0 ==> IsWordOf(Get(o.s, rd), x))
  }

  lemma WordLeft(s: State, rd: nat, r: nat, x: int)
    requires (r - x) % TWO32 == 0
    ensures LeavesWord(MoveOn(Set(s, rd, Sext(r)), 2), s, rd, x)
  {
    SextIsWord(x, r);
    SetLeaves(s, rd, Sext(r));
  }

  lemma WrapKeepsWord(v: int)
    ensures (Wrap64(v) - v) % TWO32 == 0
  {
    var q := v / TWO64;
    assert Wrap64(v) - v == 0 + (-q * TWO32) * TWO32 by {
      assert v == q * TWO64 + Wrap64(v);
    }
    ModShift(0, -q * TWO32, TWO32);
  }

  lemma AddiwRuns(c: Word, s: State) returns (imm: nat)
    requires c & 0xe003 == 0x2001 && c & 0xf80 != 0
    ensures Expand(c).Expanded? && StandsFor(imm, Constant(c)) && Ran(c, s) == Effect(CAddiw(Bits11(c), imm), s)
  {
    ReadConstants(c);
    ExpansionHasTheEffect(c, s);
    RdNumber(c);
    ConstantStands(c);
    imm := ImmCI(c) as nat;
  }

  lemma AddiwEffect(rd: nat, imm: nat, i: int, s: State, o: Outcome)
    requires StandsFor(imm, i) && o == Effect(CAddiw(rd, imm), s)
    ensures LeavesWord(o, s, rd, Get(s, rd) + i)
  {
    ExtendedField(Get(s, rd), imm, i);
    WrapKeepsWord(Get(s, rd) + i);
    WordLeft(s, rd, Wrap64(Get(s, rd) + i), Get(s, rd) + i);
  }

  // c.addiw adds the constant and keeps the signed low word.
  lemma AddiwAdds(c: Word, s: State)
    requires c & 0xe003 == 0x2001 && c & 0xf80 != 0
    ensures Expand(c).Expanded? && LeavesWord(Ran(c, s), s, Bits11(c), Get(s, Bits11(c)) + Constant(c))
  {
    var imm := AddiwRuns(c, s);
    AddiwEffect(Bits11(c), imm, Constant(c), s, Ran(c, s));
  }

  // ---------- Register arithmetic ----------

  // The six operations on two registers of x8 to x15.
  predicate AluForm(c: Word, f: AluOp, narrow: bool) {
    || (c & 0xfc63 == 0x8c01 && f == Sub && !narrow) || (c & 0xfc63 == 0x8c21 && f == Xor && !narrow)
    || (c & 0xfc63 == 0x8c41 && f == Or && !narrow) || (c & 0xfc63 == 0x8c61 && f == And && !narrow)
    || (c & 0xfc63 == 0x9c01 && f == Sub && narrow) || (c & 0xfc63 == 0x9c21 && f == Add && narrow)
  }

  lemma ReadAlus(c: Word, f: AluOp, narrow: bool)
    requires AluForm(c, f, narrow)
    ensures Expand(c).Expanded? && Read(c) == CAlu(f, narrow, High(c), Low(c))
  {
  }

  lemma AluNumbers(c: Word, f: AluOp, narrow: bool)
    requires AluForm(c, f, narrow)
    ensures Expand(c).Expanded? && ShortNumbers(Read(c)) == CAlu(f, narrow, Bits9(c), Bits4(c))
  {
    ReadAlus(c, f, narrow);
    HighNumber(c);
    LowNumber(c);
  }

  lemma AluRuns(c: Word, f: AluOp, narrow: bool, s: State)
    requires AluForm(c, f, narrow)
    ensures Expand(c).Expanded? && Ran(c, s) == Effect(CAlu(f, narrow, Bits9(c), Bits4(c)), s)
  {
    AluNumbers(c, f, narrow);
    ExpansionHasTheEffect(c, s);
  }

  lemma SubEffect(rd: nat, rs2: nat, s: State, o: Outcome)
    requires o == Effect(CAlu(Sub, false, rd, rs2), s)
    ensures Leaves(o, s, rd, (Get(s, rd) - Get(s, rs2)) % TWO64, s.pc + 2)
  {
    SetLeaves(s, rd, Wrap64(Get(s, rd) - Get(s, rs2)));
  }

  // c.sub takes the second register away from the first.
  lemma SubSubtracts(c: Word, s: State)
    requires c & 0xfc63 == 0x8c01
    ensures Expand(c).Expanded?
    ensures Leaves(Ran(c, s), s, Bits9(c), (Get(s, Bits9(c)) - Get(s, Bits4(c))) % TWO64, s.pc + 2)
  {
    AluRuns(c, Sub, false, s);
    SubEffect(Bits9(c), Bits4(c), s, Ran(c, s));
  }

  lemma NarrowEffect(f: AluOp, rd: nat, rs2: nat, s: State, o: Outcome)
    requires f in {Add, Sub} && o == Effect(CAlu(f, true, rd, rs2), s)
    ensures LeavesWord(o, s, rd, if f == Add then Get(s, rd) + Get(s, rs2) else Get(s, rd) - Get(s, rs2))
  {
    var x := if f == Add then Get(s, rd) + Get(s, rs2) else Get(s, rd) - Get(s, rs2);
    WrapKeepsWord(x);
    WordLeft(s, rd, Wrap64(x), x);
  }

  // c.addw and c.subw keep the signed low word of sum and difference.
  lemma AddwAdds(c: Word, s: State)
    requires c & 0xfc63 == 0x9c21
    ensures Expand(c).Expanded? && LeavesWord(Ran(c, s), s, Bits9(c), Get(s, Bits9(c)) + Get(s, Bits4(c)))
  {
    AluRuns(c, Add, true, s);
    NarrowEffect(Add, Bits9(c), Bits4(c), s, Ran(c, s));
  }

  lemma SubwSubtracts(c: Word, s: State)
    requires c & 0xfc63 == 0x9c01
    ensures Expand(c).Expanded? && LeavesWord(Ran(c, s), s, Bits9(c), Get(s, Bits9(c)) - Get(s, Bits4(c)))
  {
    AluRuns(c, Sub, true, s);
    NarrowEffect(Sub, Bits9(c), Bits4(c), s, Ran(c, s));
  }

  // Bit by bit, v is what f makes of a and b.
  ghost predicate BitByBit(f: AluOp, v: nat, a: nat, b: nat) {
    forall k: nat :: Bit(v, k) ==
      match f
      case And => Bit(a, k) && Bit(b, k)
      case Or => Bit(a, k) || Bit(b, k)
      case _ => Bit(a, k) != Bit(b, k)
  }

  lemma LogicLeaves(f: AluOp, rd: nat, b: nat, s: State, o: Outcome)
    requires f in {And, Or, Xor} && b < TWO64 && rd != 0
    requires o == MoveOn(Set(s, rd, Bitwise(f, Get(s, rd), b)), 2)
    ensures o.Next? && Leaves(o, s, rd, Get(o.s, rd), s.pc + 2) && BitByBit(f, Get(o.s, rd), Get(s, rd), b)
  {
    var a := Get(s, rd);
    BitwiseIsAWord(f, a, b);
    SetLeaves(s, rd, Bitwise(f, a, b));
    forall k: nat
      ensures Bit(Bitwise(f, a, b), k) ==
        match f
        case And => Bit(a, k) && Bit(b, k)
        case Or => Bit(a, k) || Bit(b, k)
        case _ => Bit(a, k) != Bit(b, k)
    {
      BitwiseAt(f, a, b, k);
    }
  }

  // c.and, c.or and c.xor work bit by bit on the two registers.
  lemma LogicWorks(c: Word, f: AluOp, s: State)
    requires f in {And, Or, Xor} && AluForm(c, f, false)
    ensures Expand(c).Expanded?
    ensures var o := Ran(c, s);
      && o.Next? && Leaves(o, s, Bits9(c), Get(o.s, Bits9(c)), s.pc + 2)
      && BitByBit(f, Get(o.s, Bits9(c)), Get(s, Bits9(c)), Get(s, Bits4(c)))
  {
    AluRuns(c, f, false, s);
    LogicEffect(f, Bits9(c), Bits4(c), s, Ran(c, s));
  }

  lemma LogicEffect(f: AluOp, rd: nat, rs2: nat, s: State, o: Outcome)
    requires f in {And, Or, Xor} && rd != 0 && o == Effect(CAlu(f, false, rd, rs2), s)
    ensures o.Next? && Leaves(o, s, rd, Get(o.s, rd), s.pc + 2)
    ensures BitByBit(f, Get(o.s, rd), Get(s, rd), Get(s, rs2))
  {
    LogicLeaves(f, rd, Get(s, rs2), s, o);
  }

  lemma AndiNumbers(c: Word) returns (imm: nat)
    requires c & 0xec03 == 0x8801
    ensures Expand(c).Expanded? && StandsFor(imm, Constant(c)) && ShortNumbers(Read(c)) == CAndi(Bits9(c), imm)
  {
    assert Read(c) == CAndi(High(c), ImmCI(c)) && Expand(c).Expanded?;
    HighNumber(c);
    ConstantStands(c);
    imm := ImmCI(c) as nat;
  }

  lemma AndiRuns(c: Word, s: State) returns (imm: nat)
    requires c & 0xec03 == 0x8801
    ensures Expand(c).Expanded? && StandsFor(imm, Constant(c)) && Ran(c, s) == Effect(CAndi(Bits9(c), imm), s)
  {
    imm := AndiNumbers(c);
    ExpansionHasTheEffect(c, s);
  }

  lemma AndiEffect(rd: nat, imm: nat, i: int, s: State, o: Outcome)
    requires StandsFor(imm, i) && rd != 0 && o == Effect(CAndi(rd, imm), s)
    ensures o.Next? && Leaves(o, s, rd, Get(o.s, rd), s.pc + 2)
    ensures BitByBit(And, Get(o.s, rd), Get(s, rd), i % TWO64)
  {
    ExtendedField(0, imm, i);
    LogicLeaves(And, rd, Sext(imm), s, o);
  }

  // c.andi masks the register with the sign-extended constant.
  lemma AndiMasks(c: Word, s: State)
    requires c & 0xec03 == 0x8801
    ensures Expand(c).Expanded?
    ensures var o := Ran(c, s);
      && o.Next? && Leaves(o, s, Bits9(c), Get(o.s, Bits9(c)), s.pc + 2)
      && BitByBit(And, Get(o.s, Bits9(c)), Get(s, Bits9(c)), Constant(c) % TWO64)
  {
    var imm := AndiRuns(c, s);
    AndiEffect(Bits9(c), imm, Constant(c), s, Ran(c, s));
  }

  lemma MvRuns(c: Word, s: State)
    requires c & 0xf003 == 0x8002 && c & 0x7c != 0
    ensures !FloatingPoint(c) && Expand(c).Expanded? && Ran(c, s) == Effect(CMv(Bits11(c), Bits6(c)), s)
  {
    assert Read(c) == CMv(FullRd(c), FullRs2(c)) && Expand(c).Expanded?;
    ExpansionHasTheEffect(c, s);
    RdNumber(c);
    Rs2Number(c);
  }

  lemma AddRuns(c: Word, s: State)
    requires c & 0xf003 == 0x9002 && c & 0x7c != 0 && c & 0xf80 != 0
    ensures !FloatingPoint(c) && Expand(c).Expanded? && Ran(c, s) == Effect(CAdd(Bits11(c), Bits6(c)), s)
  {
    assert Read(c) == CAdd(FullRd(c), FullRs2(c)) && Expand(c).Expanded?;
    ExpansionHasTheEffect(c, s);
    RdNumber(c);
    Rs2Number(c);
  }

  lemma MoveEffects(rd: nat, rs2: nat, s: State)
    ensures Leaves(Effect(CMv(rd, rs2), s), s, rd, Get(s, rs2), s.pc + 2)
    ensures Leaves(Effect(CAdd(rd, rs2), s), s, rd, (Get(s, rd) + Get(s, rs2)) % TWO64, s.pc + 2)
  {
    SetLeaves(s, rd, Get(s, rs2));
    SetLeaves(s, rd, Wrap64(Get(s, rd) + Get(s, rs2)));
  }

  // c.mv copies, c.add adds.
  lemma MvCopies(c: Word, s: State)
    requires c & 0xf003 == 0x8002 && c & 0x7c != 0
    ensures !FloatingPoint(c) && Expand(c).Expanded?
    ensures Leaves(Ran(c, s), s, Bits11(c), Get(s, Bits6(c)), s.pc + 2)
  {
    MvRuns(c, s);
    MoveEffects(Bits11(c), Bits6(c), s);
  }

  lemma AddAdds(c: Word, s: State)
    requires c & 0xf003 == 0x9002 && c & 0x7c != 0 && c & 0xf80 != 0
    ensures !FloatingPoint(c) && Expand(c).Expanded?
    ensures Leaves(Ran(c, s), s, Bits11(c), (Get(s, Bits11(c)) + Get(s, Bits6(c))) % TWO64, s.pc + 2)
  {
    AddRuns(c, s);
    MoveEffects(Bits11(c), Bits6(c), s);
  }

  // ---------- Shifts ----------

  // How far: bit 12 and bits 6 to 2.
  function Places(c: Word): (n: nat)
    ensures n < 64
  {
    32 * At(c, 0x1000) + Bits6(c)
  }

  lemma ShiftNumber(c: Word)
    ensures Shamt(c) as nat == Places(c)
  {
  }

  lemma SlliRuns(c: Word, s: State)
    requires c & 0xe003 == 0x0002 && c & 0xf80 != 0 && c & 0x107c != 0
    ensures !FloatingPoint(c) && Expand(c).Expanded? && Ran(c, s) == Effect(CSlli(Bits11(c), Places(c)), s)
  {
    assert Read(c) == CSlli(FullRd(c), Shamt(c)) && Expand(c).Expanded?;
    ExpansionHasTheEffect(c, s);
    RdNumber(c);
    ShiftNumber(c);
  }

  lemma ShiftRightRuns(c: Word, s: State)
    requires (c & 0xec03 == 0x8001 || c & 0xec03 == 0x8401) && c & 0x107c != 0
    ensures Expand(c).Expanded?
    ensures Ran(c, s) == Effect(if c & 0x400 == 0 then CSrli(Bits9(c), Places(c)) else CSrai(Bits9(c), Places(c)), s)
  {
    assert Read(c) == if c & 0x400 == 0 then CSrli(High(c), Shamt(c)) else CSrai(High(c), Shamt(c));
    assert Expand(c).Expanded?;
    ExpansionHasTheEffect(c, s);
    HighNumber(c);
    ShiftNumber(c);
  }

  lemma ShiftEffects(rd: nat, n: nat, s: State)
    requires n < 64
    ensures Leaves(Effect(CSlli(rd, n), s), s, rd, (Get(s, rd) * Pow2(n)) % TWO64, s.pc + 2)
    ensures Leaves(Effect(CSrli(rd, n), s), s, rd, (Get(s, rd) / Pow2(n)) % TWO64, s.pc + 2)
    ensures Leaves(Effect(CSrai(rd, n), s), s, rd, (SignedValue(Get(s, rd)) / Pow2(n)) % TWO64, s.pc + 2)
  {
    var a := Get(s, rd);
    SmallSext(n);
    ShiftLeftMultiplies(a, n);
    SetLeaves(s, rd, ShiftLeft(a, n));
    ShiftRightDivides(a, n, 0, a);
    SetLeaves(s, rd, ShiftRight(a, n, 0));
    ShiftRightDivides(a, n, SignBit(a), SignedValue(a));
    SetLeaves(s, rd, ShiftRight(a, n, SignBit(a)));
  }

  // c.slli multiplies by a power of two; c.srli divides the number and c.srai the
  // signed number by one, rounding down.
  lemma SlliMultiplies(c: Word, s: State)
    requires c & 0xe003 == 0x0002 && c & 0xf80 != 0 && c & 0x107c != 0
    ensures !FloatingPoint(c) && Expand(c).Expanded?
    ensures Leaves(Ran(c, s), s, Bits11(c), (Get(s, Bits11(c)) * Pow2(Places(c))) % TWO64, s.pc + 2)
  {
    SlliRuns(c, s);
    ShiftEffects(Bits11(c), Places(c), s);
  }

  lemma ShiftRightDivide(c: Word, s: State)
    requires (c & 0xec03 == 0x8001 || c & 0xec03 == 0x8401) && c & 0x107c != 0
    ensures Expand(c).Expanded?
    ensures var x := Get(s, Bits9(c));
      Leaves(Ran(c, s), s, Bits9(c),
             ((if c & 0x400 == 0 then x else SignedValue(x)) / Pow2(Places(c))) % TWO64, s.pc + 2)
  {
    ShiftRightRuns(c, s);
    ShiftEffects(Bits9(c), Places(c), s);
  }

  // ---------- Loads and stores ----------

  function ByteAt(m: Memory, a: nat): nat {
    if a in m then m[a] % 256 else 0
  }

  // The offsets of the four pairs of forms.
  function WordOffset(c: Word): (n: nat)
    ensures n < 1024
  {
    64 * At(c, 0x20) + 32 * At(c, 0x1000) + 16 * At(c, 0x800) + 8 * At(c, 0x400) + 4 * At(c, 0x40)
  }

  function DoubleOffset(c: Word): (n: nat)
    ensures n < 1024
  {
    128 * At(c, 0x40) + 64 * At(c, 0x20) + 32 * At(c, 0x1000) + 16 * At(c, 0x800) + 8 * At(c, 0x400)
  }

  function LwspOffset(c: Word): (n: nat)
    ensures n < 1024
  {
    128 * At(c, 8) + 64 * At(c, 4) + 32 * At(c, 0x1000) + 16 * At(c, 0x40) + 8 * At(c, 0x20) + 4 * At(c, 0x10)
  }

  function LdspOffset(c: Word): (n: nat)
    ensures n < 1024
  {
    256 * At(c, 0x10) + 128 * At(c, 8) + 64 * At(c, 4) + 32 * At(c, 0x1000) + 16 * At(c, 0x40) + 8 * At(c, 0x20)
  }

  function SwspOffset(c: Word): (n: nat)
    ensures n < 1024
  {
    128 * At(c, 0x100) + 64 * At(c, 0x80) + 32 * At(c, 0x1000) + 16 * At(c, 0x800) + 8 * At(c, 0x400)
      + 4 * At(c, 0x200)
  }

  function SdspOffset(c: Word): (n: nat)
    ensures n < 1024
  {
    256 * At(c, 0x200) + 128 * At(c, 0x100) + 64 * At(c, 0x80) + 32 * At(c, 0x1000) + 16 * At(c, 0x800)
      + 8 * At(c, 0x400)
  }

  // Size, register, base register and offset of an access.
  datatype Transfer = Transfer(size: nat, r: nat, base: nat, offset: nat)

  ghost predicate IsLoad(c: Word, t: Transfer) {
    || (c & 0xe003 == 0x4000 && t == Transfer(4, Bits4(c), Bits9(c), WordOffset(c)))
    || (c & 0xe003 == 0x6000 && t == Transfer(8, Bits4(c), Bits9(c), DoubleOffset(c)))
    || (c & 0xe003 == 0x4002 && c & 0xf80 != 0 && t == Transfer(4, Bits11(c), 2, LwspOffset(c)))
    || (c & 0xe003 == 0x6002 && c & 0xf80 != 0 && t == Transfer(8, Bits11(c), 2, LdspOffset(c)))
  }

  ghost predicate IsStore(c: Word, t: Transfer) {
    || (c & 0xe003 == 0xc000 && t == Transfer(4, Bits4(c), Bits9(c), WordOffset(c)))
    || (c & 0xe003 == 0xe000 && t == Transfer(8, Bits4(c), Bits9(c), DoubleOffset(c)))
    || (c & 0xe003 == 0xc002 && t == Transfer(4, Bits6(c), 2, SwspOffset(c)))
    || (c & 0xe003 == 0xe002 && t == Transfer(8, Bits6(c), 2, SdspOffset(c)))
  }

  lemma WordOffsets(c: Word)
    ensures OffsetWord(c) as nat == WordOffset(c)
  {
  }

  lemma DoubleOffsets(c: Word)
    ensures OffsetDouble(c) as nat == DoubleOffset(c)
  {
  }

  lemma LwspOffsets(c: Word)
    ensures OffsetLwsp(c) as nat == LwspOffset(c)
  {
  }

  lemma LdspOffsets(c: Word)
    ensures OffsetLdsp(c) as nat == LdspOffset(c)
  {
  }

  lemma SwspOffsets(c: Word)
    ensures OffsetSwsp(c) as nat == SwspOffset(c)
  {
  }

  lemma SdspOffsets(c: Word)
    ensures OffsetSdsp(c) as nat == SdspOffset(c)
  {
  }

  lemma LwNumbers(c: Word)
    requires c & 0xe003 == 0x4000
    ensures !FloatingPoint(c) && Expand(c).Expanded?
    ensures ShortNumbers(Read(c)) == CLoad(4, Bits4(c), Bits9(c), WordOffset(c))
  {
    assert Read(c) == CLoad(4, Low(c), High(c), OffsetWord(c));
    HighNumber(c);
    LowNumber(c);
    WordOffsets(c);
  }

  lemma LdNumbers(c: Word)
    requires c & 0xe003 == 0x6000
    ensures !FloatingPoint(c) && Expand(c).Expanded?
    ensures ShortNumbers(Read(c)) == CLoad(8, Bits4(c), Bits9(c), DoubleOffset(c))
  {
    assert Read(c) == CLoad(8, Low(c), High(c), OffsetDouble(c));
    HighNumber(c);
    LowNumber(c);
    DoubleOffsets(c);
  }

  lemma LwspNumbers(c: Word)
    requires c & 0xe003 == 0x4002 && c & 0xf80 != 0
    ensures !FloatingPoint(c) && Expand(c).Expanded?
    ensures ShortNumbers(Read(c)) == CLoad(4, Bits11(c), 2, LwspOffset(c))
  {
    assert Read(c) == CLoad(4, FullRd(c), 2, OffsetLwsp(c));
    RdNumber(c);
    LwspOffsets(c);
    SmallNumbers();
  }

  lemma LdspNumbers(c: Word)
    requires c & 0xe003 == 0x6002 && c & 0xf80 != 0
    ensures !FloatingPoint(c) && Expand(c).Expanded?
    ensures ShortNumbers(Read(c)) == CLoad(8, Bits11(c), 2, LdspOffset(c))
  {
    assert Read(c) == CLoad(8, FullRd(c), 2, OffsetLdsp(c));
    RdNumber(c);
    LdspOffsets(c);
    SmallNumbers();
  }

  lemma SwNumbers(c: Word)
    requires c & 0xe003 == 0xc000
    ensures !FloatingPoint(c) && Expand(c).Expanded?
    ensures ShortNumbers(Read(c)) == CStore(4, Bits4(c), Bits9(c), WordOffset(c))
  {
    assert Read(c) == CStore(4, Low(c), High(c), OffsetWord(c));
    HighNumber(c);
    LowNumber(c);
    WordOffsets(c);
  }

  lemma SdNumbers(c: Word)
    requires c & 0xe003 == 0xe000
    ensures !FloatingPoint(c) && Expand(c).Expanded?
    ensures ShortNumbers(Read(c)) == CStore(8, Bits4(c), Bits9(c), DoubleOffset(c))
  {
    assert Read(c) == CStore(8, Low(c), High(c), OffsetDouble(c));
    HighNumber(c);
    LowNumber(c);
    DoubleOffsets(c);
  }

  lemma SwspNumbers(c: Word)
    requires c & 0xe003 == 0xc002
    ensures !FloatingPoint(c) && Expand(c).Expanded?
    ensures ShortNumbers(Read(c)) == CStore(4, Bits6(c), 2, SwspOffset(c))
  {
    assert Read(c) == CStore(4, FullRs2(c), 2, OffsetSwsp(c));
    Rs2Number(c);
    SwspOffsets(c);
    SmallNumbers();
  }

  lemma SdspNumbers(c: Word)
    requires c & 0xe003 == 0xe002
    ensures !FloatingPoint(c) && Expand(c).Expanded?
    ensures ShortNumbers(Read(c)) == CStore(8, Bits6(c), 2, SdspOffset(c))
  {
    assert Read(c) == CStore(8, FullRs2(c), 2, OffsetSdsp(c));
    Rs2Number(c);
    SdspOffsets(c);
    SmallNumbers();
  }

  lemma LoadNumbers(c: Word, t: Transfer)
    requires IsLoad(c, t)
    ensures !FloatingPoint(c) && Expand(c).Expanded? && t.offset < 1024 && t.size in {4, 8}
    ensures ShortNumbers(Read(c)) == CLoad(t.size, t.r, t.base, t.offset)
  {
    if c & 0xe003 == 0x4000 {
      LwNumbers(c);
    } else if c & 0xe003 == 0x6000 {
      LdNumbers(c);
    } else if c & 0xe003 == 0x4002 {
      LwspNumbers(c);
    } else {
      LdspNumbers(c);
    }
  }

  lemma StoreNumbers(c: Word, t: Transfer)
    requires IsStore(c, t)
    ensures !FloatingPoint(c) && Expand(c).Expanded? && t.offset < 1024 && t.size in {4, 8}
    ensures ShortNumbers(Read(c)) == CStore(t.size, t.r, t.base, t.offset)
  {
    if c & 0xe003 == 0xc000 {
      SwNumbers(c);
    } else if c & 0xe003 == 0xe000 {
      SdNumbers(c);
    } else if c & 0xe003 == 0xc002 {
      SwspNumbers(c);
    } else {
      SdspNumbers(c);
    }
  }

  lemma LoadRuns(c: Word, t: Transfer, s: State)
    requires IsLoad(c, t)
    ensures !FloatingPoint(c) && Expand(c).Expanded? && t.offset < 1024 && t.size in {4, 8}
    ensures Ran(c, s) == Effect(CLoad(t.size, t.r, t.base, t.offset), s)
  {
    LoadNumbers(c, t);
    ExpansionHasTheEffect(c, s);
  }

  lemma StoreRuns(c: Word, t: Transfer, s: State)
    requires IsStore(c, t)
    ensures !FloatingPoint(c) && Expand(c).Expanded? && t.offset < 1024 && t.size in {4, 8}
    ensures Ran(c, s) == Effect(CStore(t.size, t.r, t.base, t.offset), s)
  {
    StoreNumbers(c, t);
    ExpansionHasTheEffect(c, s);
  }

  // Base plus offset, and the address of the k-th byte from there.
  function Place(s: State, t: Transfer, k: nat): nat {
    (Get(s, t.base) + t.offset + k) % TWO64
  }

  lemma AddressIsPlace(s: State, t: Transfer)
    requires t.offset < 1024
    ensures Address(s, t.base, t.offset) == Place(s, t, 0)
    ensures forall k: nat :: Wrap64(Place(s, t, 0) + k) == Place(s, t, k)
  {
    forall k: nat
      ensures Wrap64(Place(s, t, 0) + k) == Place(s, t, k)
    {
      WrapInside(Get(s, t.base) + t.offset, k);
    }
  }

  lemma WrapInside(x: int, k: int)
    ensures Wrap64(Wrap64(x) + k) == Wrap64(x + k)
  {
    ModShift(Wrap64(x) + k, x / TWO64, TWO64);
  }

  lemma FirstByte(m: Memory, a: nat, n: nat)
    requires n > 0
    ensures ReadBytes(m, a, n) == ByteAt(m, a) + 256 * ReadBytes(m, Wrap64(a + 1), n - 1) && ByteAt(m, a) < 256
  {
  }

  lemma {:induction false} ReadFits(m: Memory, a: nat, n: nat)
    ensures ReadBytes(m, a, n) < Span(n)
    decreases n
  {
    if n > 0 {
      ReadFits(m, Wrap64(a + 1), n - 1);
      FirstByte(m, a, n);
    }
  }

  // The k-th digit of a number to base 256, counted off.
  function Digit(v: nat, k: nat): nat
    decreases k
  {
    if k == 0 then v % 256 else Digit(v / 256, k - 1)
  }

  lemma {:induction false} DigitIs(v: nat, k: nat)
    ensures Digit(v, k) == (v / Span(k)) % 256
    decreases k
  {
    if k > 0 {
      DigitIs(v / 256, k - 1);
      LowByteFirst(v, Span(k - 1));
    }
  }

  // The digits of a number read from memory are the bytes there.
  lemma {:induction false} DigitRead(m: Memory, a: nat, n: nat, k: nat)
    requires a < TWO64 && k < n
    ensures Digit(ReadBytes(m, a, n), k) == ByteAt(m, Wrap64(a + k))
    decreases n
  {
    FirstByte(m, a, n);
    DigitOf(ByteAt(m, a), ReadBytes(m, Wrap64(a + 1), n - 1));
    if k == 0 {
      SmallStays(a);
    } else {
      DigitRead(m, Wrap64(a + 1), n - 1, k - 1);
      WrapInside(a + 1, k - 1);
    }
  }

  // Each byte of memory after a store: a digit of the value, or as before.
  lemma {:induction false} DigitWritten(m: Memory, a: nat, n: nat, v: nat, b: nat)
    requires a < TWO64 && b < TWO64 && n <= 8
    ensures var k := (b - a) % TWO64;
      ByteAt(WriteBytes(m, a, n, v), b) == if k < n then Digit(v, k) else ByteAt(m, b)
    decreases n
  {
    if n > 0 {
      DigitWritten(m[a := v % 256], Wrap64(a + 1), n - 1, v / 256, b);
      OneFurther(a, b);
    }
  }

  lemma OneFurther(a: nat, b: nat)
    requires a < TWO64 && b < TWO64
    ensures (b - Wrap64(a + 1)) % TWO64 == if a == b then TWO64 - 1 else (b - a) % TWO64 - 1
    ensures (b - a) % TWO64 == 0 <==> a == b
  {
  }

  // A load brings the bytes from base plus offset on, least significant first: a
  // doubleword as it is, a word as the signed number it stands for.
  lemma LoadBrings(c: Word, t: Transfer, s: State) returns (w: nat)
    requires IsLoad(c, t)
    ensures !FloatingPoint(c) && Expand(c).Expanded? && w < Span(t.size)
    ensures forall k: nat :: k < t.size ==> (w / Span(k)) % 256 == ByteAt(s.mem, Place(s, t, k))
    ensures if t.size == 8 then Leaves(Ran(c, s), s, t.r, w, s.pc + 2) else LeavesWord(Ran(c, s), s, t.r, w)
  {
    LoadRuns(c, t, s);
    w := LoadEffect(t, s, Ran(c, s));
  }

  lemma LoadEffect(t: Transfer, s: State, o: Outcome) returns (w: nat)
    requires t.size in {4, 8} && t.offset < 1024 && o == Effect(CLoad(t.size, t.r, t.base, t.offset), s)
    ensures w < Span(t.size)
    ensures forall k: nat :: k < t.size ==> (w / Span(k)) % 256 == ByteAt(s.mem, Place(s, t, k))
    ensures if t.size == 8 then Leaves(o, s, t.r, w, s.pc + 2) else LeavesWord(o, s, t.r, w)
  {
    AddressIsPlace(s, t);
    var a := Place(s, t, 0);
    w := ReadBytes(s.mem, a, t.size);
    forall k: nat | k < t.size
      ensures (w / Span(k)) % 256 == ByteAt(s.mem, Place(s, t, k))
    {
      DigitRead(s.mem, a, t.size, k);
      DigitIs(w, k);
    }
    ReadFits(s.mem, a, t.size);
    SpanOfWords();
    if t.size == 8 {
      SetLeaves(s, t.r, w);
    } else {
      WordLeft(s, t.r, w, w);
    }
  }

  // A store puts the register's low bytes there and changes nothing else.
  lemma StorePuts(c: Word, t: Transfer, s: State)
    requires IsStore(c, t)
    ensures !FloatingPoint(c) && Expand(c).Expanded?
    ensures Stores(Ran(c, s), s, t)
  {
    StoreRuns(c, t, s);
    StoreEffects(t, s, Ran(c, s));
  }

  ghost predicate Stores(o: Outcome, s: State, t: Transfer) {
    && o.Next? && o.s.pc == (s.pc + 2) % TWO64 && o.s.x == s.x
    && forall b: nat :: b < TWO64 ==>
         ByteAt(o.s.mem, b) ==
           var k := (b - Place(s, t, 0)) % TWO64;
           if k < t.size then (Get(s, t.r) / Span(k)) % 256 else ByteAt(s.mem, b)
  }

  lemma StoreEffects(t: Transfer, s: State, o: Outcome)
    requires t.size in {4, 8} && t.offset < 1024 && o == Effect(CStore(t.size, t.r, t.base, t.offset), s)
    ensures Stores(o, s, t)
  {
    AddressIsPlace(s, t);
    forall b: nat | b < TWO64
      ensures ByteAt(o.s.mem, b) ==
        var k := (b - Place(s, t, 0)) % TWO64;
        if k < t.size then (Get(s, t.r) / Span(k)) % 256 else ByteAt(s.mem, b)
    {
      DigitWritten(s.mem, Place(s, t, 0), t.size, Get(s, t.r), b);
      DigitIs(Get(s, t.r), (b - Place(s, t, 0)) % TWO64);
    }
  }

  // ---------- Jumps and branches ----------

  // Only the pc has changed.
  ghost predicate GoesTo(o: Outcome, s: State, pc: int) {
    o.Next? && o.s.mem == s.mem && o.s.x == s.x && o.s.pc == pc % TWO64
  }

  // The eleven bits of a jump's distance, and the eight of a branch's.
  function JumpDistance(c: Word): (i: int)
    ensures -2048 <= i <= 2046 && i % 2 == 0
  {
    1024 * At(c, 0x100) + 512 * At(c, 0x400) + 256 * At(c, 0x200) + 128 * At(c, 0x40) + 64 * At(c, 0x80)
      + 32 * At(c, 4) + 16 * At(c, 0x800) + 8 * At(c, 0x20) + 4 * At(c, 0x10) + 2 * At(c, 8) - 2048 * At(c, 0x1000)
  }

  function BranchDistance(c: Word): (i: int)
    ensures -256 <= i <= 254 && i % 2 == 0
  {
    128 * At(c, 0x40) + 64 * At(c, 0x20) + 32 * At(c, 4) + 16 * At(c, 0x800) + 8 * At(c, 0x400) + 4 * At(c, 0x10)
      + 2 * At(c, 8) - 256 * At(c, 0x1000)
  }

  lemma ForwardDistance(c: Word)
    requires c & 0x1000 == 0
    ensures StandsFor(OffsetCJ(c) as nat, JumpDistance(c))
  {
  }

  lemma BackwardDistance(c: Word)
    requires c & 0x1000 != 0
    ensures StandsFor(OffsetCJ(c) as nat, JumpDistance(c))
  {
  }

  lemma JumpDistanceStands(c: Word)
    ensures StandsFor(OffsetCJ(c) as nat, JumpDistance(c))
  {
    if c & 0x1000 == 0 {
      ForwardDistance(c);
    } else {
      BackwardDistance(c);
    }
  }

  lemma BranchDistanceStands(c: Word)
    ensures StandsFor(OffsetCB(c) as nat, BranchDistance(c))
  {
  }

  lemma JRuns(c: Word, s: State) returns (offset: nat)
    requires c & 0xe003 == 0xa001
    ensures Expand(c).Expanded? && StandsFor(offset, JumpDistance(c)) && Ran(c, s) == Effect(CJ(offset), s)
  {
    assert Read(c) == CJ(OffsetCJ(c)) && Expand(c).Expanded?;
    ExpansionHasTheEffect(c, s);
    JumpDistanceStands(c);
    offset := OffsetCJ(c) as nat;
  }

  lemma JEffect(offset: nat, i: int, s: State, o: Outcome)
    requires StandsFor(offset, i) && o == Effect(CJ(offset), s)
    ensures GoesTo(o, s, s.pc + i)
  {
    ExtendedField(s.pc, offset, i);
  }

  // c.j moves the pc by an even number from -2048 to 2046.
  lemma JJumps(c: Word, s: State)
    requires c & 0xe003 == 0xa001
    ensures Expand(c).Expanded? && GoesTo(Ran(c, s), s, s.pc + JumpDistance(c))
  {
    var offset := JRuns(c, s);
    JEffect(offset, JumpDistance(c), s, Ran(c, s));
  }

  function Zero(zero: bool, r: nat, offset: nat): Short<nat> {
    if zero then CBeqz(r, offset) else CBnez(r, offset)
  }

  lemma BranchNumbers(c: Word) returns (offset: nat)
    requires c & 0xc003 == 0xc001
    ensures Expand(c).Expanded? && StandsFor(offset, BranchDistance(c))
    ensures ShortNumbers(Read(c)) == Zero(c & 0x2000 == 0, Bits9(c), offset)
  {
    assert Read(c) == if c & 0x2000 == 0 then CBeqz(High(c), OffsetCB(c)) else CBnez(High(c), OffsetCB(c));
    assert Expand(c).Expanded?;
    HighNumber(c);
    BranchDistanceStands(c);
    offset := OffsetCB(c) as nat;
  }

  lemma BranchRuns(c: Word, s: State) returns (offset: nat)
    requires c & 0xc003 == 0xc001
    ensures Expand(c).Expanded? && StandsFor(offset, BranchDistance(c))
    ensures Ran(c, s) == Effect(Zero(c & 0x2000 == 0, Bits9(c), offset), s)
  {
    offset := BranchNumbers(c);
    ExpansionHasTheEffect(c, s);
  }

  // The pc moves by i if the register is zero, or not zero, and by two otherwise.
  ghost predicate Branches(o: Outcome, s: State, zero: bool, r: nat, i: int) {
    GoesTo(o, s, s.pc + if (Get(s, r) == 0) == zero then i else 2)
  }

  lemma BranchEffect(zero: bool, r: nat, offset: nat, i: int, s: State, o: Outcome)
    requires StandsFor(offset, i) && o == Effect(Zero(zero, r, offset), s)
    ensures Branches(o, s, zero, r, i)
  {
    ExtendedField(s.pc, offset, i);
  }

  // The distance of a branch is an even number from -256 to 254.
  lemma BranchesGo(c: Word, s: State)
    requires c & 0xc003 == 0xc001
    ensures Expand(c).Expanded? && Branches(Ran(c, s), s, c & 0x2000 == 0, Bits9(c), BranchDistance(c))
  {
    var offset := BranchRuns(c, s);
    BranchEffect(c & 0x2000 == 0, Bits9(c), offset, BranchDistance(c), s, Ran(c, s));
  }

  lemma JrRuns(c: Word, s: State)
    requires c & 0xe07f == 0x8002 && c & 0xf80 != 0
    ensures !FloatingPoint(c) && Expand(c).Expanded?
    ensures Ran(c, s) == Effect(if c & 0x1000 == 0 then CJr(Bits11(c)) else CJalr(Bits11(c)), s)
  {
    assert Read(c) == if c & 0x1000 == 0 then CJr(FullRd(c)) else CJalr(FullRd(c));
    assert Expand(c).Expanded?;
    ExpansionHasTheEffect(c, s);
    RdNumber(c);
  }

  lemma JrEffects(r: nat, s: State)
    ensures GoesTo(Effect(CJr(r), s), s, Get(s, r) - Get(s, r) % 2)
    ensures Leaves(Effect(CJalr(r), s), s, 1, (s.pc + 2) % TWO64, Get(s, r) - Get(s, r) % 2)
  {
    SmallStays(Get(s, r) - Get(s, r) % 2);
    GetsAfterSet(s, 1, Wrap64(s.pc + 2), Get(s, r) - Get(s, r) % 2);
  }

  // c.jr goes to the register's address with its lowest bit cleared; c.jalr leaves
  // the address of the next instruction, two bytes on, in x1 as well.
  lemma RegisterJumpsGo(c: Word, s: State)
    requires c & 0xe07f == 0x8002 && c & 0xf80 != 0
    ensures !FloatingPoint(c) && Expand(c).Expanded?
    ensures var to := Get(s, Bits11(c)) - Get(s, Bits11(c)) % 2;
      if c & 0x1000 == 0 then GoesTo(Ran(c, s), s, to) else Leaves(Ran(c, s), s, 1, (s.pc + 2) % TWO64, to)
  {
    JrRuns(c, s);
    JrEffects(Bits11(c), s);
  }

  // c.ebreak stops at its own address.
  lemma EbreakStops(s: State)
    ensures !FloatingPoint(0x9002) && Expand(0x9002).Expanded?
    ensures Ran(0x9002, s) == Breakpoint(s.pc)
  {
    assert Read(0x9002) == CEbreak;
    ExpansionHasTheEffect(0x9002, s);
  }
}
