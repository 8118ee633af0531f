/**
  The compressed decoder of src/compressed_decoder.sv, which turns a 16-bit
  encoding into the 32-bit instruction it stands for, against chapter 12 of the
  RISC-V User-Level ISA v2.2. Floating-point encodings are left out.
*/
module Compressed {
  import opened Fields
  import opened ShortForms

  // ---------- Decoding a 32-bit instruction ----------

  function Fill(w: Word, mask: Word): Word {
    if w & 0x80000000 == 0 then 0 else mask
  }

  // The immediates the other forms have, as src/decoder.sv takes them from the
  // word.
  function ImmU(w: Word): Word {
    w & 0xfffff000
  }

  function ImmJ(w: Word): Word {
    Fill(w, 0xfff00000) | (w & 0xff000) | ((w >> 9) & 0x800) | ((w >> 20) & 0x7fe)
  }

  function Decode(w: Word): Op<Word> {
    var op := w & 0x7f;
    var f3 := (w >> 12) & 7;
    var f7 := w >> 25;
    if op == 0x13 then
      if f3 == 0 then Immediate(Add, false, Rd(w), Rs1(w), ImmI(w))
      else if f3 == 4 then Immediate(Xor, false, Rd(w), Rs1(w), ImmI(w))
      else if f3 == 6 then Immediate(Or, false, Rd(w), Rs1(w), ImmI(w))
      else if f3 == 7 then Immediate(And, false, Rd(w), Rs1(w), ImmI(w))
      else if f3 == 1 && f7 & 0x7e == 0 then Immediate(Sll, false, Rd(w), Rs1(w), (w >> 20) & 0x3f)
      else if f3 == 5 && f7 & 0x7e == 0 then Immediate(Srl, false, Rd(w), Rs1(w), (w >> 20) & 0x3f)
      else if f3 == 5 && f7 & 0x7e == 0x20 then Immediate(Sra, false, Rd(w), Rs1(w), (w >> 20) & 0x3f)
      else Unknown
    else if op == 0x1b then
      if f3 == 0 then Immediate(Add, true, Rd(w), Rs1(w), ImmI(w)) else Unknown
    else if op == 0x33 || op == 0x3b then
      if f3 == 0 && f7 == 0 then Register(Add, op == 0x3b, Rd(w), Rs1(w), Rs2(w))
      else if f3 == 0 && f7 == 0x20 then Register(Sub, op == 0x3b, Rd(w), Rs1(w), Rs2(w))
      else if f3 == 4 && f7 == 0 && op == 0x33 then Register(Xor, false, Rd(w), Rs1(w), Rs2(w))
      else if f3 == 6 && f7 == 0 && op == 0x33 then Register(Or, false, Rd(w), Rs1(w), Rs2(w))
      else if f3 == 7 && f7 == 0 && op == 0x33 then Register(And, false, Rd(w), Rs1(w), Rs2(w))
      else Unknown
    else if op == 0x37 then Lui(Rd(w), ImmU(w))
    else if op == 0x03 then
      if f3 == 2 then Load(4, Rd(w), Rs1(w), ImmI(w)) else if f3 == 3 then Load(8, Rd(w), Rs1(w), ImmI(w)) else Unknown
    else if op == 0x23 then
      if f3 == 2 then Store(4, Rs2(w), Rs1(w), ImmS(w)) else if f3 == 3 then Store(8, Rs2(w), Rs1(w), ImmS(w))
        else Unknown
    else if op == 0x6f then Jal(Rd(w), ImmJ(w))
    else if op == 0x67 then if f3 == 0 then Jalr(Rd(w), Rs1(w), ImmI(w)) else Unknown
    else if op == 0x63 then
      if f3 == 0 then Branch(false, Rs1(w), Rs2(w), ImmB(w))
        else if f3 == 1 then Branch(true, Rs1(w), Rs2(w), ImmB(w)) else Unknown
    else if w == 0x00100073 then Ebreak
    else Unknown
  }

  // ---------- Fields of a 16-bit encoding ----------

  // The sign of an immediate is bit 12 of the encoding.
  function Sign(c: Word, mask: Word): Word {
    if c & 0x1000 == 0 then 0 else mask
  }

  function Funct3(c: Word): Word {
    (c >> 13) & 7
  }

  function FullRd(c: Word): Word {
    (c >> 7) & 31
  }

  function FullRs2(c: Word): Word {
    (c >> 2) & 31
  }

  // The three-bit register fields name x8 to x15.
  function High(c: Word): Word {
    8 + ((c >> 7) & 7)
  }

  function Low(c: Word): Word {
    8 + ((c >> 2) & 7)
  }

  // ---------- The words the decoder puts together ----------

  // Each is a concatenation in the source; here every piece is moved to its
  // place and the constant pieces are gathered at the end.

  // c.addi4spn
  function Addi4spnWord(c: Word): Word {
    ((c << 19) & 0x3c000000) | ((c << 13) & 0x3000000) | ((c << 18) & 0x800000) | ((c << 16) & 0x400000) |
      ((c << 5) & 0x380) | 0x10413
  }

  // c.lw
  function LwWord(c: Word): Word {
    ((c << 21) & 0x4000000) | ((c << 13) & 0x3800000) | ((c << 16) & 0x400000) | ((c << 8) & 0x38000) |
      ((c << 5) & 0x380) | 0x42403
  }

  // c.ld
  function LdWord(c: Word): Word {
    ((c << 21) & 0xc000000) | ((c << 13) & 0x3800000) | ((c << 8) & 0x38000) | ((c << 5) & 0x380) | 0x43403
  }

  // c.sw
  function SwWord(c: Word): Word {
    ((c << 21) & 0x4000000) | ((c << 13) & 0x2000000) | ((c << 18) & 0x700000) | ((c << 8) & 0x38000) |
      (c & 0xc00) | ((c << 3) & 0x200) | 0x842023
  }

  // c.sd
  function SdWord(c: Word): Word {
    ((c << 21) & 0xc000000) | ((c << 13) & 0x2000000) | ((c << 18) & 0x700000) | ((c << 8) & 0x38000) |
      (c & 0xc00) | 0x843023
  }

  // c.addi and c.nop
  function AddiWord(c: Word): Word {
    Sign(c, 0xfc000000) | ((c << 13) & 0x2000000) | ((c << 18) & 0x1f00000) | ((c << 8) & 0xf8000) | (c & 0xf80) |
      0x13
  }

  // c.addiw
  function AddiwWord(c: Word): Word {
    Sign(c, 0xfc000000) | ((c << 13) & 0x2000000) | ((c << 18) & 0x1f00000) | ((c << 8) & 0xf8000) | (c & 0xf80) |
      0x1b
  }

  // c.li
  function LiWord(c: Word): Word {
    Sign(c, 0xfc000000) | ((c << 13) & 0x2000000) | ((c << 18) & 0x1f00000) | (c & 0xf80) | 0x13
  }

  // c.lui
  function LuiWord(c: Word): Word {
    Sign(c, 0xfffe0000) | ((c << 10) & 0x1f000) | (c & 0xf80) | 0x37
  }

  // c.addi16sp
  function Addi16spWord(c: Word): Word {
    Sign(c, 0xe0000000) | ((c << 24) & 0x18000000) | ((c << 21) & 0x4000000) | ((c << 23) & 0x2000000) |
      ((c << 18) & 0x1000000) | 0x10113
  }

  // c.srli and c.srai
  function ShiftRightWord(c: Word): Word {
    ((c << 20) & 0x40000000) | ((c << 13) & 0x2000000) | ((c << 18) & 0x1f00000) | ((c << 8) & 0x38000) |
      (c & 0x380) | 0x45413
  }

  // c.andi
  function AndiWord(c: Word): Word {
    Sign(c, 0xfc000000) | ((c << 13) & 0x2000000) | ((c << 18) & 0x1f00000) | ((c << 8) & 0x38000) | (c & 0x380) |
      0x47413
  }

  // c.sub
  function SubWord(c: Word): Word {
    ((c << 18) & 0x700000) | ((c << 8) & 0x38000) | (c & 0x380) | 0x40840433
  }

  // c.xor
  function XorWord(c: Word): Word {
    ((c << 18) & 0x700000) | ((c << 8) & 0x38000) | (c & 0x380) | 0x844433
  }

  // c.or
  function OrWord(c: Word): Word {
    ((c << 18) & 0x700000) | ((c << 8) & 0x38000) | (c & 0x380) | 0x846433
  }

  // c.and
  function AndWord(c: Word): Word {
    ((c << 18) & 0x700000) | ((c << 8) & 0x38000) | (c & 0x380) | 0x847433
  }

  // c.subw
  function SubwWord(c: Word): Word {
    ((c << 18) & 0x700000) | ((c << 8) & 0x38000) | (c & 0x380) | 0x4084043b
  }

  // c.addw
  function AddwWord(c: Word): Word {
    ((c << 18) & 0x700000) | ((c << 8) & 0x38000) | (c & 0x380) | 0x84043b
  }

  // c.j
  function JWord(c: Word): Word {
    Sign(c, 0x1ff000) | ((c << 19) & 0x80000000) | ((c << 22) & 0x40000000) | ((c << 19) & 0x30000000) |
      ((c << 21) & 0x8000000) | ((c << 19) & 0x4000000) | ((c << 23) & 0x2000000) | ((c << 13) & 0x1000000) |
      ((c << 18) & 0xe00000) | ((!c >> 8) & 0x80) | 0x6f
  }

  // c.beqz and c.bnez
  function BranchWord(c: Word): Word {
    Sign(c, 0xf0000000) | ((c << 21) & 0xc000000) | ((c << 23) & 0x2000000) | ((c << 8) & 0x38000) |
      ((c >> 1) & 0x1000) | (c & 0xc00) | ((c << 5) & 0x300) | ((c >> 5) & 0x80) | 0x40063
  }

  // c.slli
  function SlliWord(c: Word): Word {
    ((c << 13) & 0x2000000) | ((c << 18) & 0x1f00000) | ((c << 8) & 0xf8000) | (c & 0xf80) | 0x1013
  }

  // c.lwsp
  function LwspWord(c: Word): Word {
    ((c << 24) & 0xc000000) | ((c << 13) & 0x2000000) | ((c << 18) & 0x1c00000) | (c & 0xf80) | 0x12003
  }

  // c.ldsp
  function LdspWord(c: Word): Word {
    ((c << 24) & 0x1c000000) | ((c << 13) & 0x2000000) | ((c << 18) & 0x1800000) | (c & 0xf80) | 0x13003
  }

  // c.mv
  function MvWord(c: Word): Word {
    ((c << 18) & 0x1f00000) | (c & 0xf80) | 0x33
  }

  // c.jr
  function JrWord(c: Word): Word {
    ((c << 8) & 0xf8000) | 0x67
  }

  // c.add
  function AddWord(c: Word): Word {
    ((c << 18) & 0x1f00000) | ((c << 8) & 0xf8000) | (c & 0xf80) | 0x33
  }

  // c.jalr
  function JalrWord(c: Word): Word {
    ((c << 8) & 0xf8000) | 0xe7
  }

  // c.swsp
  function SwspWord(c: Word): Word {
    ((c << 19) & 0xc000000) | ((c << 13) & 0x2000000) | ((c << 18) & 0x1f00000) | (c & 0xe00) | 0x12023
  }

  // c.sdsp
  function SdspWord(c: Word): Word {
    ((c << 19) & 0x1c000000) | ((c << 13) & 0x2000000) | ((c << 18) & 0x1f00000) | (c & 0xc00) | 0x13023
  }

  // ---------- The decoder ----------

  datatype Expansion = Expanded(word: Word) | Illegal | NotCompressed

  predicate NoImmediate(c: Word) {
    c & 0x107c == 0
  }

  function Guarded(illegal: bool, word: Word): Expansion {
    if illegal then Illegal else Expanded(word)
  }

  function Quadrant0(c: Word): Expansion {
    var f := Funct3(c);
    if f == 0 then Guarded(c & 0x1fe0 == 0, Addi4spnWord(c))
    else if f == 2 then Expanded(LwWord(c))
    else if f == 3 then Expanded(LdWord(c))
    else if f == 6 then Expanded(SwWord(c))
    else if f == 7 then Expanded(SdWord(c))
    else Illegal
  }

  function MiscAlu(c: Word): Expansion {
    var kind := (c >> 10) & 3;
    var which := (c >> 5) & 3;
    if kind < 2 then Guarded(NoImmediate(c), ShiftRightWord(c))
    else if kind == 2 then Expanded(AndiWord(c))
    else if c & 0x1000 == 0 then
      Expanded(if which == 0 then SubWord(c) else if which == 1 then XorWord(c) else if which == 2 then OrWord(c)
        else AndWord(c))
    else if which == 0 then Expanded(SubwWord(c))
    else if which == 1 then Expanded(AddwWord(c))
    else Illegal
  }

  function Quadrant1(c: Word): Expansion {
    var f := Funct3(c);
    if f == 0 then Expanded(AddiWord(c))
    else if f == 1 then Guarded(FullRd(c) == 0, AddiwWord(c))
    else if f == 2 then Guarded(FullRd(c) == 0, LiWord(c))
    else if f == 3 then
      Guarded(FullRd(c) == 0 || NoImmediate(c), if FullRd(c) == 2 then Addi16spWord(c) else LuiWord(c))
    else if f == 4 then MiscAlu(c)
    else if f == 5 then Expanded(JWord(c))
    else Expanded(BranchWord(c))
  }

  function Quadrant2(c: Word): Expansion {
    var f := Funct3(c);
    if f == 0 then Guarded(FullRd(c) == 0 || NoImmediate(c), SlliWord(c))
    else if f == 2 then Guarded(FullRd(c) == 0, LwspWord(c))
    else if f == 3 then Guarded(FullRd(c) == 0, LdspWord(c))
    else if f == 4 then
      if c & 0x1000 == 0 then
        if FullRs2(c) == 0 then Guarded(FullRd(c) == 0, JrWord(c)) else Expanded(MvWord(c))
      else if FullRd(c) == 0 then Guarded(FullRs2(c) != 0, 0x00100073)
      else if FullRs2(c) == 0 then Expanded(JalrWord(c))
      else Expanded(AddWord(c))
    else if f == 6 then Expanded(SwspWord(c))
    else if f == 7 then Expanded(SdspWord(c))
    else Illegal
  }

  // The floating-point loads and stores of quadrants 0 and 2.
  predicate FloatingPoint(c: Word) {
    (c & 3 == 0 || c & 3 == 2) && (Funct3(c) == 1 || Funct3(c) == 5)
  }

  // Whether the pc moves on by two: the flag that goes with the expansion.
  predicate IsCompressed(c: Word) {
    c & 3 != 3
  }

  function Expand(c: Word): Expansion
    requires !FloatingPoint(c)
  {
    if c & 3 == 0 then Quadrant0(c)
    else if c & 3 == 1 then Quadrant1(c)
    else if c & 3 == 2 then Quadrant2(c)
    else NotCompressed
  }

  // ---------- Chapter 12 of the ISA ----------

  function ImmCI(c: Word): Word {
    Sign(c, 0xffffffe0) | ((c >> 2) & 0x1f)
  }

  function Shamt(c: Word): Word {
    ((c >> 7) & 0x20) | ((c >> 2) & 0x1f)
  }

  function ImmCIW(c: Word): Word {
    ((c >> 7) & 0x30) | ((c >> 1) & 0x3c0) | ((c >> 4) & 4) | ((c >> 2) & 8)
  }

  function ImmLui(c: Word): Word {
    Sign(c, 0xfffe0000) | ((c << 10) & 0x1f000)
  }

  function ImmAddi16sp(c: Word): Word {
    Sign(c, 0xfffffe00) | ((c >> 2) & 0x10) | ((c << 1) & 0x40) | ((c << 4) & 0x180) | ((c << 3) & 0x20)
  }

  function OffsetCJ(c: Word): Word {
    Sign(c, 0xfffff800) | ((c >> 7) & 0x10) | ((c >> 1) & 0x300) | ((c << 2) & 0x400) | ((c >> 1) & 0x40) |
      ((c << 1) & 0x80) | ((c >> 2) & 0xe) | ((c << 3) & 0x20)
  }

  function OffsetCB(c: Word): Word {
    Sign(c, 0xffffff00) | ((c >> 7) & 0x18) | ((c << 1) & 0xc0) | ((c >> 2) & 6) | ((c << 3) & 0x20)
  }

  function OffsetWord(c: Word): Word {
    ((c >> 7) & 0x38) | ((c >> 4) & 4) | ((c << 1) & 0x40)
  }

  function OffsetDouble(c: Word): Word {
    ((c >> 7) & 0x38) | ((c << 1) & 0xc0)
  }

  function OffsetLwsp(c: Word): Word {
    ((c >> 7) & 0x20) | ((c >> 2) & 0x1c) | ((c << 4) & 0xc0)
  }

  function OffsetLdsp(c: Word): Word {
    ((c >> 7) & 0x20) | ((c >> 2) & 0x18) | ((c << 4) & 0x1c0)
  }

  function OffsetSwsp(c: Word): Word {
    ((c >> 7) & 0x3c) | ((c >> 1) & 0xc0)
  }

  function OffsetSdsp(c: Word): Word {
    ((c >> 7) & 0x38) | ((c >> 1) & 0x1c0)
  }

  // Quadrant 0: loads, stores and addi4spn.
  function Read0(c: Word): Short<Word> {
    var f := Funct3(c);
    if f == 0 then CAddi4spn(Low(c), ImmCIW(c))
    else if f == 2 then CLoad(4, Low(c), High(c), OffsetWord(c))
    else if f == 3 then CLoad(8, Low(c), High(c), OffsetDouble(c))
    else if f == 6 then CStore(4, Low(c), High(c), OffsetWord(c))
    else if f == 7 then CStore(8, Low(c), High(c), OffsetDouble(c))
    else NotDefined
  }

  function ReadAlu(c: Word): Short<Word> {
    var kind := (c >> 10) & 3;
    var which := (c >> 5) & 3;
    if kind == 0 then CSrli(High(c), Shamt(c))
    else if kind == 1 then CSrai(High(c), Shamt(c))
    else if kind == 2 then CAndi(High(c), ImmCI(c))
    else if c & 0x1000 == 0 then
      CAlu(if which == 0 then Sub else if which == 1 then Xor else if which == 2 then Or
        else And, false, High(c), Low(c))
    else if which == 0 then CAlu(Sub, true, High(c), Low(c))
    else if which == 1 then CAlu(Add, true, High(c), Low(c))
    else NotDefined
  }

  // Quadrant 1: constants, arithmetic, jumps and branches.
  function Read1(c: Word): Short<Word> {
    var f := Funct3(c);
    if f == 0 then CAddi(FullRd(c), ImmCI(c))
    else if f == 1 then CAddiw(FullRd(c), ImmCI(c))
    else if f == 2 then CLi(FullRd(c), ImmCI(c))
    else if f == 3 then
      if FullRd(c) == 2 then CAddi16sp(ImmAddi16sp(c)) else CLui(FullRd(c), ImmLui(c))
    else if f == 4 then ReadAlu(c)
    else if f == 5 then CJ(OffsetCJ(c))
    else if f == 6 then CBeqz(High(c), OffsetCB(c))
    else CBnez(High(c), OffsetCB(c))
  }

  // Quadrant 2: stack-pointer-relative accesses, moves, and register jumps.
  function Read2(c: Word): Short<Word> {
    var f := Funct3(c);
    if f == 0 then CSlli(FullRd(c), Shamt(c))
    else if f == 2 then CLoad(4, FullRd(c), 2, OffsetLwsp(c))
    else if f == 3 then CLoad(8, FullRd(c), 2, OffsetLdsp(c))
    else if f == 4 then
      if c & 0x1000 == 0 then
        if FullRs2(c) == 0 then CJr(FullRd(c)) else CMv(FullRd(c), FullRs2(c))
      else if FullRs2(c) != 0 then CAdd(FullRd(c), FullRs2(c))
      else if FullRd(c) == 0 then CEbreak
      else CJalr(FullRd(c))
    else if f == 6 then CStore(4, FullRs2(c), 2, OffsetSwsp(c))
    else if f == 7 then CStore(8, FullRs2(c), 2, OffsetSdsp(c))
    else NotDefined
  }

  // ---------- The expansion means the same ----------

  lemma Addi4spnMeans(c: Word)
    ensures Decode(Addi4spnWord(c)) == Immediate(Add, false, Low(c), 2, ImmCIW(c))
  {
  }

  lemma LwMeans(c: Word)
    ensures Decode(LwWord(c)) == Load(4, Low(c), High(c), OffsetWord(c))
  {
  }

  lemma LdMeans(c: Word)
    ensures Decode(LdWord(c)) == Load(8, Low(c), High(c), OffsetDouble(c))
  {
  }

  lemma SwMeans(c: Word)
    ensures Decode(SwWord(c)) == Store(4, Low(c), High(c), OffsetWord(c))
  {
  }

  lemma SdMeans(c: Word)
    ensures Decode(SdWord(c)) == Store(8, Low(c), High(c), OffsetDouble(c))
  {
  }

  lemma AddiMeans(c: Word)
    ensures Decode(AddiWord(c)) == Immediate(Add, false, FullRd(c), FullRd(c), ImmCI(c))
  {
  }

  lemma AddiwMeans(c: Word)
    ensures Decode(AddiwWord(c)) == Immediate(Add, true, FullRd(c), FullRd(c), ImmCI(c))
  {
  }

  lemma LiMeans(c: Word)
    ensures Decode(LiWord(c)) == Immediate(Add, false, FullRd(c), 0, ImmCI(c))
  {
  }

  lemma LuiMeans(c: Word)
    ensures Decode(LuiWord(c)) == Lui(FullRd(c), ImmLui(c))
  {
  }

  lemma Addi16spMeans(c: Word)
    ensures Decode(Addi16spWord(c)) == Immediate(Add, false, 2, 2, ImmAddi16sp(c))
  {
  }

  lemma ShiftRightMeans(c: Word)
    requires (c >> 10) & 3 < 2
    ensures Decode(ShiftRightWord(c))
         == Immediate(if (c >> 10) & 3 == 0 then Srl else Sra, false, High(c), High(c), Shamt(c))
  {
  }

  lemma AndiMeans(c: Word)
    ensures Decode(AndiWord(c)) == Immediate(And, false, High(c), High(c), ImmCI(c))
  {
  }

  lemma SubMeans(c: Word)
    ensures Decode(SubWord(c)) == Register(Sub, false, High(c), High(c), Low(c))
  {
  }

  lemma XorMeans(c: Word)
    ensures Decode(XorWord(c)) == Register(Xor, false, High(c), High(c), Low(c))
  {
  }

  lemma OrMeans(c: Word)
    ensures Decode(OrWord(c)) == Register(Or, false, High(c), High(c), Low(c))
  {
  }

  lemma AndMeans(c: Word)
    ensures Decode(AndWord(c)) == Register(And, false, High(c), High(c), Low(c))
  {
  }

  lemma SubwMeans(c: Word)
    ensures Decode(SubwWord(c)) == Register(Sub, true, High(c), High(c), Low(c))
  {
  }

  lemma AddwMeans(c: Word)
    ensures Decode(AddwWord(c)) == Register(Add, true, High(c), High(c), Low(c))
  {
  }

  lemma JFields(c: Word)
    requires Funct3(c) == 5
    ensures JWord(c) & 0x7f == 0x6f && Rd(JWord(c)) == 0
  {
  }

  lemma JForward(c: Word)
    requires c & 0x1000 == 0
    ensures JWord(c) & 0x80000000 == 0 && ImmJ(JWord(c)) == OffsetCJ(c)
  {
  }

  lemma JBackward(c: Word)
    requires c & 0x1000 != 0
    ensures JWord(c) & 0x80000000 != 0 && ImmJ(JWord(c)) == OffsetCJ(c)
  {
  }

  lemma JMeans(c: Word)
    requires Funct3(c) == 5
    ensures Decode(JWord(c)) == Jal(0, OffsetCJ(c))
  {
    JFields(c);
    if c & 0x1000 == 0 {
      JForward(c);
    } else {
      JBackward(c);
    }
  }

  lemma BranchFields(c: Word)
    requires Funct3(c) == 6 || Funct3(c) == 7
    ensures var w := BranchWord(c);
            && w & 0x7f == 0x63 && (w >> 12) & 7 == Funct3(c) - 6 && Rs1(w) == High(c) && Rs2(w) == 0
  {
  }

  lemma BranchOffset(c: Word)
    ensures ImmB(BranchWord(c)) == OffsetCB(c)
  {
    if c & 0x1000 == 0 {
      assert BranchWord(c) & 0x80000000 == 0;
    } else {
      assert BranchWord(c) & 0x80000000 != 0;
    }
  }

  lemma BranchMeans(c: Word)
    requires Funct3(c) == 6 || Funct3(c) == 7
    ensures Decode(BranchWord(c)) == Branch(Funct3(c) == 7, High(c), 0, OffsetCB(c))
  {
    BranchFields(c);
    BranchOffset(c);
  }

  lemma SlliMeans(c: Word)
    ensures Decode(SlliWord(c)) == Immediate(Sll, false, FullRd(c), FullRd(c), Shamt(c))
  {
  }

  lemma LwspMeans(c: Word)
    ensures Decode(LwspWord(c)) == Load(4, FullRd(c), 2, OffsetLwsp(c))
  {
  }

  lemma LdspMeans(c: Word)
    ensures Decode(LdspWord(c)) == Load(8, FullRd(c), 2, OffsetLdsp(c))
  {
  }

  lemma MvMeans(c: Word)
    ensures Decode(MvWord(c)) == Register(Add, false, FullRd(c), 0, FullRs2(c))
  {
  }

  lemma JrMeans(c: Word)
    ensures Decode(JrWord(c)) == Jalr(0, FullRd(c), 0)
  {
  }

  lemma AddMeans(c: Word)
    ensures Decode(AddWord(c)) == Register(Add, false, FullRd(c), FullRd(c), FullRs2(c))
  {
  }

  lemma JalrMeans(c: Word)
    ensures Decode(JalrWord(c)) == Jalr(1, FullRd(c), 0)
  {
  }

  lemma SwspMeans(c: Word)
    ensures Decode(SwspWord(c)) == Store(4, FullRs2(c), 2, OffsetSwsp(c))
  {
  }

  lemma SdspMeans(c: Word)
    ensures Decode(SdspWord(c)) == Store(8, FullRs2(c), 2, OffsetSdsp(c))
  {
  }

  lemma Quadrant0Means(c: Word)
    ensures Quadrant0(c).Expanded? ==> Decode(Quadrant0(c).word) == Long(Read0(c), 0, 1, 2)
  {
    Addi4spnMeans(c);
    LwMeans(c);
    LdMeans(c);
    SwMeans(c);
    SdMeans(c);
  }

  lemma MiscAluMeans(c: Word)
    ensures MiscAlu(c).Expanded? ==> Decode(MiscAlu(c).word) == Long(ReadAlu(c), 0, 1, 2)
  {
    if (c >> 10) & 3 < 2 {
      ShiftRightMeans(c);
    } else if (c >> 10) & 3 == 2 {
      AndiMeans(c);
    } else {
      RegisterAluMeans(c);
    }
  }

  lemma RegisterAluMeans(c: Word)
    requires (c >> 10) & 3 == 3
    ensures MiscAlu(c).Expanded? ==> Decode(MiscAlu(c).word) == Long(ReadAlu(c), 0, 1, 2)
  {
    SubMeans(c);
    XorMeans(c);
    OrMeans(c);
    AndMeans(c);
    SubwMeans(c);
    AddwMeans(c);
  }

  lemma SmallConstantsMean(c: Word)
    requires Funct3(c) == 2
    ensures Quadrant1(c).Expanded? ==> Decode(Quadrant1(c).word) == Long(Read1(c), 0, 1, 2)
  {
    LiMeans(c);
  }

  lemma ArithmeticMeans(c: Word)
    requires Funct3(c) == 4
    ensures Quadrant1(c).Expanded? ==> Decode(Quadrant1(c).word) == Long(Read1(c), 0, 1, 2)
  {
    MiscAluMeans(c);
  }

  lemma JumpsMean(c: Word)
    requires Funct3(c) >= 5
    ensures Quadrant1(c).Expanded? ==> Decode(Quadrant1(c).word) == Long(Read1(c), 0, 1, 2)
  {
    if Funct3(c) == 5 {
      JMeans(c);
    } else {
      BranchMeans(c);
    }
  }

  lemma LargeConstantsMean(c: Word)
    requires Funct3(c) == 3
    ensures Quadrant1(c).Expanded? ==> Decode(Quadrant1(c).word) == Long(Read1(c), 0, 1, 2)
  {
    if FullRd(c) == 2 {
      Addi16spMeans(c);
    } else {
      LuiMeans(c);
    }
  }

  lemma Quadrant1Means(c: Word)
    ensures Quadrant1(c).Expanded? ==> Decode(Quadrant1(c).word) == Long(Read1(c), 0, 1, 2)
  {
    var f := Funct3(c);
    if f == 0 {
      AddiMeans(c);
    } else if f == 1 {
      AddiwMeans(c);
    } else if f == 2 {
      SmallConstantsMean(c);
    } else if f == 3 {
      LargeConstantsMean(c);
    } else if f == 4 {
      ArithmeticMeans(c);
    } else {
      JumpsMean(c);
    }
  }

  lemma EbreakMeans()
    ensures Decode(0x00100073) == Ebreak
  {
  }

  lemma RegisterJumpsMean(c: Word)
    requires Funct3(c) == 4
    ensures Quadrant2(c).Expanded? ==> Decode(Quadrant2(c).word) == Long(Read2(c), 0, 1, 2)
  {
    if c & 0x1000 == 0 {
      if FullRs2(c) == 0 {
        JrMeans(c);
      } else {
        MvMeans(c);
      }
    } else if FullRs2(c) != 0 {
      AddMeans(c);
    } else if FullRd(c) != 0 {
      JalrMeans(c);
    } else {
      EbreakMeans();
    }
  }

  lemma Quadrant2Means(c: Word)
    ensures Quadrant2(c).Expanded? ==> Decode(Quadrant2(c).word) == Long(Read2(c), 0, 1, 2)
  {
    var f := Funct3(c);
    if f == 0 {
      SlliMeans(c);
    } else if f == 2 {
      LwspMeans(c);
    } else if f == 3 {
      LdspMeans(c);
    } else if f == 4 {
      RegisterJumpsMean(c);
    } else if f == 6 {
      SwspMeans(c);
    } else if f == 7 {
      SdspMeans(c);
    }
  }

  function Read(c: Word): Short<Word> {
    if c & 3 == 0 then Read0(c) else if c & 3 == 1 then Read1(c) else Read2(c)
  }

  // Whatever integer encoding the decoder does not flag, the instruction it
  // puts out is the one chapter 12 says the encoding stands for. What it does to
  // registers, memory and the pc is the subject of module CompressedEffect.
  lemma ExpansionMeansTheSame(c: Word)
    requires !FloatingPoint(c)
    ensures Expand(c).Expanded? ==> Decode(Expand(c).word) == Long(Read(c), 0, 1, 2)
  {
    if c & 3 == 0 {
      Quadrant0Means(c);
    } else if c & 3 == 1 {
      Quadrant1Means(c);
    } else if c & 3 == 2 {
      Quadrant2Means(c);
    }
  }

  // Chapter 12 reserves these; executing them must not be relied on.
  predicate Reserved(c: Word) {
    if c & 3 == 0 then Funct3(c) == 4 || (Funct3(c) == 0 && c & 0x1fe0 == 0)
    else if c & 3 == 1 then
      || (Funct3(c) == 1 && FullRd(c) == 0)
      || (Funct3(c) == 3 && NoImmediate(c))
      || (Funct3(c) == 4 && c & 0x1c40 == 0x1c40)
    else
      || ((Funct3(c) == 2 || Funct3(c) == 3) && FullRd(c) == 0)
      || (Funct3(c) == 4 && c & 0x1ffc == 0)
  }

  // The hints that are flagged although chapter 12 lets them pass: an
  // instruction that would write register 0, or a shift by 0.
  predicate RefusedHint(c: Word) {
    if c & 3 == 1 then
      || ((Funct3(c) == 2 || Funct3(c) == 3) && FullRd(c) == 0)
      || (Funct3(c) == 4 && c & 0x800 == 0 && NoImmediate(c))
    else
      c & 3 == 2 &&
      (|| (Funct3(c) == 0 && (FullRd(c) == 0 || NoImmediate(c)))
       || (Funct3(c) == 4 && c & 0x1000 != 0 && FullRd(c) == 0 && FullRs2(c) != 0))
  }

  lemma IllegalIsReservedOrHint(c: Word)
    requires !FloatingPoint(c) && c & 3 != 3
    ensures Expand(c) == Illegal <==> Reserved(c) || RefusedHint(c)
  {
  }
}
