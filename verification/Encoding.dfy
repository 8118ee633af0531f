/**
  The instruction words the host writes into the program buffer, built as the
  macros of tb/dpi/fesvr/dtm.cc build them, and a decoder that reads them as
  sections 2.2 and 2.3 of the RISC-V User-Level ISA v2.2 lay out the I, S
  and SB formats.
*/
module Encoding {
  import opened Fields

  // ---------- The encoders ----------

  function ItypeImm(x: Word): Word {
    (x & 0xfff) << 20
  }

  function StypeImm(x: Word): Word {
    ((x & 0x1f) << 7) | (((x >> 5) & 0x7f) << 25)
  }

  function SbtypeImm(x: Word): Word {
    (((x >> 1) & 0xf) << 8) | (((x >> 5) & 0x3f) << 25) | (((x >> 11) & 1) << 7) | (((x >> 12) & 1) << 31)
  }

  function LoadWord(xlen: nat, dst: Word, base: Word, imm: Word): Word {
    (if xlen == 64 then 0x00003003 else 0x00002003) | (dst << 7) | (base << 15) | ItypeImm(imm)
  }

  function StoreWord(xlen: nat, src: Word, base: Word, imm: Word): Word {
    (if xlen == 64 then 0x00003023 else 0x00002023) | (src << 20) | (base << 15) | StypeImm(imm)
  }

  function BneWord(r1: Word, r2: Word, there: Word, here: Word): Word {
    0x1063 | (r1 << 15) | (r2 << 20) | SbtypeImm(there - here)
  }

  function AddiWord(dst: Word, src: Word, imm: Word): Word {
    0x13 | (dst << 7) | (src << 15) | ItypeImm(imm)
  }

  const EBREAK: Word := 0x00100073

  // ---------- The decoder ----------

  type Reg = r: nat | r < 32

  type Imm = i: int | -4096 <= i < 4096

  datatype Instr =
    | Load(width: nat, rd: Reg, base: Reg, imm: Imm)
    | Store(width: nat, src: Reg, base: Reg, imm: Imm)
    | Addi(rd: Reg, src: Reg, imm: Imm)
    | Bne(r1: Reg, r2: Reg, offset: Imm)
    | Ebreak
    | Unknown

  // The number a sign-extended word stands for.
  function Signed(x: Word): Imm
    requires SignedWithin(x, 0xfffff000)
  {
    if x & 0x80000000 == 0 then
      assert x < 4096;
      x as int
    else
      assert x >= 0xfffff000;
      x as int - 0x1_0000_0000
  }

  function Index(r: Word): Reg
    requires r < 32
  {
    r as nat
  }

  // Major opcode and funct3 together.
  function Decode(w: Word): (i: Instr)
    ensures i.Load? || i.Store? ==> i.width == 4 || i.width == 8
  {
    var op := w & 0x707f;
    if op == 0x2003 then Load(4, Index(Rd(w)), Index(Rs1(w)), Signed(ImmI(w)))
    else if op == 0x3003 then Load(8, Index(Rd(w)), Index(Rs1(w)), Signed(ImmI(w)))
    else if op == 0x2023 then Store(4, Index(Rs2(w)), Index(Rs1(w)), Signed(ImmS(w)))
    else if op == 0x3023 then Store(8, Index(Rs2(w)), Index(Rs1(w)), Signed(ImmS(w)))
    else if op == 0x13 then Addi(Index(Rd(w)), Index(Rs1(w)), Signed(ImmI(w)))
    else if op == 0x1063 then Bne(Index(Rs1(w)), Index(Rs2(w)), Signed(ImmB(w)))
    else if w == EBREAK then Ebreak
    else Unknown
  }

  // ---------- Decoding undoes encoding ----------

  predicate Signed12(x: Word) {
    SignedWithin(x, 0xfffff800)
  }

  lemma Extend12Undone(x: Word)
    requires Signed12(x)
    ensures Extend12(x & 0xfff) == x
  {
    if x & 0xfffff800 == 0 {
      assert (x & 0xfff) & 0x800 == 0 && x & 0xfff == x;
    } else {
      assert (x & 0xfff) & 0x800 != 0 && (x & 0xfff) | 0xfffff000 == x;
    }
  }

  lemma Extend13Undone(x: Word)
    requires SignedWithin(x, 0xfffff000)
    ensures Extend13(x & 0x1fff) == x
  {
    if x & 0xfffff000 == 0 {
      assert (x & 0x1fff) & 0x1000 == 0 && x & 0x1fff == x;
    } else {
      assert (x & 0x1fff) & 0x1000 != 0 && (x & 0x1fff) | 0xffffe000 == x;
    }
  }

  lemma PiecesIUndone(w: Word, imm: Word)
    requires w & 0xfff00000 == ItypeImm(imm)
    ensures PiecesI(w) == imm & 0xfff
  {
  }

  lemma PiecesSUndone(w: Word, imm: Word)
    requires w & 0xfe000f80 == StypeImm(imm)
    ensures PiecesS(w) == imm & 0xfff
  {
  }

  lemma PiecesBUndone(w: Word, imm: Word)
    requires w & 0xfe000f80 == SbtypeImm(imm) && imm & 1 == 0
    ensures PiecesB(w) == imm & 0x1fff
  {
  }

  // The fields of a word built from an opcode, two registers and an
  // immediate.
  lemma ItypeFields(w: Word, op: Word, dst: Word, src: Word, imm: Word)
    requires op & 0x707f == op && dst < 32 && src < 32
    requires w == op | (dst << 7) | (src << 15) | ItypeImm(imm)
    ensures w & 0x707f == op && Rd(w) == dst && Rs1(w) == src && w & 0xfff00000 == ItypeImm(imm)
  {
  }

  lemma StypeFields(w: Word, op: Word, src: Word, base: Word, imm: Word)
    requires op & 0x707f == op && src < 32 && base < 32
    requires w == op | (src << 20) | (base << 15) | StypeImm(imm)
    ensures w & 0x707f == op && Rs2(w) == src && Rs1(w) == base && w & 0xfe000f80 == StypeImm(imm)
  {
  }

  lemma SbtypeFields(w: Word, op: Word, r1: Word, r2: Word, imm: Word)
    requires op & 0x707f == op && r1 < 32 && r2 < 32
    requires w == op | (r1 << 15) | (r2 << 20) | SbtypeImm(imm)
    ensures w & 0x707f == op && Rs1(w) == r1 && Rs2(w) == r2 && w & 0xfe000f80 == SbtypeImm(imm)
  {
  }

  lemma ImmIUndone(w: Word, imm: Word)
    requires Signed12(imm) && w & 0xfff00000 == ItypeImm(imm)
    ensures ImmI(w) == imm
  {
    PiecesIUndone(w, imm);
    Extend12Undone(imm);
  }

  lemma ImmSUndone(w: Word, imm: Word)
    requires Signed12(imm) && w & 0xfe000f80 == StypeImm(imm)
    ensures ImmS(w) == imm
  {
    PiecesSUndone(w, imm);
    Extend12Undone(imm);
  }

  lemma ImmBUndone(w: Word, imm: Word)
    requires SignedWithin(imm, 0xfffff000) && imm & 1 == 0 && w & 0xfe000f80 == SbtypeImm(imm)
    ensures ImmB(w) == imm
  {
    PiecesBUndone(w, imm);
    Extend13Undone(imm);
  }

  lemma LoadDecoded(w: Word, op: Word, dst: Word, base: Word, imm: Word)
    requires op == 0x2003 || op == 0x3003
    requires dst < 32 && base < 32 && Signed12(imm)
    requires w == op | (dst << 7) | (base << 15) | ItypeImm(imm)
    ensures Decode(w) == Load(if op == 0x3003 then 8 else 4, Index(dst), Index(base), Signed(imm))
  {
    ItypeFields(w, op, dst, base, imm);
    ImmIUndone(w, imm);
  }

  lemma LoadRoundTrip(xlen: nat, dst: Word, base: Word, imm: Word)
    requires xlen == 32 || xlen == 64
    requires dst < 32 && base < 32 && Signed12(imm)
    ensures Decode(LoadWord(xlen, dst, base, imm)) == Load(xlen / 8, Index(dst), Index(base), Signed(imm))
  {
    var op := if xlen == 64 then 0x3003 else 0x2003;
    LoadDecoded(LoadWord(xlen, dst, base, imm), op, dst, base, imm);
  }

  lemma StoreDecoded(w: Word, op: Word, src: Word, base: Word, imm: Word)
    requires op == 0x2023 || op == 0x3023
    requires src < 32 && base < 32 && Signed12(imm)
    requires w == op | (src << 20) | (base << 15) | StypeImm(imm)
    ensures Decode(w) == Store(if op == 0x3023 then 8 else 4, Index(src), Index(base), Signed(imm))
  {
    StypeFields(w, op, src, base, imm);
    ImmSUndone(w, imm);
  }

  lemma StoreRoundTrip(xlen: nat, src: Word, base: Word, imm: Word)
    requires xlen == 32 || xlen == 64
    requires src < 32 && base < 32 && Signed12(imm)
    ensures Decode(StoreWord(xlen, src, base, imm)) == Store(xlen / 8, Index(src), Index(base), Signed(imm))
  {
    var op := if xlen == 64 then 0x3023 else 0x2023;
    StoreDecoded(StoreWord(xlen, src, base, imm), op, src, base, imm);
  }

  lemma AddiRoundTrip(dst: Word, src: Word, imm: Word)
    requires dst < 32 && src < 32 && Signed12(imm)
    ensures Decode(AddiWord(dst, src, imm)) == Addi(Index(dst), Index(src), Signed(imm))
  {
    var w := AddiWord(dst, src, imm);
    ItypeFields(w, 0x13, dst, src, imm);
    ImmIUndone(w, imm);
  }

  lemma BneDecoded(w: Word, r1: Word, r2: Word, offset: Word)
    requires r1 < 32 && r2 < 32
    requires SignedWithin(offset, 0xfffff000) && offset & 1 == 0
    requires w == 0x1063 | (r1 << 15) | (r2 << 20) | SbtypeImm(offset)
    ensures Decode(w) == Bne(Index(r1), Index(r2), Signed(offset))
  {
    SbtypeFields(w, 0x1063, r1, r2, offset);
    ImmBUndone(w, offset);
  }

  lemma BneRoundTrip(r1: Word, r2: Word, there: Word, here: Word)
    requires r1 < 32 && r2 < 32
    requires SignedWithin(there - here, 0xfffff000) && (there - here) & 1 == 0
    ensures Decode(BneWord(r1, r2, there, here)) == Bne(Index(r1), Index(r2), Signed(there - here))
  {
    BneDecoded(BneWord(r1, r2, there, here), r1, r2, there - here);
  }

  // The words of the chunk programs on S0 and S1 (x8 and x9), as an assembler
  // would make them: ld, sd, lw, sw, sd of x0, addi by 8 and by 4, and bne s0, s1
  // back by two instructions.
  lemma KnownWords()
    ensures LoadWord(64, 9, 8, 0) == 0x00043483 && LoadWord(32, 9, 8, 0) == 0x00042483
    ensures StoreWord(64, 9, 8, 0) == 0x00943023 && StoreWord(32, 9, 8, 0) == 0x00942023
    ensures StoreWord(64, 0, 8, 0) == 0x00043023 && StoreWord(32, 0, 8, 0) == 0x00042023
    ensures AddiWord(8, 8, 8) == 0x00840413 && AddiWord(8, 8, 4) == 0x00440413
    ensures BneWord(8, 9, 0, 8) == 0xfe941ce3
  {
  }
}
