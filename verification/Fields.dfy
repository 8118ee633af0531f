/**
  The fields of a 32-bit instruction word, as sections 2.2 and 2.3 of the RISC-V
  User-Level ISA v2.2 lay them out: registers, and the I, S and B immediates.
*/
module Fields {

  type Word = bv32

  function Rd(w: Word): Word {
    (w >> 7) & 31
  }

  function Rs1(w: Word): Word {
    (w >> 15) & 31
  }

  function Rs2(w: Word): Word {
    (w >> 20) & 31
  }

  // x is the sign extension of its low bits: all the bits in `high` agree.
  predicate SignedWithin(x: Word, high: Word) {
    x & high == 0 || x & high == high
  }

  // The immediates of figure 2.3, put together from their pieces and then
  // sign-extended from their top bit.
  function Extend12(x: Word): Word {
    if x & 0x800 == 0 then x else x | 0xfffff000
  }

  function Extend13(x: Word): Word {
    if x & 0x1000 == 0 then x else x | 0xffffe000
  }

  function PiecesI(w: Word): Word {
    w >> 20
  }

  function PiecesS(w: Word): Word {
    ((w >> 20) & 0xfe0) | ((w >> 7) & 0x1f)
  }

  function PiecesB(w: Word): Word {
    ((w >> 19) & 0x1000) | ((w << 4) & 0x800) | ((w >> 20) & 0x7e0) | ((w >> 7) & 0x1e)
  }

  function ImmI(w: Word): (r: Word)
    ensures SignedWithin(r, 0xfffff000)
  {
    Extend12(PiecesI(w))
  }

  function ImmS(w: Word): (r: Word)
    ensures SignedWithin(r, 0xfffff000)
  {
    Extend12(PiecesS(w))
  }

  function ImmB(w: Word): (r: Word)
    ensures SignedWithin(r, 0xfffff000)
  {
    Extend13(PiecesB(w))
  }
}
