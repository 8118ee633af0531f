/**
  The integer instructions the compressed decoder deals with: the 32-bit ones it
  puts out, the compressed ones as chapter 12 of the RISC-V User-Level ISA v2.2
  lists them, and the 32-bit instruction that chapter gives for each.
*/
module ShortForms {

  datatype AluOp = Add | Sub | Sll | Srl | Sra | Xor | Or | And

  // An integer instruction: its registers and its immediate, sign-extended. The
  // fields are numbers or bit vectors.
  datatype Op<W> =
    | Immediate(f: AluOp, narrow: bool, rd: W, rs1: W, imm: W)
    | Register(f: AluOp, narrow: bool, rd: W, rs1: W, rs2: W)
    | Lui(rd: W, imm: W)
    | Load(size: nat, rd: W, base: W, imm: W)
    | Store(size: nat, src: W, base: W, imm: W)
    | Jal(rd: W, offset: W)
    | Jalr(rd: W, base: W, imm: W)
    | Branch(ne: bool, rs1: W, rs2: W, offset: W)
    | Ebreak
    | Unknown

  // A compressed instruction with its registers and immediate, as chapter 12
  // lists them.
  datatype Short<W> =
    | CAddi4spn(rd: W, imm: W) | CLoad(size: nat, rd: W, base: W, offset: W)
    | CStore(size: nat, src: W, base: W, offset: W)
    | CAddi(rd: W, imm: W) | CAddiw(rd: W, imm: W) | CLi(rd: W, imm: W) | CLui(rd: W, imm: W)
    | CAddi16sp(imm: W) | CSlli(rd: W, shamt: W) | CSrli(rd: W, shamt: W) | CSrai(rd: W, shamt: W)
    | CAndi(rd: W, imm: W) | CAlu(f: AluOp, narrow: bool, rd: W, rs2: W)
    | CMv(rd: W, rs2: W) | CAdd(rd: W, rs2: W)
    | CJ(offset: W) | CJr(rs1: W) | CJalr(rs1: W) | CBeqz(rs1: W, offset: W) | CBnez(rs1: W, offset: W)
    | CEbreak | NotDefined

  // The 32-bit instruction chapter 12 gives for each, in terms of the registers
  // zero, ra and sp.
  function Long<W>(i: Short<W>, zero: W, ra: W, sp: W): Op<W> {
    match i
    case CAddi4spn(rd, imm) => Immediate(Add, false, rd, sp, imm)
    case CLoad(size, rd, base, offset) => Load(size, rd, base, offset)
    case CStore(size, src, base, offset) => Store(size, src, base, offset)
    case CAddi(rd, imm) => Immediate(Add, false, rd, rd, imm)
    case CAddiw(rd, imm) => Immediate(Add, true, rd, rd, imm)
    case CLi(rd, imm) => Immediate(Add, false, rd, zero, imm)
    case CLui(rd, imm) => Lui(rd, imm)
    case CAddi16sp(imm) => Immediate(Add, false, sp, sp, imm)
    case CSlli(rd, shamt) => Immediate(Sll, false, rd, rd, shamt)
    case CSrli(rd, shamt) => Immediate(Srl, false, rd, rd, shamt)
    case CSrai(rd, shamt) => Immediate(Sra, false, rd, rd, shamt)
    case CAndi(rd, imm) => Immediate(And, false, rd, rd, imm)
    case CAlu(f, narrow, rd, rs2) => Register(f, narrow, rd, rd, rs2)
    case CMv(rd, rs2) => Register(Add, false, rd, zero, rs2)
    case CAdd(rd, rs2) => Register(Add, false, rd, rd, rs2)
    case CJ(offset) => Jal(zero, offset)
    case CJr(rs1) => Jalr(zero, rs1, zero)
    case CJalr(rs1) => Jalr(ra, rs1, zero)
    case CBeqz(rs1, offset) => Branch(false, rs1, zero, offset)
    case CBnez(rs1, offset) => Branch(true, rs1, zero, offset)
    case CEbreak => Ebreak
    case NotDefined => Unknown
  }
}
