/**
  The serial divider of src/serdiv.sv: a restoring divider that aligns the
  divisor with the dividend by leading-zero counts, subtracts and shifts once
  a cycle, and works on operands that share the divisor's sign.

  The class holds the registers. What a user of the unit sees is the far
  simpler machine over Job below; every clock step of the registers is a step
  of that machine, and the result that comes out is the one of the RISC-V
  division table (section 6.2 of the RISC-V User-Level ISA v2.2).
*/
module SerialDivider {
  import opened Bits

  datatype Opcode = Opcode(signed: bool, rem: bool)  // opcode_i[0], opcode_i[1]

  datatype Op = Op(code: Opcode, a: nat, b: nat, id: nat)

  datatype Input = Input(op: Op, valid: bool, flush: bool, outReady: bool)

  datatype Output = Output(inReady: bool, outValid: bool, id: nat, res: nat)

  ghost predicate Fits(w: nat, op: Op) {
    w >= 2 && op.a < Pow2(w) && op.b < Pow2(w)
  }

  // ---------- The division table ----------

  function Abs(x: int): nat {
    if x < 0 then -x else x
  }

  // Division rounding towards zero.
  function TruncDiv(x: int, y: int): int
    requires y != 0
  {
    var q := Abs(x) / Abs(y);
    if (x < 0) == (y < 0) then q else -q
  }

  function TruncRem(x: int, y: int): int
    requires y != 0
  {
    x - y * TruncDiv(x, y)
  }

  // Division by zero yields all ones and the dividend; a signed quotient that
  // does not fit wraps.
  function Reference(w: nat, op: Op): nat
    requires w > 0
  {
    if op.b == 0 then
      if op.code.rem then op.a else Pow2(w) - 1
    else if !op.code.signed then
      if op.code.rem then op.a % op.b else op.a / op.b
    else
      var x, y := Signed(w, op.a), Signed(w, op.b);
      if y == 0 then 0 else Wrap(w, if op.code.rem then TruncRem(x, y) else TruncDiv(x, y))
  }

  // The one pair the unit gets wrong: a signed dividend of -1 leaves nothing
  // for the leading-zero counter to see, so division by 1 ends early.
  predicate MinusOneByOne(w: nat, op: Op) {
    op.code.signed && op.a == Pow2(w) - 1 && op.b == 1
  }

  // What the unit returns, for every operation.
  function Result(w: nat, op: Op): nat
    requires w > 0
  {
    if MinusOneByOne(w, op) then
      if op.code.rem then Pow2(w) - 1 else 0
    else
      Reference(w, op)
  }

  lemma ResultIsReference(w: nat, op: Op)
    requires Fits(w, op)
    ensures Result(w, op) == Reference(w, op) <==> !MinusOneByOne(w, op)
  {
    if MinusOneByOne(w, op) {
      Pow2Mono(1, w - 1);
      assert Signed(w, op.a) == -1 && Signed(w, op.b) == 1;
      assert TruncDiv(-1, 1) == -1 && TruncRem(-1, 1) == 0;
      WrapNegative(w, -1);
      WrapIn(w, 0);
    }
  }

  // The overflow row of the table: the most negative number divided by -1.
  lemma SignedOverflowRow(w: nat, rem: bool)
    requires w >= 2
    ensures Reference(w, Op(Opcode(true, rem), Pow2(w - 1), Pow2(w) - 1, 0)) == if rem then 0 else Pow2(w - 1)
  {
    var h: int := Pow2(w - 1);
    Pow2Mono(1, w - 1);
    assert Signed(w, h) == 0 - h && Signed(w, Pow2(w) - 1) == -1;
    assert TruncDiv(0 - h, -1) == h;
    WrapIn(w, h);
    WrapIn(w, 0);
  }

  // Quotient and remainder recombine to the dividend, and the remainder takes
  // the dividend's sign and stays below the divisor.
  lemma TruncDivision(x: int, y: int)
    requires y != 0
    ensures x == y * TruncDiv(x, y) + TruncRem(x, y)
    ensures Abs(TruncRem(x, y)) == Abs(x) % Abs(y)
    ensures TruncRem(x, y) != 0 ==> (TruncRem(x, y) < 0 <==> x < 0)
  {
    var q, r := Abs(x) / Abs(y), Abs(x) % Abs(y);
    assert Abs(x) == q * Abs(y) + r;
    var t := TruncDiv(x, y);
    assert y * t == if x < 0 then -(q * Abs(y)) else q * Abs(y) by {
      if (x < 0) == (y < 0) {
        assert y * q == if y < 0 then -(Abs(y) * q) else Abs(y) * q;
      } else {
        assert y * -q == -(y * q);
        assert y * q == if y < 0 then -(Abs(y) * q) else Abs(y) * q;
      }
    }
  }

  // ---------- Alignment ----------

  predicate NegA(w: nat, op: Op)
    requires w > 0
  {
    op.code.signed && op.a >= Pow2(w - 1)
  }

  predicate NegB(w: nat, op: Op)
    requires w > 0
  {
    op.code.signed && op.b >= Pow2(w - 1)
  }

  // What the two leading-zero counters look at.
  function LzcInputA(w: nat, op: Op): nat
    requires w > 0 && op.a < Pow2(w)
  {
    if NegA(w, op) then (2 * (Pow2(w) - 1 - op.a)) % Pow2(w) else op.a
  }

  function LzcInputB(w: nat, op: Op): nat
    requires w > 0 && op.b < Pow2(w)
  {
    if NegB(w, op) then Pow2(w) - 1 - op.b else op.b
  }

  // How far the divisor moves left; also the number of further iterations.
  // Negative means the quotient is taken to be zero at once.
  function DivShift(w: nat, op: Op): int
    requires w > 0 && op.a < Pow2(w) && op.b < Pow2(w)
  {
    var shiftA := if LzcInputA(w, op) == 0 then w else w - BitLen(LzcInputA(w, op));
    if LzcInputB(w, op) == 0 then w else w - BitLen(LzcInputB(w, op)) - shiftA
  }

  // Magnitudes of the operands.
  ghost function Dividend(w: nat, op: Op): nat
    requires Fits(w, op)
  {
    if NegA(w, op) then Pow2(w) - op.a else op.a
  }

  ghost function Divisor(w: nat, op: Op): nat
    requires Fits(w, op)
  {
    if NegB(w, op) then Pow2(w) - op.b else op.b
  }

  lemma DividendLength(w: nat, op: Op)
    requires Fits(w, op)
    ensures BitLen(LzcInputA(w, op)) <= w
    ensures Dividend(w, op) < Pow2(BitLen(LzcInputA(w, op)))
         || (NegA(w, op) && Dividend(w, op) == 1 && LzcInputA(w, op) == 0)
  {
    if NegA(w, op) {
      var c := Pow2(w) - 1 - op.a;
      assert 2 * c < Pow2(w);
      WrapIn(w, 2 * c);
    }
    BitLenAtMost(LzcInputA(w, op), w);
  }

  lemma DivisorLength(w: nat, op: Op)
    requires Fits(w, op) && op.b != 0
    ensures var n := BitLen(LzcInputB(w, op));
      if n == 0 then NegB(w, op) && Divisor(w, op) == 1
      else if NegB(w, op) then Pow2(n - 1) < Divisor(w, op) <= Pow2(n)
      else Pow2(n - 1) <= Divisor(w, op) < Pow2(n)
  {
  }

  // An early end is right, except for the one pair.
  lemma EarlyZero(w: nat, op: Op)
    requires Fits(w, op) && DivShift(w, op) < 0
    ensures op.b != 0
    ensures Dividend(w, op) < Divisor(w, op) || (MinusOneByOne(w, op) && Dividend(w, op) == 1)
  {
    DividendLength(w, op);
    DivisorLength(w, op);
    var l, n := BitLen(LzcInputA(w, op)), BitLen(LzcInputB(w, op));
    assert l < n;
    Pow2Mono(l, n - 1);
  }

  // Otherwise the aligned divisor fits, and twice it exceeds the dividend.
  lemma Aligned(w: nat, op: Op)
    requires Fits(w, op) && op.b != 0 && DivShift(w, op) >= 0
    ensures DivShift(w, op) <= w
    ensures var mk := Divisor(w, op) * Pow2(DivShift(w, op));
      1 <= mk && Dividend(w, op) < 2 * mk && (if NegB(w, op) then mk <= Pow2(w) else mk < Pow2(w))
  {
    DividendLength(w, op);
    DivisorLength(w, op);
    AlignedLength(w, Dividend(w, op), Divisor(w, op), DivShift(w, op), BitLen(LzcInputA(w, op)),
                  BitLen(LzcInputB(w, op)), NegB(w, op));
  }

  // A dividend d of length l and a divisor m of length n, moved left until their
  // lengths agree. Length 0 stands for the magnitude 1 of a negative operand.
  lemma AlignedLength(w: nat, d: nat, m: nat, s: nat, l: nat, n: nat, closed: bool)
    requires l <= w && (d < Pow2(l) || (l == 0 && d == 1))
    requires if n == 0 then closed && m == 1 && s == w else s + n == l
    requires n > 0 ==> if closed then Pow2(n - 1) < m <= Pow2(n) else Pow2(n - 1) <= m < Pow2(n)
    ensures var mk := m * Pow2(s);
      s <= w && 1 <= mk && d < 2 * mk && (if closed then mk <= Pow2(w) else mk < Pow2(w))
  {
    Pow2Mono(l, w);
    if n != 0 {
      ShiftedLength(m, s, n, closed);
    }
  }

  // A divisor of length n, moved left by s places, has length s + n.
  lemma ShiftedLength(m: nat, s: nat, n: nat, closed: bool)
    requires n > 0
    requires if closed then Pow2(n - 1) < m <= Pow2(n) else Pow2(n - 1) <= m < Pow2(n)
    ensures 1 <= m * Pow2(s) && Pow2(s + n) <= 2 * (m * Pow2(s))
    ensures if closed then m * Pow2(s) <= Pow2(s + n) else m * Pow2(s) < Pow2(s + n)
  {
    Pow2Add(s, n);
    ScaledBounds(m, Pow2(s), Pow2(n - 1), closed);
  }

  // A divisor of a known length, moved left.
  lemma ScaledBounds(m: nat, p: nat, half: nat, closed: bool)
    requires p >= 1 && half >= 1
    requires if closed then half < m <= 2 * half else half <= m < 2 * half
    ensures m * p >= 1 && p * (2 * half) <= 2 * (m * p)
    ensures if closed then m * p <= p * (2 * half) else m * p < p * (2 * half)
  {
    ProductMono(half, m, p);
    assert p * (2 * half) == 2 * (half * p);
    if closed {
      ProductMono(m, 2 * half, p);
    } else {
      ProductMono(m + 1, 2 * half, p);
      assert (m + 1) * p == m * p + p;
    }
  }

  lemma ProductMono(x: nat, y: nat, k: nat)
    requires x <= y
    ensures x * k == k * x <= y * k == k * y
  {
  }

  // ---------- Datapath ----------

  // The word for magnitude x under the sign the datapath works in.
  ghost function Enc(w: nat, neg: bool, x: nat): nat {
    Wrap(w, if neg then 0 - x else x)
  }

  lemma EncValue(w: nat, neg: bool, x: nat)
    requires x <= Pow2(w) && (!neg ==> x < Pow2(w))
    ensures Enc(w, neg, x) == if neg && x != 0 then Pow2(w) - x else x
  {
    if neg && x != 0 {
      WrapNegative(w, 0 - x);
    } else {
      WrapIn(w, x);
    }
  }

  lemma WrapNegatesWrap(w: nat, v: int)
    ensures Wrap(w, 0 - Wrap(w, v)) == Wrap(w, -v)
  {
    var p := Pow2(w);
    assert -v == 0 - Wrap(w, v) + (-(v / p)) * p by {
      assert v == (v / p) * p + v % p;
    }
    ModShift(0 - Wrap(w, v), -(v / p), p);
  }

  // The main comparator and the subtractor.
  predicate Compare(a: nat, b: nat, inv: bool, bZero: bool) {
    (a == b || (a > b) != inv) && (a != 0 || bZero)
  }

  // On encoded operands the comparator finds out whether the divisor goes into
  // the remainder, and the subtractor takes it away.
  lemma CompareAndSubtract(w: nat, neg: bool, r: nat, mk: nat)
    requires 1 <= mk <= Pow2(w) && r < Pow2(w) && (!neg ==> mk < Pow2(w))
    ensures Compare(Enc(w, neg, r), Enc(w, neg, mk), neg, false) <==> mk <= r
    ensures mk <= r ==> Wrap(w, Enc(w, neg, r) - Enc(w, neg, mk)) == Enc(w, neg, r - mk)
  {
    EncValue(w, neg, r);
    EncValue(w, neg, mk);
    if mk <= r {
      EncValue(w, neg, r - mk);
      if neg && r != mk {
        WrapNegative(w, mk - r);
      } else {
        WrapIn(w, r - mk);
      }
    }
  }

  // The shift register for the divisor keeps its encoding: the implicit bit
  // above the word is the shifted-in sign.
  lemma ShiftDivisor(w: nat, neg: bool, half: nat)
    requires w > 0 && 1 <= half && 2 * half <= Pow2(w) && (!neg ==> 2 * half < Pow2(w))
    ensures (if neg then Pow2(w - 1) else 0) + Enc(w, neg, 2 * half) / 2 == Enc(w, neg, half)
  {
    EncValue(w, neg, 2 * half);
    EncValue(w, neg, half);
  }

  // ---------- The machine a user of the unit sees ----------

  datatype Job =
    | NoJob
    | Dividing(op: Op, left: nat)  // left more iterations after the next one
    | Ready(op: Op)                // the result is offered

  ghost function JobNext(w: nat, job: Job, i: Input): Job
    requires Fits(w, i.op)
  {
    if i.flush then NoJob else
    match job
    case NoJob =>
      if !i.valid then NoJob
      else if DivShift(w, i.op) < 0 then Ready(i.op)
      else Dividing(i.op, DivShift(w, i.op))
    case Dividing(op, left) => if left == 0 then Ready(op) else Dividing(op, left - 1)
    case Ready(op) => if i.outReady then NoJob else job
  }

  ghost predicate Answers(w: nat, job: Job, i: Input, o: Output)
    requires w > 0
  {
    && o.inReady == (job.NoJob? && !i.valid && !i.flush)
    && o.outValid == (job.Ready? && !i.flush)
    && (o.outValid ==> o.id == job.op.id && o.res == Result(w, job.op))
  }

  ghost function JobRun(w: nat, job: Job, ins: seq<Input>): Job
    requires forall i :: 0 <= i < |ins| ==> Fits(w, ins[i].op)
    decreases |ins|
  {
    if ins == [] then job
    else JobRun(w, JobNext(w, job, ins[0]), ins[1..])
  }

  // Passes through the DIVIDE state that change the remainder.
  function Iterations(w: nat, op: Op): nat
    requires w > 0 && op.a < Pow2(w) && op.b < Pow2(w)
  {
    if DivShift(w, op) < 0 then 0 else DivShift(w, op) + 1
  }

  // An operation accepted by an idle unit is offered after exactly its number
  // of iterations and not before, whatever else is on the inputs, and that is
  // never more than the width plus one.
  lemma EveryOperationFinishes(w: nat, ins: seq<Input>)
    requires ins != [] && ins[0].valid && Fits(w, ins[0].op)
    requires forall i :: 0 <= i < |ins| ==> Fits(w, ins[i].op) && !ins[i].flush
    ensures Iterations(w, ins[0].op) <= w + 1
    ensures |ins| <= Iterations(w, ins[0].op) ==> JobRun(w, NoJob, ins).Dividing?
    ensures |ins| == Iterations(w, ins[0].op) + 1 ==> JobRun(w, NoJob, ins) == Ready(ins[0].op)
  {
    var op := ins[0].op;
    if DivShift(w, op) >= 0 {
      if op.b != 0 {
        Aligned(w, op);
      }
      if |ins| <= Iterations(w, op) + 1 {
        CountDown(w, op, DivShift(w, op), ins[1..]);
      }
    }
  }

  lemma {:induction false} CountDown(w: nat, op: Op, left: nat, ins: seq<Input>)
    requires forall i :: 0 <= i < |ins| ==> Fits(w, ins[i].op) && !ins[i].flush
    requires |ins| <= left + 1
    ensures JobRun(w, Dividing(op, left), ins)
         == if |ins| == left + 1 then Ready(op) else Dividing(op, left - |ins|)
    decreases |ins|
  {
    if ins == [] || left == 0 {
    } else {
      CountDown(w, op, left - 1, ins[1..]);
    }
  }

  // The offer stands, with the same result, until it is taken or flushed.
  lemma {:induction false} ResultStays(w: nat, op: Op, ins: seq<Input>)
    requires forall i :: 0 <= i < |ins| ==> Fits(w, ins[i].op) && !ins[i].flush && !ins[i].outReady
    ensures JobRun(w, Ready(op), ins) == Ready(op)
    decreases |ins|
  {
    if ins == [] {
    } else {
      ResultStays(w, op, ins[1..]);
    }
  }

  // ---------- Registers ----------

  datatype Fsm = Idle | Divide | Finish

  datatype Regs = Regs(
    fsm: Fsm, opA: nat, opB: nat, res: nat, cnt: nat, id: nat,
    remSel: bool, compInv: bool, resInv: bool, opBZero: bool, divResZero: bool)

  // The output multiplexer and the final inversion.
  function ResultOut(w: nat, s: Regs): nat {
    var x := if s.remSel then s.opA else s.res;
    if s.resInv then Wrap(w, 0 - x) else x
  }

  ghost predicate FlagsFor(w: nat, op: Op, s: Regs)
    requires w > 0
  {
    && s.id == op.id && s.remSel == op.code.rem && s.compInv == NegB(w, op) && s.opBZero == (op.b == 0)
    && s.resInv == ((op.b != 0 || op.code.rem) && NegA(w, op) != NegB(w, op))
  }

  // Restoring division: what has been subtracted so far plus the remainder is
  // the dividend, and the remainder is below twice the divisor at this position.
  ghost predicate Restoring(w: nat, op: Op, left: nat, s: Regs)
    requires Fits(w, op)
  {
    var mk := Divisor(w, op) * Pow2(left);
    var r := Dividend(w, op) - s.res * (2 * mk);
    && 1 <= mk && (if NegB(w, op) then mk <= Pow2(w) else mk < Pow2(w))
    && 0 <= r < 2 * mk
    && s.opA == Enc(w, NegB(w, op), r) && s.opB == Enc(w, NegB(w, op), mk)
  }

  // Division by zero: every comparison succeeds and ones are shifted in.
  ghost predicate ZeroDivisor(w: nat, op: Op, left: nat, s: Regs)
    requires Fits(w, op) && left <= w
  {
    s.opA == Dividend(w, op) && s.opB == 0 && s.res == Pow2(w - left) - 1
  }

  ghost predicate Tracks(w: nat, job: Job, s: Regs)
    requires w > 0
  {
    match job
    case NoJob => s.fsm.Idle?
    case Dividing(op, left) =>
      && Fits(w, op) && DivShift(w, op) >= 0 && FlagsFor(w, op, s) && s.fsm.Divide? && !s.divResZero
      && s.cnt == left <= w
      && (if op.b == 0 then ZeroDivisor(w, op, left, s) else Restoring(w, op, left, s))
    case Ready(op) =>
      && Fits(w, op) && FlagsFor(w, op, s)
      && (s.fsm.Finish? || (s.fsm.Divide? && s.divResZero))
      && ResultOut(w, s) == Result(w, op)
  }

  // What the load cycle puts into the registers.
  function Loaded(w: nat, op: Op, s: Regs): Regs
    requires w > 0 && op.a < Pow2(w) && op.b < Pow2(w)
  {
    var signsDiffer := op.code.signed && ((op.a >= Pow2(w - 1)) != (op.b >= Pow2(w - 1)));
    var shift := DivShift(w, op);
    Regs(Divide,
         if signsDiffer then Wrap(w, 0 - op.a) else Wrap(w, op.a),
         if shift < 0 then 0 else Wrap(w, op.b * Pow2(shift)),
         0, Wrap(BitLen(w), shift), op.id,
         op.code.rem, op.code.signed && op.b >= Pow2(w - 1),
         (op.b != 0 || op.code.rem) && signsDiffer, op.b == 0, shift < 0)
  }

  lemma LoadTracks(w: nat, op: Op, s: Regs)
    requires Fits(w, op)
    ensures Tracks(w, if DivShift(w, op) < 0 then Ready(op) else Dividing(op, DivShift(w, op)), Loaded(w, op, s))
  {
    if DivShift(w, op) < 0 {
      LoadEarlyZero(w, op, s);
    } else {
      LoadAligned(w, op, s);
    }
  }

  lemma LoadEarlyZero(w: nat, op: Op, s: Regs)
    requires Fits(w, op) && DivShift(w, op) < 0
    ensures Tracks(w, Ready(op), Loaded(w, op, s))
  {
    EarlyZero(w, op);
    LoadedDividend(w, op, s);
    if MinusOneByOne(w, op) {
      Pow2Mono(1, w - 1);
      EncValue(w, false, 1);
      WrapNegative(w, -1);
      WrapIn(w, 0);
    } else {
      DivModUnique(Dividend(w, op), Divisor(w, op), 0, Dividend(w, op));
      Correct(w, op, Loaded(w, op, s));
    }
  }

  lemma LoadAligned(w: nat, op: Op, s: Regs)
    requires Fits(w, op) && DivShift(w, op) >= 0
    ensures Tracks(w, Dividing(op, DivShift(w, op)), Loaded(w, op, s))
  {
    LoadedDividend(w, op, s);
    if op.b == 0 {
      WrapIn(w, 0);
      EncValue(w, false, Dividend(w, op));
    } else {
      Aligned(w, op);
      LoadedDivisor(w, op, DivShift(w, op));
    }
    WrapIn(BitLen(w), DivShift(w, op));
  }

  lemma LoadedDividend(w: nat, op: Op, s: Regs)
    requires Fits(w, op)
    ensures Loaded(w, op, s).opA == Enc(w, NegB(w, op), Dividend(w, op))
  {
    var p := Pow2(w);
    ModShift(op.a, -1, p);
    ModShift(0 - op.a, 1, p);
  }

  lemma LoadedDivisor(w: nat, op: Op, shift: nat)
    requires Fits(w, op)
    ensures Wrap(w, op.b * Pow2(shift)) == Enc(w, NegB(w, op), Divisor(w, op) * Pow2(shift))
  {
    if NegB(w, op) {
      var k, p := Pow2(shift), Pow2(w);
      assert op.b * k == -(Divisor(w, op) * k) + k * p by {
        assert (p - Divisor(w, op)) * k == p * k - Divisor(w, op) * k;
      }
      ModShift(-(Divisor(w, op) * k), k, p);
    }
  }

  // With the magnitudes' quotient in res and their remainder in op_a, the
  // output stage delivers the table's answer.
  lemma Correct(w: nat, op: Op, s: Regs)
    requires Fits(w, op) && op.b != 0 && FlagsFor(w, op, s)
    requires s.res == Dividend(w, op) / Divisor(w, op)
    requires s.opA == Enc(w, NegB(w, op), Dividend(w, op) % Divisor(w, op))
    ensures ResultOut(w, s) == Reference(w, op)
  {
    var d, m, x, y := Dividend(w, op), Divisor(w, op), Signed(w, op.a), Signed(w, op.b);
    QuotientAtMost(d, m);
    if !op.code.signed {
      EncValue(w, false, d % m);
    } else if op.code.rem {
      SignedByMagnitude(x, y);
      SignedRemainderWord(w, NegA(w, op), NegB(w, op), d % m);
    } else {
      SignedByMagnitude(x, y);
      WrapIn(w, d / m);
    }
  }

  // Inverting a word that carries the divisor's sign gives the dividend's sign.
  lemma SignedRemainderWord(w: nat, negA: bool, negB: bool, r: nat)
    ensures var x := Enc(w, negB, r);
      Enc(w, negA, r) == if negA != negB then Wrap(w, 0 - x) else x
  {
    WrapNegatesWrap(w, if negB then 0 - r else r);
  }

  lemma SignedByMagnitude(x: int, y: int)
    requires y != 0
    ensures TruncDiv(x, y) == if (x < 0) == (y < 0) then Abs(x) / Abs(y) else -(Abs(x) / Abs(y))
    ensures TruncRem(x, y) == if x < 0 then -(Abs(x) % Abs(y)) else Abs(x) % Abs(y)
  {
    TruncDivision(x, y);
  }

  lemma QuotientAtMost(d: nat, m: nat)
    requires m > 0
    ensures d / m <= d && d % m <= d
  {
    assert d == (d / m) * m + d % m;
    ProductMono(1, m, d / m);
  }

  // One pass through the DIVIDE state.
  function Iterated(w: nat, s: Regs): Regs
    requires w > 0
  {
    var hit := Compare(s.opA, s.opB, s.compInv, s.opBZero);
    s.(opA := if hit then Wrap(w, s.opA - s.opB) else s.opA,
       opB := (if s.compInv then Pow2(w - 1) else 0) + s.opB / 2,
       res := Wrap(w, 2 * s.res + if hit then 1 else 0),
       cnt := if s.cnt == 0 then 0 else s.cnt - 1,
       fsm := if s.cnt == 0 then Finish else Divide)
  }

  lemma IterationTracks(w: nat, op: Op, left: nat, s: Regs)
    requires w > 0 && Tracks(w, Dividing(op, left), s)
    ensures Tracks(w, if left == 0 then Ready(op) else Dividing(op, left - 1), Iterated(w, s))
  {
    if op.b == 0 {
      ZeroIteration(w, op, left, s);
    } else {
      RestoringIteration(w, op, left, s);
    }
  }

  lemma ZeroIteration(w: nat, op: Op, left: nat, s: Regs)
    requires w > 0 && Tracks(w, Dividing(op, left), s) && op.b == 0
    ensures Tracks(w, if left == 0 then Ready(op) else Dividing(op, left - 1), Iterated(w, s))
  {
    var p := Pow2(w);
    WrapIn(w, s.opA);
    if left == 0 {
      ModShift(p - 1, 1, p);
      WrapIn(w, p - 1);
      if NegA(w, op) {
        WrapNegative(w, 0 - Dividend(w, op));
      }
    } else {
      Pow2Mono(w - left + 1, w);
      WrapIn(w, Pow2(w - left + 1) - 1);
    }
  }

  lemma RestoringIteration(w: nat, op: Op, left: nat, s: Regs)
    requires w > 0 && Tracks(w, Dividing(op, left), s) && op.b != 0
    ensures Tracks(w, if left == 0 then Ready(op) else Dividing(op, left - 1), Iterated(w, s))
  {
    var r := NextDigit(w, op, left, s);
    if left == 0 {
      FinalDigit(w, op, s, r);
    } else {
      EarlierDigit(w, op, left, s, r);
    }
  }

  lemma EarlierDigit(w: nat, op: Op, left: nat, s: Regs, r: nat)
    requires w > 0 && 0 < left && Tracks(w, Dividing(op, left), s) && op.b != 0
    requires var mk, t := Divisor(w, op) * Pow2(left), Iterated(w, s);
      r < mk && Dividend(w, op) == t.res * mk + r && t.opA == Enc(w, NegB(w, op), r)
    ensures Tracks(w, Dividing(op, left - 1), Iterated(w, s))
  {
    HalfProduct(Divisor(w, op), Pow2(left - 1));
    ShiftDivisor(w, NegB(w, op), Divisor(w, op) * Pow2(left - 1));
    assert Restoring(w, op, left - 1, Iterated(w, s));
  }

  lemma FinalDigit(w: nat, op: Op, s: Regs, r: nat)
    requires w > 0 && Tracks(w, Dividing(op, 0), s) && op.b != 0
    requires var mk, t := Divisor(w, op) * Pow2(0), Iterated(w, s);
      r < mk && Dividend(w, op) == t.res * mk + r && t.opA == Enc(w, NegB(w, op), r)
    ensures Tracks(w, Ready(op), Iterated(w, s))
  {
    assert Divisor(w, op) * Pow2(0) == Divisor(w, op);
    DivModUnique(Dividend(w, op), Divisor(w, op), Iterated(w, s).res, r);
    Correct(w, op, Iterated(w, s));
    NotMinusOneByOne(w, op);
  }

  lemma NextDigit(w: nat, op: Op, left: nat, s: Regs) returns (r: nat)
    requires w > 0 && Tracks(w, Dividing(op, left), s) && op.b != 0
    ensures var mk, t := Divisor(w, op) * Pow2(left), Iterated(w, s);
      r < mk && Dividend(w, op) == t.res * mk + r && t.opA == Enc(w, NegB(w, op), r)
  {
    r := DigitOf(w, NegB(w, op), Dividend(w, op), Divisor(w, op) * Pow2(left), s);
  }

  // One digit of dividend d by the aligned divisor mk.
  lemma DigitOf(w: nat, neg: bool, d: nat, mk: nat, s: Regs) returns (r: nat)
    requires w > 0 && d < Pow2(w) && 1 <= mk <= Pow2(w) && (!neg ==> mk < Pow2(w)) && 0 <= d - s.res * (2 * mk) < 2 * mk
    requires s.opA == Enc(w, neg, d - s.res * (2 * mk)) && s.opB == Enc(w, neg, mk)
    requires s.compInv == neg && !s.opBZero
    ensures var t := Iterated(w, s);
      r < mk && d == t.res * mk + r && t.opA == Enc(w, neg, r)
  {
    r := d - s.res * (2 * mk);
    QuotientDigit(d, mk, s.res, r);
    CompareAndSubtract(w, neg, r, mk);
    WrapIn(w, 2 * s.res + if mk <= r then 1 else 0);
    r := if mk <= r then r - mk else r;
  }

  lemma HalfProduct(m: nat, k: nat)
    ensures m * (2 * k) == 2 * (m * k)
  {
  }

  // Appending a quotient digit keeps dividend = quotient * divisor + remainder.
  lemma QuotientDigit(d: nat, mk: nat, q: nat, r: nat)
    requires mk >= 1 && d == q * (2 * mk) + r && r < 2 * mk
    ensures r <= d
    ensures mk <= r ==> 2 * q + 1 <= d && d == (2 * q + 1) * mk + (r - mk)
    ensures r < mk ==> 2 * q <= d && d == (2 * q) * mk + r
  {
    assert q * (2 * mk) == (2 * q) * mk;
    assert (2 * q + 1) * mk == (2 * q) * mk + mk;
    ProductMono(1, mk, 2 * q);
    ProductMono(1, mk, 2 * q + 1);
  }

  // The bad pair never reaches the iterations.
  lemma NotMinusOneByOne(w: nat, op: Op)
    requires Fits(w, op)
    ensures MinusOneByOne(w, op) ==> DivShift(w, op) < 0
  {
    Pow2Mono(1, w - 1);
    WrapIn(w, 0);
  }

  // The result is on the output.
  predicate Offers(s: Regs) {
    s.fsm.Finish? || (s.fsm.Divide? && s.divResZero)
  }

  // What a clock edge does to the registers. A flush leaves the unit idle.
  ghost predicate Edge(w: nat, s: Regs, i: Input, d: Regs)
    requires Fits(w, i.op)
  {
    if i.flush then d.fsm.Idle?
    else if Offers(s) then d == s.(fsm := if i.outReady then Idle else Finish, cnt := d.cnt)
    else if s.fsm.Divide? then d == Iterated(w, s)
    else if i.valid then d == Loaded(w, i.op, s)
    else d.fsm.Idle?
  }

  // Loading, iterating, waiting and flushing all keep the registers in step
  // with the visible machine.
  lemma NextTracks(w: nat, job: Job, i: Input, s: Regs, d: Regs)
    requires Fits(w, i.op) && Tracks(w, job, s) && Edge(w, s, i, d)
    ensures Tracks(w, JobNext(w, job, i), d)
  {
    if !i.flush {
      if job.NoJob? && i.valid {
        LoadTracks(w, i.op, s);
      } else if job.Dividing? {
        IterationTracks(w, job.op, job.left, s);
      }
    }
  }

  // ---------- Runs of the registers ----------

  datatype Cycle = Cycle(i: Input, after: Regs)

  ghost predicate Run(w: nat, s: Regs, run: seq<Cycle>)
    decreases |run|
  {
    run == [] || (Fits(w, run[0].i.op) && Edge(w, s, run[0].i, run[0].after) && Run(w, run[0].after, run[1..]))
  }

  function End(s: Regs, run: seq<Cycle>): Regs {
    if run == [] then s else run[|run| - 1].after
  }

  function Inputs(run: seq<Cycle>): (ins: seq<Input>)
    ensures |ins| == |run| && forall k :: 0 <= k < |run| ==> ins[k] == run[k].i
  {
    if run == [] then [] else [run[0].i] + Inputs(run[1..])
  }

  lemma {:induction false} RunTracks(w: nat, job: Job, s: Regs, run: seq<Cycle>)
    requires w > 0 && Tracks(w, job, s) && Run(w, s, run)
    ensures forall k :: 0 <= k < |run| ==> Fits(w, Inputs(run)[k].op)
    ensures Tracks(w, JobRun(w, job, Inputs(run)), End(s, run))
    decreases |run|
  {
    if run == [] {
    } else {
      var t, rest := run[0], run[1..];
      NextTracks(w, job, t.i, s, t.after);
      RunTracks(w, JobNext(w, job, t.i), t.after, rest);
      assert Inputs(run)[1..] == Inputs(rest) && End(s, run) == End(t.after, rest);
    }
  }

  // From an idle unit, whatever its registers hold: an accepted operation is not
  // answered before its number of iterations, at most the width plus one, has
  // passed; then the output carries its ID and, if and only if the operands are
  // not the signed pair (-1, 1), the answer of the division table.
  lemma ResultMeetsTable(w: nat, s: Regs, run: seq<Cycle>)
    requires w >= 2 && s.fsm.Idle? && Run(w, s, run) && run != [] && run[0].i.valid
    requires forall k :: 0 <= k < |run| ==> !run[k].i.flush
    ensures var op, e := run[0].i.op, End(s, run);
      && Iterations(w, op) <= w + 1
      && (|run| <= Iterations(w, op) ==> !Offers(e))
      && (|run| == Iterations(w, op) + 1 ==>
            Offers(e) && e.id == op.id && (ResultOut(w, e) == Reference(w, op) <==> !MinusOneByOne(w, op)))
  {
    var op, ins := run[0].i.op, Inputs(run);
    RunTracks(w, NoJob, s, run);
    EveryOperationFinishes(w, ins);
    ResultIsReference(w, op);
  }

  // load_en, the register enables and the next state
  datatype Enables = Enables(loadEn: bool, aRegEn: bool, bRegEn: bool, resRegEn: bool, next: Fsm)

  class Divider {
    const width: nat
    var fsm: Fsm
    var opA: nat
    var opB: nat
    var res: nat
    var cnt: nat
    var id: nat
    var remSel: bool
    var compInv: bool
    var resInv: bool
    var opBZero: bool
    var divResZero: bool
    ghost var job: Job

    function Registers(): Regs
      reads this
    {
      Regs(fsm, opA, opB, res, cnt, id, remSel, compInv, resInv, opBZero, divResZero)
    }

    ghost predicate Valid()
      reads this
    {
      width >= 2 && Tracks(width, job, Registers())
    }

    constructor (w: nat)
      requires w >= 2
      ensures Valid() && width == w && job == NoJob
    {
      width := w;
      fsm, opA, opB, res, cnt, id := Idle, 0, 0, 0, 0, 0;
      remSel, compInv, resInv, opBZero, divResZero := false, false, false, false, false;
      job := NoJob;
    }

    // The state machine: register enables, handshake and next state.
    method Control(i: Input) returns (c: Enables, inReady: bool, outValid: bool)
      requires Valid()
      ensures inReady == (job.NoJob? && !i.valid && !i.flush)
      ensures outValid == (job.Ready? && !i.flush)
      ensures c.loadEn == (job.NoJob? && i.valid && !i.flush)
      ensures c.loadEn ==> c.aRegEn && c.bRegEn
      ensures job.Dividing? && !i.flush ==> c.aRegEn == Compare(opA, opB, compInv, opBZero) && c.bRegEn && c.resRegEn
      ensures !job.Dividing? && !c.loadEn ==> !c.aRegEn && !c.bRegEn && !c.resRegEn
      ensures c.next == if i.flush then Idle else
        match job
        case NoJob => if i.valid then Divide else Idle
        case Dividing(_, left) => if left == 0 then Finish else Divide
        case Ready(_) => if i.outReady then Idle else Finish
    {
      inReady, outValid := false, false;
      var loadEn, aRegEn, bRegEn, resRegEn, next := false, false, false, false, fsm;
      match fsm {
        case Idle =>
          inReady := true;
          if i.valid {
            inReady, aRegEn, bRegEn, loadEn, next := false, true, true, true, Divide;
          }
        case Divide =>
          if !divResZero {
            aRegEn, bRegEn, resRegEn := Compare(opA, opB, compInv, opBZero), true, true;
          }
          if divResZero {
            outValid := true;
            next := if i.outReady then Idle else Finish;
          } else if cnt == 0 {
            next := Finish;
          }
        case Finish =>
          outValid := true;
          if i.outReady {
            next := Idle;
          }
      }
      if i.flush {
        inReady, outValid, aRegEn, bRegEn, loadEn, next := false, false, false, false, false, Idle;
      }
      c := Enables(loadEn, aRegEn, bRegEn, resRegEn, next);
    }

    // The multiplexers, the adder and the flags: next values of the registers.
    method Datapath(i: Input, c: Enables) returns (d: Regs)
      requires width >= 2 && Fits(width, i.op)
      ensures d.fsm == c.next
      ensures c.loadEn && c.aRegEn && c.bRegEn && c.next.Divide? ==> d == Loaded(width, i.op, Registers())
      ensures !c.loadEn && c.bRegEn && c.resRegEn && c.aRegEn == Compare(opA, opB, compInv, opBZero) ==>
        d == Iterated(width, Registers()).(fsm := c.next)
      ensures !c.loadEn && !c.aRegEn && !c.bRegEn && !c.resRegEn ==>
        d == Registers().(fsm := c.next, cnt := if cnt == 0 then 0 else cnt - 1)
    {
      var addOut := Adder(i, c.loadEn);
      var bMux := DivisorMux(i, c.loadEn);
      var cntIn := Counter(i, c.loadEn);
      var flags := Flags(i, c.loadEn);
      var hit := Compare(opA, opB, compInv, opBZero);
      var resIn: nat := Wrap(width, 2 * res + if hit then 1 else 0);
      d := flags.(
        fsm := c.next,
        opA := if c.aRegEn then addOut else opA,
        opB := if c.bRegEn then bMux else opB,
        res := if c.loadEn then 0 else if c.resRegEn then resIn else res,
        cnt := cntIn);
    }

    // The adder takes the dividend, negated if the signs differ, or subtracts the
    // divisor.
    method Adder(i: Input, loadEn: bool) returns (addOut: nat)
      requires width >= 2 && Fits(width, i.op)
      ensures loadEn ==> addOut == Loaded(width, i.op, Registers()).opA
      ensures !loadEn ==> addOut == Wrap(width, opA - opB)
    {
      var signsDiffer := (i.op.a >= Pow2(width - 1)) != (i.op.b >= Pow2(width - 1));
      var plus := loadEn && !(i.op.code.signed && signsDiffer);
      var addTmp := if loadEn then 0 else opA;
      var addMux := if loadEn then i.op.a else opB;
      addOut := Wrap(width, if plus then addTmp + addMux else addTmp - addMux);
    }

    // The divisor is aligned or moves right.
    method DivisorMux(i: Input, loadEn: bool) returns (bMux: nat)
      requires width >= 2 && Fits(width, i.op)
      ensures loadEn ==> bMux == Loaded(width, i.op, Registers()).opB
      ensures !loadEn ==> bMux == (if compInv then Pow2(width - 1) else 0) + opB / 2
    {
      if loadEn {
        var shift := DivShift(width, i.op);
        bMux := if shift < 0 then 0 else Wrap(width, i.op.b * Pow2(shift));
      } else {
        bMux := (if compInv then Pow2(width - 1) else 0) + opB / 2;
      }
    }

    // The counter is loaded or counts down.
    method Counter(i: Input, loadEn: bool) returns (cntIn: nat)
      requires width >= 2 && Fits(width, i.op)
      ensures cntIn == if loadEn then Loaded(width, i.op, Registers()).cnt else if cnt == 0 then 0 else cnt - 1
    {
      if loadEn {
        cntIn := Wrap(BitLen(width), DivShift(width, i.op));
      } else {
        cntIn := if cnt != 0 then cnt - 1 else cnt;
      }
    }

    // The ID and the flags, loaded with the operation. The rest is untouched.
    method Flags(i: Input, loadEn: bool) returns (d: Regs)
      requires width >= 2 && Fits(width, i.op)
      ensures loadEn ==>
        var t := Loaded(width, i.op, Registers());
        d == t.(fsm := fsm, opA := opA, opB := opB, res := res, cnt := cnt)
      ensures !loadEn ==> d == Registers()
    {
      d := Registers();
      if loadEn {
        var signA := i.op.a >= Pow2(width - 1);
        var signB := i.op.b >= Pow2(width - 1);
        d := d.(
          id := i.op.id,
          remSel := i.op.code.rem,
          compInv := i.op.code.signed && signB,
          resInv := (i.op.b != 0 || i.op.code.rem) && i.op.code.signed && signA != signB,
          opBZero := i.op.b == 0,
          divResZero := DivShift(width, i.op) < 0);
      }
    }

    // The clock edge.
    method Latch(d: Regs)
      modifies this
      ensures Registers() == d && job == old(job)
    {
      fsm, opA, opB, res, cnt, id := d.fsm, d.opA, d.opB, d.res, d.cnt, d.id;
      remSel, compInv, resInv, opBZero, divResZero := d.remSel, d.compInv, d.resInv, d.opBZero, d.divResZero;
    }

    // One clock cycle. The outputs are those of the cycle itself.
    method Step(i: Input) returns (o: Output)
      requires Valid() && Fits(width, i.op)
      modifies this
      ensures Valid() && job == JobNext(width, old(job), i)
      ensures Edge(width, old(Registers()), i, Registers()) && Answers(width, old(job), i, o)
      ensures o.outValid == (Offers(old(Registers())) && !i.flush)
      ensures o.id == old(id) && o.res == ResultOut(width, old(Registers()))
    {
      var c, inReady, outValid := Control(i);
      o := Output(inReady, outValid, id, ResultOut(width, Registers()));
      var d := Datapath(i, c);
      assert Edge(width, Registers(), i, d);
      NextTracks(width, job, i, Registers(), d);
      Latch(d);
      job := JobNext(width, job, i);
    }
  }
}
