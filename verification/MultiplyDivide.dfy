/**
  The multiply/divide unit: src/mult.sv around the one-stage multiplier of
  src/multiplier.sv and the serial divider. Word operations run on the full-width
  divider with extended operands. The widths are parameters: w is XLEN (64 in
  the core) and h is the word of the W forms (32 in the core).
*/
module MultiplyDivide {
  import opened Bits
  import opened SerialDivider

  datatype Operator =
    | MUL | MULH | MULHU | MULHSU | MULW
    | DIV | DIVU | DIVW | DIVUW | REM | REMU | REMW | REMUW

  datatype FuData = FuData(op: Operator, a: nat, b: nat, id: nat)

  predicate IsDivision(op: Operator) {
    op in {DIV, DIVU, DIVW, DIVUW, REM, REMU, REMW, REMUW}
  }

  predicate IsSignedDivision(op: Operator) {
    op in {DIV, DIVW, REM, REMW}
  }

  predicate IsRemainder(op: Operator) {
    op in {REM, REMU, REMW, REMUW}
  }

  predicate IsWordDivision(op: Operator) {
    op in {DIVW, DIVUW, REMW, REMUW}
  }

  ghost predicate Widths(w: nat, h: nat) {
    2 <= h < w
  }

  ghost predicate OperandsFit(w: nat, f: FuData) {
    f.a < Pow2(w) && f.b < Pow2(w)
  }

  // The w-bit word that sign-extends the low h bits of x.
  function Sext(w: nat, h: nat, x: nat): nat
    requires h > 0
  {
    Wrap(w, Signed(h, Wrap(h, x)))
  }

  // ---------- Section 6 of the RISC-V User-Level ISA v2.2 ----------

  function Product(w: nat, op: Operator, a: nat, b: nat): int
    requires w > 0
  {
    (if op in {MULH, MULHSU} then Signed(w, a) else a) * (if op == MULH then Signed(w, b) else b)
  }

  function DivOp(f: FuData, w: nat): Op {
    Op(Opcode(IsSignedDivision(f.op), IsRemainder(f.op)), Wrap(w, f.a), Wrap(w, f.b), f.id)
  }

  function IsaResult(w: nat, h: nat, f: FuData): nat
    requires w > 0 && h > 0
  {
    if f.op == MUL then
      Wrap(w, Signed(w, f.a) * Signed(w, f.b))
    else if f.op == MULW then
      Sext(w, h, Wrap(h, Signed(h, Wrap(h, f.a)) * Signed(h, Wrap(h, f.b))))
    else if !IsDivision(f.op) then
      Wrap(w, Product(w, f.op, f.a, f.b) / Pow2(w))
    else if IsWordDivision(f.op) then
      Wrap(w, Signed(h, Reference(h, DivOp(f, h))))
    else
      Reference(w, DivOp(f, w))
  }

  // A signed division of -1 by 1, at the operation's own width.
  predicate MinusOneByOneAt(w: nat, h: nat, f: FuData) {
    var n := if IsWordDivision(f.op) then h else w;
    IsDivision(f.op) && MinusOneByOne(n, DivOp(f, n))
  }

  // ---------- What the unit computes ----------

  // Operands as the divider receives them.
  function DividerOp(w: nat, h: nat, f: FuData): Op
    requires h > 0
  {
    var code := Opcode(IsSignedDivision(f.op), IsRemainder(f.op));
    if !IsWordDivision(f.op) then Op(code, f.a, f.b, f.id)
    else if IsSignedDivision(f.op) then Op(code, Sext(w, h, f.a), Sext(w, h, f.b), f.id)
    else Op(code, Wrap(h, f.a), Wrap(h, f.b), f.id)
  }

  function Quotient(x: nat, m: nat): nat
    requires m > 0
  {
    x / m
  }

  // The result multiplexer behind the product register.
  function Selected(w: nat, h: nat, op: Operator, product: nat): nat
    requires h > 0
  {
    if op in {MULH, MULHU, MULHSU} then Quotient(product, Pow2(w))
    else if op == MULW then Sext(w, h, product)
    else Wrap(w, product)
  }

  function UnitResult(w: nat, h: nat, f: FuData): nat
    requires w > 0 && h > 0
  {
    if IsDivision(f.op) then
      var r := Result(w, DividerOp(w, h, f));
      if IsWordDivision(f.op) then Sext(w, h, r) else r
    else
      Selected(w, h, f.op, Wrap(2 * w, Product(w, f.op, f.a, f.b)))
  }

  // The unit implements every multiplication and division of the ISA, except
  // the signed division of -1 by 1.
  lemma UnitMeetsIsa(w: nat, h: nat, f: FuData)
    requires Widths(w, h) && OperandsFit(w, f)
    ensures UnitResult(w, h, f) == IsaResult(w, h, f) <==> !MinusOneByOneAt(w, h, f)
  {
    if !IsDivision(f.op) {
      MultiplierMeetsIsa(w, h, f);
    } else if IsWordDivision(f.op) {
      WordDivisionMeetsIsa(w, h, f);
    } else {
      WrapIn(w, f.a);
      WrapIn(w, f.b);
      ResultIsReference(w, DividerOp(w, h, f));
    }
  }

  // ---------- Multiplication ----------

  ghost predicate Congruent(n: nat, x: int, y: int) {
    Wrap(n, x) == Wrap(n, y)
  }

  lemma MultiplierMeetsIsa(w: nat, h: nat, f: FuData)
    requires Widths(w, h) && !IsDivision(f.op)
    ensures UnitResult(w, h, f) == IsaResult(w, h, f)
  {
    var p := Product(w, f.op, f.a, f.b);
    if f.op == MUL {
      WrapOfWrap(w, 2 * w, p);
      SignedCongruent(w, f.a);
      SignedCongruent(w, f.b);
      CongruentProduct(w, f.a, f.b, Signed(w, f.a), Signed(w, f.b));
    } else if f.op == MULW {
      WrapOfWrap(h, 2 * w, p);
      WrapOfWrap(h, h, Signed(h, Wrap(h, f.a)) * Signed(h, Wrap(h, f.b)));
      LowWord(h, f.a);
      LowWord(h, f.b);
      CongruentProduct(h, f.a, f.b, Signed(h, Wrap(h, f.a)), Signed(h, Wrap(h, f.b)));
    } else {
      UpperHalf(w, p);
    }
  }

  lemma WrapOfWrap(n: nat, w: nat, v: int)
    requires n <= w
    ensures Wrap(n, Wrap(w, v)) == Wrap(n, v)
  {
    Pow2Add(w - n, n);
    ModOfMod(v, Pow2(w - n), Pow2(n));
  }

  lemma ModOfMod(v: int, k: int, p: int)
    requires k > 0 && p > 0
    ensures k * p > 0 && (v % (k * p)) % p == v % p
  {
    var q, r := v / (k * p), v % (k * p);
    assert v == r + (q * k) * p by {
      assert q * (k * p) == (q * k) * p;
    }
    ModShift(r, q * k, p);
  }

  lemma SignedCongruent(n: nat, x: nat)
    requires n > 0
    ensures Congruent(n, Signed(n, x), x)
  {
    ModShift(x, -1, Pow2(n));
  }

  lemma LowWord(h: nat, x: nat)
    requires h > 0
    ensures Congruent(h, Signed(h, Wrap(h, x)), x)
  {
    SignedCongruent(h, Wrap(h, x));
    WrapOfWrap(h, h, x);
  }

  lemma CongruentByMultiple(n: nat, x: int, y: int) returns (k: int)
    requires Congruent(n, x, y)
    ensures x == y + k * Pow2(n)
  {
    var p := Pow2(n);
    k := x / p - y / p;
    assert k * p == (x / p) * p - (y / p) * p;
  }

  // The low half of a product does not depend on how the factors are extended.
  lemma CongruentProduct(n: nat, a: int, b: int, a': int, b': int)
    requires Congruent(n, a', a) && Congruent(n, b', b)
    ensures Congruent(n, a * b, a' * b')
  {
    var i := CongruentByMultiple(n, a, a');
    var j := CongruentByMultiple(n, b, b');
    ModProduct(a', b', i, j, Pow2(n));
  }

  lemma ModProduct(a: int, b: int, i: int, j: int, p: int)
    requires p > 0
    ensures ((a + i * p) * (b + j * p)) % p == (a * b) % p
  {
    ProductShift(a, b, i, j, p);
    ModShift(a * b, a * j + i * b + i * j * p, p);
  }

  lemma ProductShift(a: int, b: int, i: int, j: int, p: int)
    ensures (a + i * p) * (b + j * p) == a * b + (a * j + i * b + i * j * p) * p
  {
    var x, y := i * p, j * p;
    assert (a + x) * (b + y) == a * b + a * y + x * b + x * y;
    assert a * y == (a * j) * p;
    assert x * b == (i * b) * p;
    assert x * y == (i * j * p) * p by {
      assert x * y == (x * j) * p;
      assert x * j == i * j * p;
    }
    assert (a * j + i * b + i * j * p) * p == (a * j) * p + (i * b) * p + (i * j * p) * p;
  }

  lemma UpperHalf(n: nat, v: int)
    ensures Wrap(2 * n, v) / Pow2(n) == Wrap(n, v / Pow2(n))
  {
    Pow2Add(n, n);
    DivisionInTwoDigits(Pow2(n), v);
  }

  lemma DivisionInTwoDigits(p: int, v: int)
    requires p > 0
    ensures p * p > 0 && (v % (p * p)) / p == (v / p) % p
  {
    var q, r := v / p, v % p;
    var h, l := q / p, q % p;
    TwoDigits(h, l, r, p);
    DivModUnique(v, p * p, h, l * p + r);
    DivModUnique(l * p + r, p, l, r);
  }

  lemma TwoDigits(h: int, l: int, r: int, p: int)
    requires 0 <= l < p && 0 <= r < p
    ensures (h * p + l) * p + r == h * (p * p) + (l * p + r)
    ensures p * p > 0 && 0 <= l * p + r < p * p
  {
    assert (h * p + l) * p == (h * p) * p + l * p;
    assert (h * p) * p == h * (p * p);
    ProductMono(l + 1, p, p);
    assert (l + 1) * p == l * p + p;
  }

  // ---------- Word division ----------

  lemma SextWord(w: nat, h: nat, x: nat)
    requires Widths(w, h)
    ensures var u := Wrap(h, x);
      Sext(w, h, x) == if u < Pow2(h - 1) then u else u + Pow2(w) - Pow2(h)
    ensures Pow2(h) <= Pow2(w - 1) && Pow2(h - 1) >= 2
  {
    var v := Signed(h, Wrap(h, x));
    Pow2Mono(1, h - 1);
    Pow2Mono(h, w - 1);
    if v < 0 {
      WrapNegative(w, v);
    } else {
      WrapIn(w, v);
    }
  }

  lemma SextValue(w: nat, h: nat, x: nat)
    requires Widths(w, h)
    ensures Signed(w, Sext(w, h, x)) == Signed(h, Wrap(h, x))
    ensures Wrap(h, Sext(w, h, x)) == Wrap(h, x)
    ensures Sext(w, h, x) == 0 <==> Wrap(h, x) == 0
    ensures Sext(w, h, x) == Pow2(w) - 1 <==> Wrap(h, x) == Pow2(h) - 1
    ensures Sext(w, h, x) == 1 <==> Wrap(h, x) == 1
  {
    SextWord(w, h, x);
    WrapOfWrap(h, w, Signed(h, Wrap(h, x)));
    LowWord(h, x);
  }

  lemma WordDivisionMeetsIsa(w: nat, h: nat, f: FuData)
    requires Widths(w, h) && OperandsFit(w, f) && IsWordDivision(f.op)
    ensures UnitResult(w, h, f) == IsaResult(w, h, f) <==> !MinusOneByOneAt(w, h, f)
  {
    WordOperandsFit(w, h, f);
    ReferenceOfWord(w, h, f);
    if MinusOneByOneAt(w, h, f) {
      BadWordPair(w, h, f);
    }
  }

  lemma WordOperandsFit(w: nat, h: nat, f: FuData)
    requires Widths(w, h) && IsWordDivision(f.op)
    ensures Fits(w, DividerOp(w, h, f)) && Fits(h, DivOp(f, h))
    ensures MinusOneByOne(w, DividerOp(w, h, f)) <==> MinusOneByOneAt(w, h, f)
  {
    SextValue(w, h, f.a);
    SextValue(w, h, f.b);
    Pow2Mono(h, w);
  }

  // On the bad pair the word result differs from the table's as well.
  lemma BadWordPair(w: nat, h: nat, f: FuData)
    requires Widths(w, h) && IsWordDivision(f.op) && MinusOneByOneAt(w, h, f)
    ensures UnitResult(w, h, f) != IsaResult(w, h, f)
  {
    WordOperandsFit(w, h, f);
    Pow2Mono(1, h - 1);
    Pow2Mono(h, w - 1);
    assert TruncDiv(-1, 1) == -1 && TruncRem(-1, 1) == 0;
    WrapNegative(h, -1);
    WrapIn(h, 0);
    WrapNegative(w, -1);
    WrapIn(w, 0);
    WrapOfWrap(h, w, -1);
  }

  // The low word of the full-width answer on extended operands is the answer
  // at word width.
  lemma ReferenceOfWord(w: nat, h: nat, f: FuData)
    requires Widths(w, h) && IsWordDivision(f.op)
    ensures Sext(w, h, Reference(w, DividerOp(w, h, f))) == Wrap(w, Signed(h, Reference(h, DivOp(f, h))))
  {
    var op, word := DividerOp(w, h, f), DivOp(f, h);
    SextValue(w, h, f.a);
    SextValue(w, h, f.b);
    if word.b == 0 {
      AllOnes(w, h);
      WrapOfWrap(h, h, f.a);
    } else if op.code.signed {
      var x, y := Signed(h, word.a), Signed(h, word.b);
      WrapOfWrap(h, w, if op.code.rem then TruncRem(x, y) else TruncDiv(x, y));
    } else {
      QuotientAtMost(word.a, word.b);
      WrapIn(h, if op.code.rem then word.a % word.b else word.a / word.b);
    }
  }

  lemma AllOnes(w: nat, h: nat)
    requires Widths(w, h)
    ensures Wrap(h, Pow2(w) - 1) == Pow2(h) - 1
  {
    Pow2Add(w - h, h);
    OneBelowMultiple(Pow2(w - h), Pow2(h));
  }

  lemma OneBelowMultiple(k: int, p: int)
    requires p > 0
    ensures (k * p - 1) % p == p - 1
  {
    assert (k - 1) * p == k * p - p;
    DivModUnique(k * p - 1, p, k - 1, p - 1);
  }

  // ---------- The unit ----------

  datatype Pending = Nothing | Computing(f: FuData)

  datatype UnitOutput = UnitOutput(result: nat, valid: bool, ready: bool, id: nat)

  // The request the serial divider sees in a cycle.
  function DividerInput(w: nat, h: nat, f: FuData, valid: bool, flush: bool, mulValid: bool): (i: Input)
    requires Widths(w, h) && OperandsFit(w, f)
    ensures Fits(w, i.op)
  {
    var start := valid && IsDivision(f.op);
    assert start ==> Fits(w, DividerOp(w, h, f)) by {
      if IsWordDivision(f.op) {
        WordOperandsFit(w, h, f);
      }
    }
    Input(if start then DividerOp(w, h, f) else Op(Opcode(IsSignedDivision(f.op), IsRemainder(f.op)), 0, 0, f.id),
          start && !flush, flush, !mulValid)
  }

  // What is inside: a multiplication in the product register, and the division
  // the serial divider works on, if its job says so.
  datatype Inside = Inside(product: Pending, job: Job, division: FuData)

  // A cycle's inputs.
  datatype UnitCycle = UnitCycle(f: FuData, valid: bool, flush: bool)

  ghost function UnitNext(w: nat, h: nat, u: Inside, c: UnitCycle): Inside
    requires Widths(w, h) && OperandsFit(w, c.f)
  {
    Inside(if c.valid && !c.flush && !IsDivision(c.f.op) then Computing(c.f) else Nothing,
           JobNext(w, u.job, DividerInput(w, h, c.f, c.valid, c.flush, u.product.Computing?)),
           if c.valid && IsDivision(c.f.op) then c.f else u.division)
  }

  // A result with its transaction ID.
  datatype Answer = Answer(id: nat, result: nat)

  // The output of a cycle: a product takes precedence over a quotient.
  function OutOf(w: nat, h: nat, u: Inside, c: UnitCycle): seq<Answer>
    requires Widths(w, h)
  {
    if u.product.Computing? then [Answer(u.product.f.id, UnitResult(w, h, u.product.f))]
    else if u.job.Ready? && !c.flush then [Answer(u.division.id, UnitResult(w, h, u.division))]
    else []
  }

  // ---------- Runs of the unit ----------

  // A run without a flush. A division is issued only to an idle divider.
  ghost predicate AllowedRun(w: nat, h: nat, u: Inside, run: seq<UnitCycle>)
    requires Widths(w, h)
    decreases |run|
  {
    run == [] ||
    (var c := run[0];
     && OperandsFit(w, c.f) && !c.flush && (c.valid && IsDivision(c.f.op) ==> u.job.NoJob?)
     && AllowedRun(w, h, UnitNext(w, h, u, c), run[1..]))
  }

  ghost function UnitEnd(w: nat, h: nat, u: Inside, run: seq<UnitCycle>): Inside
    requires Widths(w, h) && AllowedRun(w, h, u, run)
    decreases |run|
  {
    if run == [] then u else UnitEnd(w, h, UnitNext(w, h, u, run[0]), run[1..])
  }

  // What the ISA says an operation has to answer, the one bad pair excepted.
  function Expected(w: nat, h: nat, f: FuData): Answer
    requires Widths(w, h)
  {
    Answer(f.id, if MinusOneByOneAt(w, h, f) then UnitResult(w, h, f) else IsaResult(w, h, f))
  }

  // The answers owed for what a cycle accepts, and for what is inside.
  function Accepts(w: nat, h: nat, c: UnitCycle, division: bool): seq<Answer>
    requires Widths(w, h)
  {
    if c.valid && IsDivision(c.f.op) == division then [Expected(w, h, c.f)] else []
  }

  function Owed(w: nat, h: nat, u: Inside, division: bool): seq<Answer>
    requires Widths(w, h)
  {
    if division then if u.job.NoJob? then [] else [Expected(w, h, u.division)]
    else if u.product.Computing? then [Expected(w, h, u.product.f)] else []
  }

  // The answers a cycle gives, to a division or to a multiplication.
  function Gives(w: nat, h: nat, u: Inside, c: UnitCycle, division: bool): seq<Answer>
    requires Widths(w, h)
  {
    if u.product.Computing? != division then OutOf(w, h, u, c) else []
  }

  function AllAccepted(w: nat, h: nat, run: seq<UnitCycle>, division: bool): seq<Answer>
    requires Widths(w, h)
  {
    if run == [] then [] else Accepts(w, h, run[0], division) + AllAccepted(w, h, run[1..], division)
  }

  ghost function AllGiven(w: nat, h: nat, u: Inside, run: seq<UnitCycle>, division: bool): seq<Answer>
    requires Widths(w, h) && AllowedRun(w, h, u, run)
    decreases |run|
  {
    if run == [] then []
    else Gives(w, h, u, run[0], division) + AllGiven(w, h, UnitNext(w, h, u, run[0]), run[1..], division)
  }

  ghost predicate InsideFits(w: nat, u: Inside) {
    && (u.product.Computing? ==> OperandsFit(w, u.product.f) && !IsDivision(u.product.f.op))
    && (!u.job.NoJob? ==> OperandsFit(w, u.division) && IsDivision(u.division.op))
  }

  lemma CycleBalances(w: nat, h: nat, u: Inside, c: UnitCycle, division: bool)
    requires Widths(w, h) && InsideFits(w, u) && OperandsFit(w, c.f) && !c.flush
    requires c.valid && IsDivision(c.f.op) ==> u.job.NoJob?
    ensures InsideFits(w, UnitNext(w, h, u, c))
    ensures Owed(w, h, u, division) + Accepts(w, h, c, division)
         == Gives(w, h, u, c, division) + Owed(w, h, UnitNext(w, h, u, c), division)
  {
    if u.product.Computing? {
      UnitMeetsIsa(w, h, u.product.f);
    }
    if !u.job.NoJob? {
      UnitMeetsIsa(w, h, u.division);
    }
  }

  // Over every run without a flush, of the multiplications and of the divisions:
  // the answers given are those owed for the accepted operations, in their order,
  // each once, with its own ID, but for at most one of a kind still inside.
  lemma {:induction false} EachComesOutOnce(w: nat, h: nat, u: Inside, run: seq<UnitCycle>, division: bool)
    requires Widths(w, h) && InsideFits(w, u) && AllowedRun(w, h, u, run)
    ensures InsideFits(w, UnitEnd(w, h, u, run))
    ensures Owed(w, h, u, division) + AllAccepted(w, h, run, division)
         == AllGiven(w, h, u, run, division) + Owed(w, h, UnitEnd(w, h, u, run), division)
    decreases |run|
  {
    if run == [] {
      assert Owed(w, h, u, division) + [] == [] + Owed(w, h, u, division);
    } else {
      var c, rest := run[0], run[1..];
      var next := UnitNext(w, h, u, c);
      CycleBalances(w, h, u, c, division);
      EachComesOutOnce(w, h, next, rest, division);
      Chain(Owed(w, h, u, division), Accepts(w, h, c, division), AllAccepted(w, h, rest, division),
            Gives(w, h, u, c, division), Owed(w, h, next, division), AllGiven(w, h, next, rest, division),
            Owed(w, h, UnitEnd(w, h, next, rest), division));
    }
  }

  lemma Chain(p: seq<Answer>, a: seq<Answer>, aa: seq<Answer>, g: seq<Answer>, p1: seq<Answer>, gg: seq<Answer>,
      p2: seq<Answer>)
    requires p + a == g + p1 && p1 + aa == gg + p2
    ensures p + (a + aa) == (g + gg) + p2
  {
    calc {
      p + (a + aa);
      (p + a) + aa;
      g + (p1 + aa);
      (g + gg) + p2;
    }
  }

  // Cycles in which a product has the output.
  ghost function Products(w: nat, h: nat, u: Inside, run: seq<UnitCycle>): nat
    requires Widths(w, h) && AllowedRun(w, h, u, run)
    decreases |run|
  {
    if run == [] then 0
    else (if u.product.Computing? then 1 else 0) + Products(w, h, UnitNext(w, h, u, run[0]), run[1..])
  }

  // Iterations a division still has before it.
  ghost function Remaining(job: Job): nat {
    if job.Dividing? then job.left + 1 else 0
  }

  lemma QuotientIsGiven(w: nat, h: nat, u: Inside, c: UnitCycle)
    requires Widths(w, h) && InsideFits(w, u) && !c.flush && u.job.Ready? && u.product.Nothing?
    ensures Gives(w, h, u, c, true) == [Expected(w, h, u.division)]
  {
    UnitMeetsIsa(w, h, u.division);
  }

  lemma DivisionGoesOn(w: nat, h: nat, u: Inside, c: UnitCycle)
    requires Widths(w, h) && OperandsFit(w, c.f) && !c.flush && !u.job.NoJob?
    requires !(c.valid && IsDivision(c.f.op)) && !(u.job.Ready? && u.product.Nothing?)
    ensures Gives(w, h, u, c, true) == []
    ensures var next := UnitNext(w, h, u, c);
      && !next.job.NoJob? && next.division == u.division
      && Remaining(next.job) == if u.job.Ready? then 0 else Remaining(u.job) - 1
  {
  }

  lemma FitsNext(w: nat, h: nat, u: Inside, c: UnitCycle)
    requires Widths(w, h) && InsideFits(w, u) && OperandsFit(w, c.f)
    ensures InsideFits(w, UnitNext(w, h, u, c))
  {
  }

  lemma {:induction false} QuotientComesOut(w: nat, h: nat, u: Inside, run: seq<UnitCycle>)
    requires Widths(w, h) && InsideFits(w, u) && AllowedRun(w, h, u, run) && !u.job.NoJob?
    ensures |run| <= Remaining(u.job) ==> AllGiven(w, h, u, run, true) == []
    ensures |run| > Remaining(u.job) + Products(w, h, u, run) ==>
      AllGiven(w, h, u, run, true) != [] && AllGiven(w, h, u, run, true)[0] == Expected(w, h, u.division)
    decreases |run|
  {
    if run == [] {
    } else {
      var c, rest := run[0], run[1..];
      var next := UnitNext(w, h, u, c);
      FitsNext(w, h, u, c);
      if u.job.Ready? && u.product.Nothing? {
        QuotientIsGiven(w, h, u, c);
      } else {
        DivisionGoesOn(w, h, u, c);
        QuotientComesOut(w, h, next, rest);
      }
    }
  }

  // An accepted division is not answered before its iterations are done, at most
  // the width plus one, and then in the first cycle in which no product takes
  // precedence, so after at most its iterations and those products.
  lemma DivisionComesOut(w: nat, h: nat, u: Inside, run: seq<UnitCycle>)
    requires Widths(w, h) && InsideFits(w, u) && AllowedRun(w, h, u, run) && run != []
    requires run[0].valid && IsDivision(run[0].f.op)
    ensures var c := run[0];
      var n := Iterations(w, DividerInput(w, h, c.f, c.valid, c.flush, u.product.Computing?).op);
      && n <= w + 1
      && (|run| <= n + 1 ==> AllGiven(w, h, u, run, true) == [])
      && (|run| > n + 1 + Products(w, h, u, run) ==>
            AllGiven(w, h, u, run, true) != [] && AllGiven(w, h, u, run, true)[0] == Expected(w, h, c.f))
  {
    var c := run[0];
    var i := DividerInput(w, h, c.f, c.valid, c.flush, u.product.Computing?);
    EveryOperationFinishes(w, [i]);
    CycleBalances(w, h, u, c, true);
    assert Gives(w, h, u, c, true) == [];
    QuotientComesOut(w, h, UnitNext(w, h, u, c), run[1..]);
  }

  // ---------- The registers of the unit ----------

  // The product register holds the pending multiplication.
  ghost predicate MulTracks(w: nat, h: nat, product: Pending, valid: bool, id: nat, op: Operator, reg: nat)
    requires h > 0 && w > 0
  {
    && valid == product.Computing?
    && (valid ==> id == product.f.id && Selected(w, h, op, reg) == UnitResult(w, h, product.f))
  }

  // The divider works on the division at hand, and the word flag belongs to it.
  ghost predicate DivTracks(w: nat, h: nat, job: Job, division: FuData, wordOp: bool)
    requires h > 0
  {
    job.NoJob? ||
    (IsDivision(division.op) && wordOp == IsWordDivision(division.op) && job.op == DividerOp(w, h, division))
  }

  lemma QuotientDelivered(w: nat, h: nat, job: Job, division: FuData, wordOp: bool, i: Input, o: Output)
    requires h > 0 && w > 0
    requires DivTracks(w, h, job, division, wordOp) && Answers(w, job, i, o) && o.outValid
    ensures o.id == division.id
    ensures (if wordOp then Sext(w, h, o.res) else o.res) == UnitResult(w, h, division)
  {
  }

  class Unit {
    const w: nat
    const h: nat
    const divider: Divider
    var mulValid: bool      // mult_valid_q
    var mulId: nat          // trans_id_q
    var mulOp: Operator     // operator_q
    var mulProduct: nat     // mult_result_q
    var wordOp: bool        // word_op_q
    ghost var product: Pending   // the multiplication in the pipeline register
    ghost var division: FuData   // the operation the divider works on, if any

    ghost function State(): Inside
      reads this, divider
    {
      Inside(product, divider.job, division)
    }

    ghost predicate Valid()
      reads this, divider
    {
      && Widths(w, h) && divider.Valid() && divider.width == w
      && MulTracks(w, h, product, mulValid, mulId, mulOp, mulProduct)
      && DivTracks(w, h, divider.job, division, wordOp)
    }

    constructor (xlen: nat, word: nat)
      requires Widths(xlen, word)
      ensures Valid() && fresh(divider) && w == xlen && h == word
      ensures product == Nothing && divider.job == NoJob
    {
      w, h := xlen, word;
      divider := new Divider(xlen);
      mulValid, mulId, mulOp, mulProduct, wordOp := false, 0, MUL, 0, false;
      product := Nothing;
    }

    // One clock cycle. A division may start only when the divider is idle: the
    // issue stage has seen mult_ready_o in the cycle before. A multiplication
    // result takes precedence at the output and never displaces a quotient.
    method Step(f: FuData, valid: bool, flush: bool) returns (o: UnitOutput)
      requires Valid() && OperandsFit(w, f)
      requires valid && IsDivision(f.op) ==> divider.job.NoJob?
      modifies this, divider
      ensures Valid() && State() == UnitNext(w, h, old(State()), UnitCycle(f, valid, flush))
      ensures var out := OutOf(w, h, old(State()), UnitCycle(f, valid, flush));
        o.valid == (out != []) && (o.valid ==> Answer(o.id, o.result) == out[0])
      ensures o.ready == (old(divider.job).NoJob? && !flush && !(valid && IsDivision(f.op)))
    {
      ghost var job := divider.job;
      var i := DividerInput(w, h, f, valid, flush, mulValid);
      var d := divider.Step(i);
      if d.outValid {
        QuotientDelivered(w, h, job, division, wordOp, i, d);
      }
      o := Arbitrate(d);
      LatchProduct(f, valid && !flush && !IsDivision(f.op));
      if valid && IsDivision(f.op) {
        LatchDivision(f, i, job);
      }
    }

    // The flag for word results, with the division it is about.
    method LatchDivision(f: FuData, ghost i: Input, ghost before: Job)
      requires h > 0 && w > 0 && IsDivision(f.op) && before.NoJob? && Fits(w, i.op)
      requires divider.job == JobNext(w, before, i) && (i.valid ==> i.op == DividerOp(w, h, f))
      modifies this`wordOp, this`division
      ensures division == f && DivTracks(w, h, divider.job, division, wordOp)
    {
      wordOp := IsWordDivision(f.op);
      division := f;
    }

    // The output: a product takes precedence over a quotient.
    method Arbitrate(d: Output) returns (o: UnitOutput)
      requires w > 0 && h > 0
      ensures o.valid == (d.outValid || mulValid) && o.ready == d.inReady
      ensures mulValid ==> o.id == mulId && o.result == Selected(w, h, mulOp, mulProduct)
      ensures !mulValid ==> o.id == d.id && o.result == if wordOp then Sext(w, h, d.res) else d.res
    {
      var divResult := if wordOp then Sext(w, h, d.res) else d.res;
      o := UnitOutput(if mulValid then Selected(w, h, mulOp, mulProduct) else divResult,
                      d.outValid || mulValid, d.inReady, if mulValid then mulId else d.id);
    }

    // The multiplier's pipeline register.
    method LatchProduct(f: FuData, valid: bool)
      requires w > 0 && h > 0 && (valid ==> !IsDivision(f.op))
      modifies this`mulValid, this`mulId, this`mulOp, this`mulProduct, this`product
      ensures product == if valid then Computing(f) else Nothing
      ensures MulTracks(w, h, product, mulValid, mulId, mulOp, mulProduct)
    {
      mulValid, mulId, mulOp := valid, f.id, f.op;
      mulProduct := Wrap(2 * w, Product(w, f.op, f.a, f.b));
      product := if valid then Computing(f) else Nothing;
    }
  }
}
