/**
  What the answers of the multiply/divide unit are, operator by operator, in
  terms of multiplication, addition and order alone: quotient and remainder
  recombine to the dividend, the two halves of a product make it up, and the W
  forms do the same to the low words. These laws name neither the reference
  results of section 6 of the RISC-V User-Level ISA v2.2 nor the classes of
  operators of module MultiplyDivide.
*/
module ArithmeticLaws {
  import opened Bits
  import opened SerialDivider
  import opened MultiplyDivide

  // The unit's answer to one operation.
  function Answered(w: nat, h: nat, op: Operator, a: nat, b: nat): nat
    requires w > 0 && h > 0
  {
    UnitResult(w, h, FuData(op, a, b, 0))
  }

  // ---------- Signed words ----------

  // The two's-complement value of a word is in range and has the word's bits.
  lemma SignedRange(n: nat, x: nat)
    requires n > 0 && x < Pow2(n)
    ensures -(Pow2(n - 1) as int) <= Signed(n, x) < Pow2(n - 1) && Wrap(n, Signed(n, x)) == x
  {
    if x < Pow2(n - 1) {
      WrapIn(n, x);
    } else {
      WrapNegative(n, x - Pow2(n));
    }
  }

  lemma SignedOfWrap(n: nat, v: int)
    requires n > 0 && -(Pow2(n - 1) as int) <= v < Pow2(n - 1)
    ensures Signed(n, Wrap(n, v)) == v
  {
    if v < 0 {
      WrapNegative(n, v);
    } else {
      WrapIn(n, v);
    }
  }

  // The full-width word that sign-extends a word u.
  lemma Extended(w: nat, h: nat, u: nat)
    requires Widths(w, h) && u < Pow2(h)
    ensures var e := Wrap(w, Signed(h, u)); Signed(w, e) == Signed(h, u) && Wrap(h, e) == u
  {
    WrapIn(h, u);
    SextValue(w, h, u);
  }

  // ---------- Division ----------

  // x = q * y + r with the remainder below the divisor, on the dividend's side.
  ghost predicate Recombines(x: int, y: int, q: int, r: int) {
    x == q * y + r && Abs(r) < Abs(y) && (r != 0 ==> (r < 0 <==> x < 0))
  }

  lemma QuotientBound(x: int, y: int, q: int, r: int, top: int)
    requires y != 0 && -top <= x <= top && Recombines(x, y, q, r) && Abs(r) <= Abs(x)
    ensures -top <= q <= top
    ensures q == top > 0 ==> (x == top && y == 1) || (x == -top && y == -1)
  {
    Grows(y, q);
  }

  lemma Grows(y: int, q: int)
    requires y != 0
    ensures Abs(q) <= Abs(q * y) && (Abs(y) > 1 && q != 0 ==> Abs(q) < Abs(q * y))
  {
    ProductMono(1, Abs(y), Abs(q));
    if Abs(y) > 1 {
      ProductMono(2, Abs(y), Abs(q));
    }
    assert Abs(q * y) == Abs(q) * Abs(y);
  }

  lemma BelowDividend(x: nat, y: nat, m: nat)
    requires y > 0 && m == x / y
    ensures m <= x && x % y <= x && x % y < y && x == m * y + x % y
  {
    ProductMono(1, y, m);
  }

  lemma Truncated(x: int, y: int) returns (q: int, r: int)
    requires y != 0
    ensures q == TruncDiv(x, y) && r == TruncRem(x, y) && Recombines(x, y, q, r) && Abs(r) <= Abs(x)
  {
    q, r := TruncDiv(x, y), TruncRem(x, y);
    TruncDivision(x, y);
    assert y * q == q * y;
    BelowDividend(Abs(x), Abs(y), Abs(x) / Abs(y));
  }

  // The signed rows of the table, at any width.
  lemma SignedRows(n: nat, a: nat, b: nat)
    requires n >= 2 && a < Pow2(n) && 0 < b < Pow2(n)
    ensures var q := Reference(n, Op(Opcode(true, false), a, b, 0));
      var r := Reference(n, Op(Opcode(true, true), a, b, 0));
      && q < Pow2(n) && r < Pow2(n)
      && if a == Pow2(n - 1) && b == Pow2(n) - 1 then q == a && r == 0
         else Recombines(Signed(n, a), Signed(n, b), Signed(n, q), Signed(n, r))
  {
    var x, y := Signed(n, a), Signed(n, b);
    SignedRange(n, a);
    SignedRange(n, b);
    if a == Pow2(n - 1) && b == Pow2(n) - 1 {
      SignedOverflowRow(n, false);
      SignedOverflowRow(n, true);
    } else {
      var q, r := Truncated(x, y);
      QuotientBound(x, y, q, r, Pow2(n - 1));
      SignedOfWrap(n, q);
      SignedOfWrap(n, r);
    }
  }

  // DIV and REM, for every nonzero divisor but the pair (-1, 1), overflow
  // included.
  lemma DivAndRem(w: nat, h: nat, a: nat, b: nat)
    requires Widths(w, h) && a < Pow2(w) && 0 < b < Pow2(w) && !(a == Pow2(w) - 1 && b == 1)
    ensures var q, r := Answered(w, h, DIV, a, b), Answered(w, h, REM, a, b);
      if a == Pow2(w - 1) && b == Pow2(w) - 1 then q == a && r == 0
      else Recombines(Signed(w, a), Signed(w, b), Signed(w, q), Signed(w, r))
  {
    SignedRows(w, a, b);
  }

  // The same for DIVW and REMW on the low words; the answers are sign-extended.
  lemma DivwAndRemw(w: nat, h: nat, a: nat, b: nat)
    requires Widths(w, h) && a < Pow2(w) && b < Pow2(w) && Wrap(h, b) != 0
    requires !(Wrap(h, a) == Pow2(h) - 1 && Wrap(h, b) == 1)
    ensures var q, r := Answered(w, h, DIVW, a, b), Answered(w, h, REMW, a, b);
      && Signed(w, q) == Signed(h, Wrap(h, q)) && Signed(w, r) == Signed(h, Wrap(h, r))
      && if Wrap(h, a) == Pow2(h - 1) && Wrap(h, b) == Pow2(h) - 1 then Wrap(h, q) == Wrap(h, a) && r == 0
         else Recombines(Signed(h, Wrap(h, a)), Signed(h, Wrap(h, b)), Signed(w, q), Signed(w, r))
  {
    SignedRows(h, Wrap(h, a), Wrap(h, b));
    WordAnswer(w, h, DIVW, a, b);
    WordAnswer(w, h, REMW, a, b);
    WrapIn(w, 0);
    Pow2Mono(1, h - 1);
  }

  lemma WordAnswer(w: nat, h: nat, op: Operator, a: nat, b: nat)
    requires Widths(w, h) && a < Pow2(w) && b < Pow2(w) && op in {DIVW, DIVUW, REMW, REMUW}
    requires op in {DIVW, REMW} ==> !(Wrap(h, a) == Pow2(h) - 1 && Wrap(h, b) == 1)
    ensures var u := Reference(h, Op(Opcode(op in {DIVW, REMW}, op in {REMW, REMUW}), Wrap(h, a), Wrap(h, b), 0));
      u < Pow2(h) ==>
        && Answered(w, h, op, a, b) == Wrap(w, Signed(h, u))
        && Signed(w, Answered(w, h, op, a, b)) == Signed(h, u) && Wrap(h, Answered(w, h, op, a, b)) == u
  {
    var u := Reference(h, Op(Opcode(op in {DIVW, REMW}, op in {REMW, REMUW}), Wrap(h, a), Wrap(h, b), 0));
    UnitMeetsIsa(w, h, FuData(op, a, b, 0));
    if u < Pow2(h) {
      Extended(w, h, u);
    }
  }

  lemma UnsignedRows(a: nat, b: nat)
    requires b > 0
    ensures a == (a / b) * b + a % b && a % b < b && a / b <= a && a % b <= a
  {
    BelowDividend(a, b, a / b);
  }

  lemma DivuAndRemu(w: nat, h: nat, a: nat, b: nat)
    requires Widths(w, h) && a < Pow2(w) && 0 < b < Pow2(w)
    ensures var q, r := Answered(w, h, DIVU, a, b), Answered(w, h, REMU, a, b);
      a == q * b + r && r < b
  {
    UnsignedRows(a, b);
  }

  // On the low words taken as unsigned numbers; the answers are still
  // sign-extended from the word.
  lemma DivuwAndRemuw(w: nat, h: nat, a: nat, b: nat)
    requires Widths(w, h) && a < Pow2(w) && b < Pow2(w) && Wrap(h, b) != 0
    ensures var q, r := Answered(w, h, DIVUW, a, b), Answered(w, h, REMUW, a, b);
      && Wrap(h, a) == Wrap(h, q) * Wrap(h, b) + Wrap(h, r) && Wrap(h, r) < Wrap(h, b)
      && Signed(w, q) == Signed(h, Wrap(h, q)) && Signed(w, r) == Signed(h, Wrap(h, r))
  {
    UnsignedRows(Wrap(h, a), Wrap(h, b));
    WordAnswer(w, h, DIVUW, a, b);
    WordAnswer(w, h, REMUW, a, b);
  }

  // A zero divisor gives all ones, and the dividend for a remainder.
  lemma ZeroDivisor(w: nat, h: nat, a: nat, b: nat)
    requires Widths(w, h) && a < Pow2(w) && b < Pow2(w)
    ensures b == 0 ==>
      && Answered(w, h, DIV, a, b) == Answered(w, h, DIVU, a, b) == Pow2(w) - 1
      && Answered(w, h, REM, a, b) == Answered(w, h, REMU, a, b) == a
    ensures Wrap(h, b) == 0 ==>
      && Answered(w, h, DIVW, a, b) == Answered(w, h, DIVUW, a, b) == Pow2(w) - 1
      && Answered(w, h, REMW, a, b) == Answered(w, h, REMUW, a, b) == Wrap(w, Signed(h, Wrap(h, a)))
  {
    if Wrap(h, b) == 0 {
      WordAnswer(w, h, DIVW, a, b);
      WordAnswer(w, h, DIVUW, a, b);
      WordAnswer(w, h, REMW, a, b);
      WordAnswer(w, h, REMUW, a, b);
      Pow2Mono(1, h - 1);
      WrapNegative(w, -1);
    }
  }

  // ---------- Multiplication ----------

  // The high half v / 2^w of a product of two words, and its low half below it.
  lemma TwoHalves(w: nat, v: int, low: nat, high: nat)
    requires w > 0 && low == Wrap(w, v) && high == Wrap(w, v / Pow2(w))
    ensures 0 <= v / Pow2(w) < Pow2(w) ==> high * Pow2(w) + low == v
    ensures -(Pow2(w - 1) as int) <= v / Pow2(w) < Pow2(w - 1) ==> Signed(w, high) * Pow2(w) + low == v
  {
    var q := v / Pow2(w);
    assert v == q * Pow2(w) + v % Pow2(w);
    if 0 <= q < Pow2(w) {
      WrapIn(w, q);
    }
    if -(Pow2(w - 1) as int) <= q < Pow2(w - 1) {
      SignedOfWrap(w, q);
    }
  }

  // Quotients of bounded products.
  lemma HighBound(v: int, lo: int, hi: int, p: int)
    requires p > 0 && lo * p <= v < hi * p
    ensures lo <= v / p < hi
  {
    var q := v / p;
    assert v == q * p + v % p;
    if q < lo {
      Scale(q + 1, lo, p);
    }
    if hi <= q {
      Scale(hi, q, p);
    }
  }

  lemma Scale(x: int, y: int, k: int)
    requires k >= 0 && x <= y
    ensures x * k <= y * k && (x + 1) * k == x * k + k
  {
  }

  lemma ProductBounds(x: int, y: int, s: int, t: int)
    requires -s <= x <= s && 0 <= y < t
    ensures (0 - s) * t <= x * y <= s * t && (x < s ==> x * y < s * t)
  {
    if x < 0 {
      MagnitudeBound(-x, y, s, t);
      assert x * y == -((-x) * y);
    } else {
      MagnitudeBound(x, y, s, t);
    }
    assert (0 - s) * t == -(s * t);
  }

  lemma MagnitudeBound(x: int, y: int, s: int, t: int)
    requires 0 <= x <= s && 0 <= y < t
    ensures 0 <= x * y <= s * t && (0 < s ==> x * y < s * t)
  {
    Scale(x, s, y);
    assert s * y <= s * t && (s > 0 ==> s * y + s <= s * t) by {
      Scale(y, t, s);
      Scale(y + 1, t, s);
    }
  }

  // MUL is the low half; its MULH, MULHU and MULHSU companions complete it to the
  // product of two signed, two unsigned, and a signed and an unsigned factor.
  lemma MulhuCompletes(w: nat, h: nat, a: nat, b: nat)
    requires Widths(w, h) && a < Pow2(w) && b < Pow2(w)
    ensures Answered(w, h, MULHU, a, b) * Pow2(w) + Answered(w, h, MUL, a, b) == a * b
  {
    LowHalf(w, h, a, b, a, b);
    ProductBounds(a, b, Pow2(w), Pow2(w));
    HighBound(a * b, 0, Pow2(w), Pow2(w));
    UnitMeetsIsa(w, h, FuData(MULHU, a, b, 0));
    TwoHalves(w, a * b, Answered(w, h, MUL, a, b), Answered(w, h, MULHU, a, b));
  }

  lemma LowHalf(w: nat, h: nat, a: nat, b: nat, x: int, y: int)
    requires Widths(w, h) && a < Pow2(w) && b < Pow2(w)
    requires (x == a || x == Signed(w, a)) && (y == b || y == Signed(w, b))
    ensures Answered(w, h, MUL, a, b) == Wrap(w, x * y)
  {
    UnitMeetsIsa(w, h, FuData(MUL, a, b, 0));
    SignedCongruent(w, a);
    SignedCongruent(w, b);
    CongruentProduct(w, Signed(w, a), Signed(w, b), x, y);
  }

  lemma MulhsuCompletes(w: nat, h: nat, a: nat, b: nat)
    requires Widths(w, h) && a < Pow2(w) && b < Pow2(w)
    ensures Signed(w, Answered(w, h, MULHSU, a, b)) * Pow2(w) + Answered(w, h, MUL, a, b) == Signed(w, a) * b
  {
    var x := Signed(w, a);
    SignedRange(w, a);
    LowHalf(w, h, a, b, x, b);
    ProductBounds(x, b, Pow2(w - 1), Pow2(w));
    HighBound(x * b, -(Pow2(w - 1) as int), Pow2(w - 1), Pow2(w));
    UnitMeetsIsa(w, h, FuData(MULHSU, a, b, 0));
    TwoHalves(w, x * b, Answered(w, h, MUL, a, b), Answered(w, h, MULHSU, a, b));
  }

  lemma SignedProductBounds(x: int, y: int, s: int)
    requires -s <= x < s && -s <= y < s
    ensures (0 - s) * (2 * s) <= x * y < s * (2 * s)
  {
    if y >= 0 {
      ProductBounds(x, y, s, 2 * s);
    } else {
      ProductBounds(-x, -y, s, 2 * s);
      MagnitudeBound(s, -y, s, 2 * s);
      assert x * y == (-x) * (-y);
    }
  }

  lemma MulhCompletes(w: nat, h: nat, a: nat, b: nat)
    requires Widths(w, h) && a < Pow2(w) && b < Pow2(w)
    ensures Signed(w, Answered(w, h, MULH, a, b)) * Pow2(w) + Answered(w, h, MUL, a, b)
         == Signed(w, a) * Signed(w, b)
  {
    var x, y := Signed(w, a), Signed(w, b);
    SignedRange(w, a);
    SignedRange(w, b);
    LowHalf(w, h, a, b, x, y);
    SignedProductBounds(x, y, Pow2(w - 1));
    HighBound(x * y, -(Pow2(w - 1) as int), Pow2(w - 1), Pow2(w));
    UnitMeetsIsa(w, h, FuData(MULH, a, b, 0));
    TwoHalves(w, x * y, Answered(w, h, MUL, a, b), Answered(w, h, MULH, a, b));
  }

  // MULW is the low word of the product, sign-extended.
  lemma MulwIsLowWord(w: nat, h: nat, a: nat, b: nat)
    requires Widths(w, h) && a < Pow2(w) && b < Pow2(w)
    ensures var r := Answered(w, h, MULW, a, b);
      Wrap(h, r) == Wrap(h, a * b) && Signed(w, r) == Signed(h, Wrap(h, r))
  {
    UnitMeetsIsa(w, h, FuData(MULW, a, b, 0));
    LowWord(h, a);
    LowWord(h, b);
    CongruentProduct(h, Signed(h, Wrap(h, a)), Signed(h, Wrap(h, b)), a, b);
    var u := Wrap(h, Signed(h, Wrap(h, a)) * Signed(h, Wrap(h, b)));
    WrapIn(h, u);
    Extended(w, h, u);
  }
}
