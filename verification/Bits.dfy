/**
  Fixed-width words as natural numbers: powers of two, bit lengths, and the
  two's-complement reading of a word.
*/
module Bits {

  function Pow2(n: nat): (r: nat)
    ensures r >= 1
  {
    if n == 0 then 1 else 2 * Pow2(n - 1)
  }

  lemma {:induction false} Pow2Add(m: nat, n: nat)
    ensures Pow2(m + n) == Pow2(m) * Pow2(n)
  {
    if m == 0 {
    } else {
      Pow2Add(m - 1, n);
      assert Pow2(m + n) == 2 * Pow2(m - 1 + n);
    }
  }

  lemma {:induction false} Pow2Mono(m: nat, n: nat)
    requires m <= n
    ensures Pow2(m) <= Pow2(n)
    decreases n
  {
    if m == n {
    } else {
      Pow2Mono(m, n - 1);
    }
  }

  // The position just above the most significant set bit. A leading-zero
  // counter over a w-bit word x returns w - BitLen(x).
  function BitLen(x: nat): (n: nat)
    ensures n == 0 <==> x == 0
    ensures x < Pow2(n)
    ensures x > 0 ==> Pow2(n - 1) <= x
  {
    if x == 0 then 0 else 1 + BitLen(x / 2)
  }

  lemma BitLenAtMost(x: nat, n: nat)
    requires x < Pow2(n)
    ensures BitLen(x) <= n
  {
    if x > 0 && n <= BitLen(x) - 1 {
      Pow2Mono(n, BitLen(x) - 1);
      assert false;
    }
  }

  // The two's-complement value of the w-bit word x.
  function Signed(w: nat, x: nat): int
    requires w > 0
  {
    if x < Pow2(w - 1) then x else x - Pow2(w)
  }

  // The w-bit word that represents v.
  function Wrap(w: nat, v: int): (r: nat)
    ensures r < Pow2(w)
  {
    v % Pow2(w)
  }

  lemma WrapIn(w: nat, v: int)
    requires 0 <= v < Pow2(w)
    ensures Wrap(w, v) == v
  {
    DivModUnique(v, Pow2(w), 0, v);
  }

  lemma WrapNegative(w: nat, v: int)
    requires -(Pow2(w) as int) <= v < 0
    ensures Wrap(w, v) == v + Pow2(w)
  {
    DivModUnique(v, Pow2(w), -1, v + Pow2(w));
  }

  // The largest multiple of n up to x.
  function RoundDown(x: nat, n: nat): (r: nat)
    requires n > 0
    ensures r <= x < r + n
  {
    x - x % n
  }

  // Quotient and remainder of Euclidean division are the only pair with 0 <= r < m.
  lemma DivModUnique(x: int, m: int, q: int, r: int)
    requires m > 0 && 0 <= r < m && x == q * m + r
    ensures x / m == q && x % m == r
  {
    var d := x / m - q;
    assert d * m == r - x % m by {
      assert x == (x / m) * m + x % m;
      assert (x / m - q) * m == (x / m) * m - q * m;
    }
    MultipleBelow(d, m);
  }

  // The only multiple of m strictly between -m and m is zero.
  lemma MultipleBelow(d: int, m: int)
    requires m > 0 && -m < d * m < m
    ensures d == 0
  {
  }

  // Numbers less than m apart have different remainders.
  lemma RemaindersDiffer(x: nat, y: nat, m: nat)
    requires x < y < x + m
    ensures x % m != y % m
  {
    if x % m == y % m {
      var q, q' := x / m, y / m;
      assert (q' - q) * m == y - x by {
        assert (q' - q) * m == q' * m - q * m;
      }
      MultipleBelow(q' - q, m);
      assert false;
    }
  }

  lemma ModShift(x: int, k: int, m: int)
    requires m > 0
    ensures (x + k * m) % m == x % m
  {
    var q, r := x / m, x % m;
    assert x + k * m == (q + k) * m + r by {
      assert (q + k) * m == q * m + k * m;
    }
    DivModUnique(x + k * m, m, q + k, r);
  }
}
