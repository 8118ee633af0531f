/**
  Byte strings: little-endian numbers, 32-bit words, and replacing a range.
*/
module Bytes {
  import Bits

  type Byte = x: nat | x < 256

  // ---------- Little-endian numbers ----------

  function Value(bs: seq<Byte>): nat {
    if bs == [] then 0 else bs[0] + 256 * Value(bs[1..])
  }

  function Encode(v: nat, n: nat): (bs: seq<Byte>)
    ensures |bs| == n
  {
    if n == 0 then [] else [v % 256] + Encode(v / 256, n - 1)
  }

  lemma {:induction false} EncodeValue(bs: seq<Byte>)
    ensures Encode(Value(bs), |bs|) == bs
  {
    if bs == [] {
    } else {
      EncodeValue(bs[1..]);
      DigitOf(bs[0], Value(bs[1..]));
    }
  }

  lemma DigitOf(digit: Byte, rest: nat)
    ensures (digit + 256 * rest) % 256 == digit && (digit + 256 * rest) / 256 == rest
  {
  }

  function Span(n: nat): (s: nat)
    ensures s >= 1
  {
    if n == 0 then 1 else 256 * Span(n - 1)
  }

  lemma {:induction false} ValueEncode(v: nat, n: nat)
    requires v < Span(n)
    ensures Value(Encode(v, n)) == v
  {
    if n == 0 {
    } else {
      assert v / 256 < Span(n - 1);
      ValueEncode(v / 256, n - 1);
      assert Encode(v, n)[1..] == Encode(v / 256, n - 1);
    }
  }

  lemma {:induction false} ValueBelow(bs: seq<Byte>)
    ensures Value(bs) < Span(|bs|)
  {
    if bs == [] {
    } else {
      ValueBelow(bs[1..]);
    }
  }

  lemma {:induction false} ValueOfConcat(a: seq<Byte>, b: seq<Byte>)
    ensures Value(a + b) == Value(a) + Span(|a|) * Value(b)
  {
    if a == [] {
      assert a + b == b;
    } else {
      ValueOfConcat(a[1..], b);
      assert (a + b)[1..] == a[1..] + b;
      Regroup(Span(|a| - 1), Value(b));
    }
  }

  lemma Regroup(s: nat, v: nat)
    ensures 256 * (s * v) == (256 * s) * v
  {
  }

  // The lowest byte of a number, and the number above it, to base 256 * k.
  lemma LowByteFirst(v: nat, k: nat)
    requires k >= 1
    ensures v % (256 * k) == v % 256 + 256 * ((v / 256) % k) && v / (256 * k) == (v / 256) / k
  {
    var q, r := v / 256, v % 256;
    var q', r' := q / k, q % k;
    assert v == q' * (256 * k) + (256 * r' + r) by {
      assert q == q' * k + r' && 256 * (q' * k) == q' * (256 * k);
    }
    Bits.DivModUnique(v, 256 * k, q', 256 * r' + r);
  }

  lemma SpanOfWords()
    ensures Span(1) == 0x100 && Span(2) == 0x1_0000
    ensures Span(4) == 0x1_0000_0000 && Span(8) == 0x1_0000_0000_0000_0000
  {
    assert Span(2) == 256 * Span(1);
    assert Span(4) == 256 * Span(3);
    assert Span(6) == 256 * Span(5);
    assert Span(8) == 256 * Span(7);
  }

  // ---------- Words ----------

  // The 32-bit words of an n-byte number, least significant first.
  function Words(v: nat, n: nat): (ws: seq<nat>)
    requires n == 4 || n == 8
    ensures |ws| == n / 4
  {
    if n == 4 then [v] else [v % 0x1_0000_0000, v / 0x1_0000_0000]
  }

  function Joined(ws: seq<nat>): nat
    requires |ws| == 1 || |ws| == 2
  {
    if |ws| == 1 then ws[0] else ws[0] + 0x1_0000_0000 * ws[1]
  }

  lemma WordsSplit(lo: nat, hi: nat)
    requires lo < 0x1_0000_0000
    ensures (lo + 0x1_0000_0000 * hi) % 0x1_0000_0000 == lo && (lo + 0x1_0000_0000 * hi) / 0x1_0000_0000 == hi
  {
  }

  // Copying words into bytes and back, as memcpy does on a little-endian host.
  function BytesOfWords(ws: seq<nat>): (bs: seq<Byte>)
    ensures |bs| == 4 * |ws|
  {
    if ws == [] then [] else Encode(ws[0], 4) + BytesOfWords(ws[1..])
  }

  function WordsOfBytes(bs: seq<Byte>): (ws: seq<nat>)
    requires |bs| % 4 == 0
    ensures |ws| == |bs| / 4
    ensures forall i :: 0 <= i < |ws| ==> ws[i] < 0x1_0000_0000
  {
    if bs == [] then []
    else
      ValueBelow(bs[..4]);
      SpanOfWords();
      [Value(bs[..4])] + WordsOfBytes(bs[4..])
  }

  lemma {:induction false} WordsRoundTrip(bs: seq<Byte>)
    requires |bs| % 4 == 0
    ensures BytesOfWords(WordsOfBytes(bs)) == bs
  {
    if bs == [] {
    } else {
      WordsRoundTrip(bs[4..]);
      EncodeValue(bs[..4]);
      assert WordsOfBytes(bs)[1..] == WordsOfBytes(bs[4..]);
    }
  }

  // The words of a string are the words of its value.
  lemma OneWord(bs: seq<Byte>)
    requires |bs| == 4
    ensures WordsOfBytes(bs) == [Value(bs)]
  {
    assert bs[..4] == bs;
    assert WordsOfBytes(bs[4..]) == [];
  }

  lemma TwoWords(bs: seq<Byte>)
    requires |bs| == 8
    ensures WordsOfBytes(bs) == [Value(bs[..4]), Value(bs[4..])]
    ensures Value(bs) == Value(bs[..4]) + 0x1_0000_0000 * Value(bs[4..])
  {
    OneWord(bs[4..]);
    assert bs[..4] + bs[4..] == bs;
    ValueOfConcat(bs[..4], bs[4..]);
    SpanOfWords();
  }

  lemma WordsOfValue(bs: seq<Byte>)
    requires |bs| == 4 || |bs| == 8
    ensures WordsOfBytes(bs) == Words(Value(bs), |bs|)
    ensures Joined(WordsOfBytes(bs)) == Value(bs)
  {
    if |bs| == 4 {
      OneWord(bs);
    } else {
      TwoWords(bs);
      var lo, hi := Value(bs[..4]), Value(bs[4..]);
      assert lo < 0x1_0000_0000 by {
        ValueBelow(bs[..4]);
        SpanOfWords();
      }
      WordsSplit(lo, hi);
    }
  }

  // ---------- Replacing a range ----------

  function Splice<T>(s: seq<T>, at: nat, part: seq<T>): (r: seq<T>)
    requires at + |part| <= |s|
    ensures |r| == |s|
    ensures r[at..at + |part|] == part
  {
    s[..at] + part + s[at + |part|..]
  }

  lemma SpliceTwice<T>(s: seq<T>, at: nat, a: seq<T>, b: seq<T>)
    requires at + |a| + |b| <= |s|
    ensures Splice(Splice(s, at, a), at + |a|, b) == Splice(s, at, a + b)
  {
  }

  lemma SliceJoin<T>(m: seq<T>, a: nat, b: nat, c: nat)
    requires a <= b <= c <= |m|
    ensures m[a..b] + m[b..c] == m[a..c]
  {
  }

  lemma SliceInSlice<T>(s: seq<T>, a: nat, b: nat, x: nat, y: nat)
    requires a <= b <= |s| && x <= y <= b - a
    ensures s[a..b][x..y] == s[a + x..a + y]
  {
    var whole := s[a..b];
    forall k | 0 <= k < y - x ensures whole[x..y][k] == s[a + x..a + y][k] {
      assert whole[x + k] == s[a + x + k];
    }
    assert whole[x..y] == s[a + x..a + y];
  }

  // Copying two neighbouring slices one after the other.
  lemma SpliceSlices<T>(s: seq<T>, at: nat, m: seq<T>, a: nat, x: nat, y: nat)
    requires at + x + y <= |s| && a + x + y <= |m|
    ensures Splice(Splice(s, at, m[a..a + x]), at + x, m[a + x..a + x + y]) == Splice(s, at, m[a..a + x + y])
  {
    var first, second := m[a..a + x], m[a + x..a + x + y];
    assert first + second == m[a..a + x + y] by {
      SliceJoin(m, a, a + x, a + x + y);
    }
    SpliceTwice(s, at, first, second);
  }

  lemma SplicePrefixes<T>(s: seq<T>, at: nat, m: seq<T>, x: nat, y: nat)
    requires at + y <= |s| && x <= y <= |m|
    ensures Splice(Splice(s, at, m[..x]), at + x, m[x..y]) == Splice(s, at, m[..y])
  {
    var first, second := m[..x], m[x..y];
    assert first + second == m[..y];
    SpliceTwice(s, at, first, second);
  }

  lemma SpliceOneMore<T>(s: seq<T>, part: seq<T>, i: nat)
    requires i < |part| <= |s|
    ensures Splice(s, 0, part[..i])[i := part[i]] == Splice(s, 0, part[..i + 1])
  {
  }

  lemma SpliceAt<T>(s: seq<T>, at: nat, part: seq<T>, k: nat)
    requires at + |part| <= |s| && k < |s|
    ensures Splice(s, at, part)[k] == if at <= k < at + |part| then part[k - at] else s[k]
  {
  }

  lemma SpliceNothing<T>(s: seq<T>, at: nat)
    requires at <= |s|
    ensures Splice(s, at, []) == s
  {
  }
}
