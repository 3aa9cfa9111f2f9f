/** Positional numerals in any base, most significant digit first. */
module Numerals {

  function Pow(b: nat, k: nat): (p: nat)
    ensures b > 0 ==> p > 0
  {
    if k == 0 then 1 else b * Pow(b, k - 1)
  }

  predicate AreDigits(b: nat, s: seq<nat>) {
    forall i :: 0 <= i < |s| ==> s[i] < b
  }

  /** The number `s` spells in base `b`. */
  function Value(b: nat, s: seq<nat>): nat {
    if s == [] then 0 else Value(b, s[..|s| - 1]) * b + s[|s| - 1]
  }

  /** A numeral without leading zero; zero is the empty numeral. */
  predicate Canonical(b: nat, s: seq<nat>) {
    AreDigits(b, s) && (s != [] ==> s[0] != 0)
  }

  /** The canonical numeral of `n`. */
  function Numeral(b: nat, n: nat): (s: seq<nat>)
    requires b >= 2
    ensures Canonical(b, s)
    ensures n == 0 <==> s == []
  {
    if n == 0 then [] else Numeral(b, n / b) + [n % b]
  }

  lemma {:induction false} PowAdd(b: nat, i: nat, j: nat)
    ensures Pow(b, i + j) == Pow(b, i) * Pow(b, j)
    decreases i
  {
    if i == 0 {
    } else {
      PowAdd(b, i - 1, j);
      assert b * (Pow(b, i - 1) * Pow(b, j)) == (b * Pow(b, i - 1)) * Pow(b, j);
    }
  }

  lemma {:induction false} PowMonotone(b: nat, i: nat, j: nat)
    requires b > 0 && i <= j
    ensures Pow(b, i) <= Pow(b, j)
    decreases j
  {
    if i == j {
    } else {
      PowMonotone(b, i, j - 1);
      MulAtLeast(b, Pow(b, j - 1));
    }
  }

  lemma {:induction false} PowBaseMonotone(a: nat, b: nat, k: nat)
    requires a <= b
    ensures Pow(a, k) <= Pow(b, k)
    decreases k
  {
    if k == 0 {
    } else {
      PowBaseMonotone(a, b, k - 1);
      MulMonotone(a, b, Pow(a, k - 1), Pow(b, k - 1));
    }
  }

  lemma MulAtLeast(b: nat, p: nat)
    requires b > 0
    ensures p <= b * p
  {
  }

  lemma MulMonotone(a: nat, b: nat, x: nat, y: nat)
    requires a <= b && x <= y
    ensures a * x <= b * y
  {
    assert a * x <= b * x;
    assert b * x <= b * y;
  }

  lemma {:induction false} ValueSplit(b: nat, s: seq<nat>, t: seq<nat>)
    ensures Value(b, s + t) == Value(b, s) * Pow(b, |t|) + Value(b, t)
    decreases |t|
  {
    if t == [] {
      assert s + t == s;
    } else {
      var n := |t| - 1;
      assert (s + t)[..|s + t| - 1] == s + t[..n];
      ValueSplit(b, s, t[..n]);
      Distribute(Value(b, s), Pow(b, n), Value(b, t[..n]), b, t[n]);
    }
  }

  lemma Distribute(v: nat, p: nat, w: nat, b: nat, d: nat)
    ensures (v * p + w) * b + d == v * (b * p) + (w * b + d)
  {
    assert (v * p) * b == v * (b * p);
  }

  lemma {:induction false} ValueBound(b: nat, s: seq<nat>)
    requires b > 0 && AreDigits(b, s)
    ensures Value(b, s) < Pow(b, |s|)
    decreases |s|
  {
    if s == [] {
    } else {
      var n := |s| - 1;
      ValueBound(b, s[..n]);
      Step(Value(b, s[..n]), Pow(b, n), b, s[n]);
    }
  }

  lemma Step(v: nat, p: nat, b: nat, d: nat)
    requires v < p && d < b
    ensures v * b + d < b * p
  {
    assert (v + 1) * b <= p * b;
  }

  lemma {:induction false} ZerosHaveNoValue(b: nat, s: seq<nat>)
    requires forall i :: 0 <= i < |s| ==> s[i] == 0
    ensures Value(b, s) == 0
    decreases |s|
  {
    if s == [] {
    } else {
      ZerosHaveNoValue(b, s[..|s| - 1]);
    }
  }

  lemma LeadingZeros(b: nat, zeros: seq<nat>, s: seq<nat>)
    requires forall i :: 0 <= i < |zeros| ==> zeros[i] == 0
    ensures Value(b, zeros + s) == Value(b, s)
  {
    ValueSplit(b, zeros, s);
    ZerosHaveNoValue(b, zeros);
  }

  lemma ValueOneMore(b: nat, s: seq<nat>, d: nat)
    ensures Value(b, s + [d]) == Value(b, s) * b + d
  {
    assert (s + [d])[..|s|] == s;
  }

  lemma DivisionIdentity(b: nat, n: nat)
    requires b >= 2 && n > 0
    ensures (n / b) * b + n % b == n && n / b < n && n % b < b
    ensures Numeral(b, n) == Numeral(b, n / b) + [n % b]
  {
    hide Numeral;
    NumeralNext(b, n);
    if n / b >= n { MulMonotone(2, b, n, n / b); }
  }

  lemma NumeralNext(b: nat, n: nat)
    requires b >= 2 && n > 0
    ensures Numeral(b, n) == Numeral(b, n / b) + [n % b]
  {
  }

  lemma {:induction false} ValueNumeral(b: nat, n: nat)
    requires b >= 2
    ensures Value(b, Numeral(b, n)) == n
    decreases n
  {
    if n == 0 {
    } else {
      var q, r := n / b, n % b;
      DivisionIdentity(b, n);
      ValueNumeral(b, q);
      ValueOneMore(b, Numeral(b, q), r);
      hide Numeral, Value;
    }
  }

  lemma DivMod(b: nat, q: nat, r: nat)
    requires r < b
    ensures (q * b + r) / b == q && (q * b + r) % b == r
  {
    var n := q * b + r;
    var k := q - n / b;
    assert b * k == n % b - r;
    SmallMultiple(b, k);
  }

  lemma SmallMultiple(b: nat, k: int)
    requires -(b as int) < b * k < b
    ensures k == 0
  {
  }

  /** A canonical numeral is the numeral of its value. */
  lemma {:induction false} NumeralValue(b: nat, s: seq<nat>)
    requires b >= 2 && Canonical(b, s)
    ensures Numeral(b, Value(b, s)) == s
    decreases |s|
  {
    if s == [] {
    } else {
      var n := |s| - 1;
      NumeralValue(b, s[..n]);
      DivMod(b, Value(b, s[..n]), s[n]);
      if n > 0 {
        assert s[..n] != [];
        assert Value(b, s[..n]) > 0;
        assert Value(b, s) > 0;
      } else {
        assert s[..n] == [];
      }
    }
  }

  lemma DivBelow(b: nat, n: nat, p: nat)
    requires b > 0 && n < b * p
    ensures n / b < p
  {
  }

  /** Any digits whose value is below b^k need at most k places in canonical form. */
  lemma {:induction false} NumeralLength(b: nat, n: nat, k: nat)
    requires b >= 2 && n < Pow(b, k)
    ensures |Numeral(b, n)| <= k
    decreases k
  {
    if n == 0 {
    } else {
      DivBelow(b, n, Pow(b, k - 1));
      NumeralLength(b, n / b, k - 1);
    }
  }

  /** A canonical numeral of k places is at least b^(k-1). */
  lemma NumeralLower(b: nat, s: seq<nat>)
    requires b >= 2 && Canonical(b, s) && s != []
    ensures Value(b, s) >= Pow(b, |s| - 1)
  {
    assert s == [s[0]] + s[1..];
    ValueSplit(b, [s[0]], s[1..]);
    assert [s[0]][..0] == [];
    assert Value(b, [s[0]]) == s[0];
    MulAtLeast(s[0], Pow(b, |s| - 1));
  }
}
