/** Polynomials over GF(257), as coefficient sequences with the constant term
    first. Their values are computed over the integers. */
module Polynomial {
  import opened Field

  type Poly = seq<int>

  /** The value of c at x, in nested form. */
  function Value(c: Poly, x: int): int {
    if c == [] then 0 else c[0] + x * Value(c[1..], x)
  }

  function Power(x: int, n: nat): int {
    if n == 0 then 1 else x * Power(x, n - 1)
  }

  /** The textbook reading: the sum of c[i] * x^(i+shift) over the coefficients. */
  function PowerSum(c: Poly, x: int, shift: nat): int {
    if c == [] then 0 else c[0] * Power(x, shift) + PowerSum(c[1..], x, shift + 1)
  }

  /** The nested form and the sum of powers are the same polynomial function. */
  lemma {:induction false} ValueIsPowerSum(c: Poly, x: int, shift: nat)
    ensures Power(x, shift) * Value(c, x) == PowerSum(c, x, shift)
  {
    if c != [] {
      var p, v := Power(x, shift), Value(c[1..], x);
      ValueIsPowerSum(c[1..], x, shift + 1);
      assert p * (c[0] + x * v) == c[0] * p + (x * p) * v;
    }
  }

  // ----- Linear structure

  function Add(c: Poly, d: Poly): Poly {
    if c == [] then d else if d == [] then c else [c[0] + d[0]] + Add(c[1..], d[1..])
  }

  function Scale(k: int, c: Poly): Poly {
    if c == [] then [] else [k * c[0]] + Scale(k, c[1..])
  }

  lemma {:induction false} ValueAdd(c: Poly, d: Poly, x: int)
    ensures Value(Add(c, d), x) == Value(c, x) + Value(d, x)
    ensures |Add(c, d)| == if |c| >= |d| then |c| else |d|
  {
    if c != [] && d != [] {
      ValueAdd(c[1..], d[1..], x);
      var u, v := Value(c[1..], x), Value(d[1..], x);
      assert x * (u + v) == x * u + x * v;
    }
  }

  lemma {:induction false} ValueScale(k: int, c: Poly, x: int)
    ensures Value(Scale(k, c), x) == k * Value(c, x)
    ensures |Scale(k, c)| == |c|
  {
    if c != [] {
      ValueScale(k, c[1..], x);
      var v := Value(c[1..], x);
      assert k * (c[0] + x * v) == k * c[0] + x * (k * v);
    }
  }

  /** c times (X - a). */
  function TimesLinear(c: Poly, a: int): Poly {
    Add([0] + c, Scale(-a, c))
  }

  lemma ValueTimesLinear(c: Poly, a: int, x: int)
    ensures Value(TimesLinear(c, a), x) == Value(c, x) * (x - a)
    ensures |TimesLinear(c, a)| == |c| + 1
  {
    ValueAdd([0] + c, Scale(-a, c), x);
    ValueScale(-a, c, x);
    assert ([0] + c)[1..] == c;
    var v := Value(c, x);
    assert v * (x - a) == x * v + -a * v;
  }

  /** The same polynomial with canonical coefficients. */
  function Reduce(c: Poly): (r: seq<Elem>)
    ensures |r| == |c|
  {
    seq(|c|, i requires 0 <= i < |c| => c[i] % PRIME)
  }

  /** Two polynomials with the same coefficients modulo 257 have the same values. */
  lemma {:induction false} SameCoefficientsSameValue(c: Poly, d: Poly, x: int)
    requires |c| == |d| && forall i :: 0 <= i < |c| ==> Same(c[i], d[i])
    ensures Same(Value(c, x), Value(d, x))
  {
    if c == [] {
      SameReflexive(0);
    } else {
      SameCoefficientsSameValue(c[1..], d[1..], x);
      var u, v := Value(c[1..], x), Value(d[1..], x);
      SameTimes(u, v, x);
      assert u * x == x * u && v * x == x * v;
      SameSum(c[0], d[0], x * u, x * v);
    }
  }

  lemma ReduceSameValue(c: Poly, x: int)
    ensures Same(Value(Reduce(c), x), Value(c, x))
  {
    forall i | 0 <= i < |c| ensures Same(Reduce(c)[i], c[i]) {
      SameAsRemainder(c[i]);
    }
    SameCoefficientsSameValue(Reduce(c), c, x);
  }

  // ----- A polynomial with too many roots is zero

  /** Synthetic division of c by (X - r), dropping the remainder. */
  function Quotient(c: Poly, r: int): Poly {
    if |c| <= 1 then [] else [Value(c[1..], r)] + Quotient(c[1..], r)
  }

  lemma {:induction false} QuotientValue(c: Poly, r: int, x: int)
    ensures Value(c, x) - Value(c, r) == (x - r) * Value(Quotient(c, r), x)
    ensures |Quotient(c, r)| == if c == [] then 0 else |c| - 1
  {
    if |c| == 1 {
      assert c[1..] == [];
    } else if |c| > 1 {
      var rest := c[1..];
      QuotientValue(rest, r, x);
      var q := Quotient(rest, r);
      assert ([Value(rest, r)] + q)[1..] == q;
      QuotientStep(x, r, Value(rest, x), Value(rest, r), Value(q, x));
    }
  }

  lemma QuotientStep(x: int, r: int, vx: int, vr: int, q: int)
    requires vx - vr == (x - r) * q
    ensures x * vx - r * vr == (x - r) * (vr + x * q)
  {
    assert x * vx - r * vr == x * (vx - vr) + (x - r) * vr;
    assert x * ((x - r) * q) == (x - r) * (x * q);
  }

  ghost predicate AllVanish(c: Poly) {
    forall i :: 0 <= i < |c| ==> Vanishes(c[i])
  }

  /** If a quotient is zero then so is the dividend, up to its constant term. */
  lemma {:induction false} ZeroQuotient(c: Poly, r: int)
    requires AllVanish(Quotient(c, r)) && Vanishes(Value(c, r))
    ensures AllVanish(c)
  {
    if c != [] {
      var rest := c[1..];
      var q := Quotient(c, r);
      if rest != [] {
        assert q[0] == Value(rest, r) && q[1..] == Quotient(rest, r);
        assert Vanishes(q[0]);
        forall i | 0 <= i < |q[1..]| ensures Vanishes(q[1..][i]) {
          assert q[1..][i] == q[i + 1];
        }
        ZeroQuotient(rest, r);
      } else {
        assert 0 == Multiple(0);
      }
      var v := Value(rest, r);
      assert v * r == r * v;
      VanishesTimes(v, r);
      assert Same(c[0] + r * v, c[0]);
      SameVanishes(c[0] + r * v, c[0]);
      forall i | 0 <= i < |c| ensures Vanishes(c[i]) {
        if i > 0 {
          assert c[i] == rest[i - 1];
        }
      }
    }
  }

  /** Pairwise distinct field elements, usable as interpolation points. */
  ghost predicate Points(xs: seq<int>) {
    && (forall i :: 0 <= i < |xs| ==> 0 <= xs[i] < PRIME)
    && (forall i, j :: 0 <= i < j < |xs| ==> xs[i] != xs[j])
  }

  lemma PointsDiffer(a: int, b: int)
    requires 0 <= a < PRIME && 0 <= b < PRIME && a != b
    ensures !Vanishes(a - b)
  {
    VanishesIsZeroRemainder(a - b);
  }

  /** A polynomial with at least as many roots as coefficients is zero. */
  lemma {:induction false} TooManyRoots(c: Poly, xs: seq<int>)
    requires Points(xs) && |c| <= |xs|
    requires forall i :: 0 <= i < |xs| ==> Vanishes(Value(c, xs[i]))
    ensures AllVanish(c)
    decreases |c|
  {
    if c != [] {
      var r, q, rest := xs[0], Quotient(c, xs[0]), xs[1..];
      QuotientValue(c, r, 0);
      forall i | 0 <= i < |rest| ensures Vanishes(Value(q, rest[i])) {
        var x := xs[i + 1];
        assert rest[i] == x;
        QuotientValue(c, r, x);
        assert Vanishes(Value(c, x) - Value(c, r)) by {
          var a :| Value(c, x) == Multiple(a);
          var b :| Value(c, r) == Multiple(b);
          assert Value(c, x) - Value(c, r) == Multiple(a - b);
        }
        NoZeroDivisors(x - r, Value(q, x));
        PointsDiffer(x, r);
      }
      TooManyRoots(q, rest);
      ZeroQuotient(c, r);
    }
  }

  /** A polynomial is determined by as many values as it has coefficients. */
  lemma UniquePolynomial(c: seq<Elem>, d: seq<Elem>, xs: seq<int>)
    requires |c| == |d| <= |xs| && Points(xs)
    requires forall i :: 0 <= i < |xs| ==> Same(Value(c, xs[i]), Value(d, xs[i]))
    ensures c == d
  {
    hide Value, Add, Scale;
    var minus := Scale(-1, d);
    var e := Add(c, minus);
    forall i | 0 <= i < |xs| ensures Vanishes(Value(e, xs[i])) {
      ValueAdd(c, minus, xs[i]);
      ValueScale(-1, d, xs[i]);
    }
    DifferenceLength(c, d);
    TooManyRoots(e, xs);
    forall i | 0 <= i < |c| ensures c[i] == d[i] {
      DifferenceAt(c, d, i);
      assert Vanishes(e[i]);
      VanishesIsZeroRemainder(c[i] - d[i]);
    }
  }

  lemma DifferenceLength(c: Poly, d: Poly)
    requires |c| == |d|
    ensures |Add(c, Scale(-1, d))| == |c|
  {
    ValueScale(-1, d, 0);
    ValueAdd(c, Scale(-1, d), 0);
  }

  lemma {:induction false} DifferenceAt(c: Poly, d: Poly, i: nat)
    requires |c| == |d| && i < |c|
    ensures |Add(c, Scale(-1, d))| == |c| && Add(c, Scale(-1, d))[i] == c[i] - d[i]
  {
    DifferenceLength(c, d);
    if i > 0 {
      DifferenceAt(c[1..], d[1..], i - 1);
    }
  }
}
