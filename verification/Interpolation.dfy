/** Lagrange interpolation over GF(257): existence and uniqueness of the
    polynomial of degree below |xs| through |xs| points. */
module Interpolation {
  import opened Field
  import opened Polynomial

  /** The product of (x - xs[j]) over the first n points, leaving out point skip. */
  function Product(xs: seq<int>, skip: int, n: nat, x: int): int
    requires n <= |xs|
  {
    if n == 0 then 1
    else Product(xs, skip, n - 1, x) * (if n - 1 == skip then 1 else x - xs[n - 1])
  }

  /** The same product as a polynomial in x. */
  function Basis(xs: seq<int>, skip: int, n: nat): Poly
    requires n <= |xs|
  {
    if n == 0 then [1]
    else if n - 1 == skip then Basis(xs, skip, n - 1)
    else TimesLinear(Basis(xs, skip, n - 1), xs[n - 1])
  }

  lemma ConstantValue(x: int)
    ensures Value([1], x) == 1
  {
    assert Value([1], x) == 1 + x * Value([], x);
  }

  lemma {:induction false} BasisValue(xs: seq<int>, skip: int, n: nat, x: int)
    requires n <= |xs|
    ensures Value(Basis(xs, skip, n), x) == Product(xs, skip, n, x)
    ensures |Basis(xs, skip, n)| == if 0 <= skip < n then n else n + 1
  {
    hide Value, TimesLinear;
    if n == 0 {
      ConstantValue(x);
    } else {
      BasisValue(xs, skip, n - 1, x);
      if n - 1 != skip {
        ValueTimesLinear(Basis(xs, skip, n - 1), xs[n - 1], x);
      }
    }
  }

  lemma {:induction false} ProductAtOtherPoint(xs: seq<int>, skip: int, n: nat, m: nat)
    requires m < n <= |xs| && m != skip
    ensures Product(xs, skip, n, xs[m]) == 0
  {
    if m < n - 1 {
      ProductAtOtherPoint(xs, skip, n - 1, m);
    }
  }

  /** Every denominator of the interpolation formula is invertible. */
  lemma {:induction false} ProductAtOwnPoint(xs: seq<int>, skip: nat, n: nat)
    requires Points(xs) && skip < |xs| && n <= |xs|
    ensures !Vanishes(Product(xs, skip, n, xs[skip]))
  {
    var x := xs[skip];
    if n == 0 {
      VanishesIsZeroRemainder(1);
    } else {
      ProductAtOwnPoint(xs, skip, n - 1);
      if n - 1 != skip {
        PointsDiffer(x, xs[n - 1]);
        if Vanishes(Product(xs, skip, n, x)) {
          NoZeroDivisors(Product(xs, skip, n - 1, x), x - xs[n - 1]);
        }
      }
    }
  }

  function Denominator(xs: seq<int>, i: nat): (d: int)
    requires i < |xs|
  {
    Product(xs, i, |xs|, xs[i])
  }

  lemma DenominatorInvertible(xs: seq<int>, i: nat)
    requires Points(xs) && i < |xs|
    ensures Denominator(xs, i) % PRIME != 0
  {
    ProductAtOwnPoint(xs, i, |xs|);
    VanishesIsZeroRemainder(Denominator(xs, i));
  }

  ghost function Weight(xs: seq<int>, ys: seq<int>, i: nat): int
    requires Points(xs) && |xs| == |ys| && i < |xs|
  {
    DenominatorInvertible(xs, i);
    ys[i] * Inverse(Denominator(xs, i) % PRIME)
  }

  /** The first n summands of Lagrange's formula at x. */
  ghost function LagrangeSum(xs: seq<int>, ys: seq<int>, n: nat, x: int): int
    requires Points(xs) && |xs| == |ys| && n <= |xs|
  {
    if n == 0 then 0
    else LagrangeSum(xs, ys, n - 1, x) + Weight(xs, ys, n - 1) * Product(xs, n - 1, |xs|, x)
  }

  ghost function LagrangePoly(xs: seq<int>, ys: seq<int>, n: nat): Poly
    requires Points(xs) && |xs| == |ys| && n <= |xs|
  {
    if n == 0 then seq(|xs|, _ => 0)
    else Add(LagrangePoly(xs, ys, n - 1), Scale(Weight(xs, ys, n - 1), Basis(xs, n - 1, |xs|)))
  }

  lemma {:induction false} ZeroPolyValue(n: nat, x: int)
    ensures Value(seq(n, _ => 0), x) == 0
  {
    if n > 0 {
      ZeroPolyValue(n - 1, x);
      assert seq(n, _ => 0)[1..] == seq(n - 1, _ => 0);
    }
  }

  lemma {:induction false} LagrangePolyValue(xs: seq<int>, ys: seq<int>, n: nat, x: int)
    requires Points(xs) && |xs| == |ys| && n <= |xs|
    ensures Value(LagrangePoly(xs, ys, n), x) == LagrangeSum(xs, ys, n, x)
    ensures |LagrangePoly(xs, ys, n)| == |xs|
  {
    if n == 0 {
      ZeroPolyValue(|xs|, x);
    } else {
      LagrangePolyValue(xs, ys, n - 1, x);
      var b, w := Basis(xs, n - 1, |xs|), Weight(xs, ys, n - 1);
      BasisValue(xs, n - 1, |xs|, x);
      ValueScale(w, b, x);
      ValueAdd(LagrangePoly(xs, ys, n - 1), Scale(w, b), x);
    }
  }

  /** At an interpolation point only that point's summand survives. */
  lemma {:induction false} LagrangeSumAtPoint(xs: seq<int>, ys: seq<int>, n: nat, m: nat)
    requires Points(xs) && |xs| == |ys| && n <= |xs| && m < |xs|
    ensures LagrangeSum(xs, ys, n, xs[m]) == if m < n then Weight(xs, ys, m) * Denominator(xs, m) else 0
  {
    if n > 0 {
      LagrangeSumAtPoint(xs, ys, n - 1, m);
      if n - 1 != m {
        ProductAtOtherPoint(xs, n - 1, |xs|, m);
      }
    }
  }

  /** The polynomial of degree below |xs| through the points (xs[i], ys[i]). */
  ghost function Interpolant(xs: seq<int>, ys: seq<int>): (c: seq<Elem>)
    requires Points(xs) && |xs| == |ys|
    ensures |c| == |xs|
  {
    LagrangePolyValue(xs, ys, |xs|, 0);
    Reduce(LagrangePoly(xs, ys, |xs|))
  }

  lemma InterpolantValue(xs: seq<int>, ys: seq<int>, x: int)
    requires Points(xs) && |xs| == |ys|
    ensures Same(Value(Interpolant(xs, ys), x), LagrangeSum(xs, ys, |xs|, x))
  {
    LagrangePolyValue(xs, ys, |xs|, x);
    ReduceSameValue(LagrangePoly(xs, ys, |xs|), x);
  }

  /** c takes the prescribed values. */
  ghost predicate PassesThrough(c: Poly, xs: seq<int>, ys: seq<int>)
    requires |xs| == |ys|
  {
    forall i :: 0 <= i < |xs| ==> Same(Value(c, xs[i]), ys[i])
  }

  lemma InterpolantPassesThrough(xs: seq<int>, ys: seq<int>)
    requires Points(xs) && |xs| == |ys|
    ensures PassesThrough(Interpolant(xs, ys), xs, ys)
  {
    forall m | 0 <= m < |xs| ensures Same(Value(Interpolant(xs, ys), xs[m]), ys[m]) {
      InterpolantValue(xs, ys, xs[m]);
      LagrangeSumAtPoint(xs, ys, |xs|, m);
      DenominatorInvertible(xs, m);
      InverseCancels(ys[m], Denominator(xs, m));
      SameTransitive(Value(Interpolant(xs, ys), xs[m]), LagrangeSum(xs, ys, |xs|, xs[m]), ys[m]);
    }
  }

  /** There is exactly one polynomial with |xs| coefficients through |xs| points. */
  lemma InterpolantIsUnique(xs: seq<int>, ys: seq<int>, c: seq<Elem>)
    requires Points(xs) && |xs| == |ys| == |c|
    ensures PassesThrough(c, xs, ys) <==> c == Interpolant(xs, ys)
  {
    InterpolantPassesThrough(xs, ys);
    var d := Interpolant(xs, ys);
    if PassesThrough(c, xs, ys) {
      forall i | 0 <= i < |xs| ensures Same(Value(c, xs[i]), Value(d, xs[i])) {
        SameSymmetric(Value(d, xs[i]), ys[i]);
        SameTransitive(Value(c, xs[i]), ys[i], Value(d, xs[i]));
      }
      UniquePolynomial(c, d, xs);
    }
  }

  /** Lagrange's formula at zero gives the constant term of the interpolant. */
  lemma InterpolantAtZero(xs: seq<int>, ys: seq<int>)
    requires Points(xs) && |xs| == |ys| > 0
    ensures LagrangeSum(xs, ys, |xs|, 0) % PRIME == Interpolant(xs, ys)[0]
  {
    var c := Interpolant(xs, ys);
    InterpolantValue(xs, ys, 0);
    assert Value(c, 0) == c[0];
    SameRemainders(c[0], LagrangeSum(xs, ys, |xs|, 0));
  }

  /** Changing one ordinate changes the value at zero, when no abscissa is zero. */
  lemma {:induction false} OrdinateMatters(xs: seq<int>, ys: seq<int>, zs: seq<int>, k: nat)
    requires Points(xs) && |xs| == |ys| == |zs| && k < |xs| && 0 !in xs
    requires forall i :: 0 <= i < |xs| && i != k ==> ys[i] == zs[i]
    requires !Same(ys[k], zs[k])
    ensures Interpolant(xs, ys)[0] != Interpolant(xs, zs)[0]
  {
    var c, d := Interpolant(xs, ys), Interpolant(xs, zs);
    if c[0] == d[0] {
      // c and d agree at zero and at every point but xs[k], so they are equal.
      var points := xs[k := 0];
      InterpolantPassesThrough(xs, ys);
      InterpolantPassesThrough(xs, zs);
      forall i | 0 <= i < |points| ensures Same(Value(c, points[i]), Value(d, points[i])) {
        if i == k {
          SameReflexive(c[0]);
        } else {
          SameSymmetric(Value(d, xs[i]), zs[i]);
          SameTransitive(Value(c, xs[i]), ys[i], Value(d, xs[i]));
        }
      }
      UniquePolynomial(c, d, points);
      SameSymmetric(Value(c, xs[k]), ys[k]);
      SameTransitive(ys[k], Value(c, xs[k]), zs[k]);
      assert false;
    }
  }
}
