/** Arithmetic in the prime field GF(257), carried by ordinary integers.

    Sums and products are formed over the integers and only compared modulo
    257: `Vanishes(n)` says that n is zero in the field. It is stated with a
    witness instead of a remainder, so that reasoning about products stays away
    from `%`; `SameRemainders` connects the two readings. */
module Field {

  const PRIME := 257

  /** A canonical field element. */
  type Elem = x: int | 0 <= x < PRIME

  ghost function Multiple(q: int): int {
    257 * q
  }

  /** n is zero in GF(257). */
  ghost predicate Vanishes(n: int) {
    exists q :: n == Multiple(q)
  }

  /** a and b are the same field element. */
  ghost predicate Same(a: int, b: int) {
    Vanishes(a - b)
  }

  lemma VanishesIsZeroRemainder(n: int)
    ensures Vanishes(n) <==> n % PRIME == 0
  {
    if n % PRIME == 0 {
      assert n == Multiple(n / PRIME);
    }
  }

  lemma SameRemainders(a: int, b: int)
    ensures Same(a, b) <==> a % PRIME == b % PRIME
  {
    VanishesIsZeroRemainder(a - b);
  }

  lemma SameAsRemainder(a: int)
    ensures Same(a % PRIME, a) && Same(a, a % PRIME)
  {
    SameRemainders(a % PRIME, a);
    SameRemainders(a, a % PRIME);
  }

  lemma SameReflexive(a: int)
    ensures Same(a, a)
  {
    assert a - a == Multiple(0);
  }

  lemma SameSymmetric(a: int, b: int)
    requires Same(a, b)
    ensures Same(b, a)
  {
    var q :| a - b == Multiple(q);
    assert b - a == Multiple(-q);
  }

  lemma SameTransitive(a: int, b: int, c: int)
    requires Same(a, b) && Same(b, c)
    ensures Same(a, c)
  {
    var p :| a - b == Multiple(p);
    var q :| b - c == Multiple(q);
    assert a - c == Multiple(p + q);
  }

  lemma SameSum(a: int, a': int, b: int, b': int)
    requires Same(a, a') && Same(b, b')
    ensures Same(a + b, a' + b')
  {
    var p :| a - a' == Multiple(p);
    var q :| b - b' == Multiple(q);
    assert (a + b) - (a' + b') == Multiple(p + q);
  }

  lemma SameVanishes(a: int, b: int)
    requires Same(a, b) && Vanishes(a)
    ensures Vanishes(b)
  {
    var p :| a - b == Multiple(p);
    var q :| a == Multiple(q);
    assert b == Multiple(q - p);
  }

  lemma VanishesTimes(a: int, b: int)
    requires Vanishes(a)
    ensures Vanishes(a * b)
  {
    var q :| a == Multiple(q);
    assert a * b == Multiple(q * b);
  }

  lemma SameTimes(a: int, a': int, b: int)
    requires Same(a, a')
    ensures Same(a * b, a' * b)
  {
    VanishesTimes(a - a', b);
    assert (a - a') * b == a * b - a' * b;
  }

  /** 257 has no divisor strictly between 1 and itself. */
  lemma Prime(a: int)
    requires 2 <= a < PRIME
    ensures PRIME % a != 0
  {
  }

  /** The inverse of a non-zero field element, by division with remainder:
      257 = q*a + r gives 1/a = -q * (1/r). */
  function Inverse(a: int): (r: Elem)
    requires 1 <= a < PRIME
    ensures Same(a * r, 1)
    decreases a
  {
    if a == 1 then
      SameReflexive(1);
      1
    else
      Prime(a);
      var q := PRIME / a;
      var s := Inverse(PRIME % a);
      InverseStep(a, q, PRIME % a, s);
      (-q * s) % PRIME
  }

  lemma InverseStep(a: int, q: int, r: int, s: int)
    requires PRIME == q * a + r && Same(r * s, 1)
    ensures Same(a * ((-q * s) % PRIME), 1)
  {
    var t := -q * s;
    SameAsRemainder(t);
    SameTimes(t % PRIME, t, a);
    assert a * t - r * s == Multiple(-s) by {
      assert a * t == -(q * a) * s;
      assert -(PRIME - r) * s == r * s - PRIME * s;
    }
    SameTransitive(a * (t % PRIME), a * t, r * s);
    SameTransitive(a * (t % PRIME), r * s, 1);
  }

  lemma Reassociate(a: int, b: int, c: int)
    ensures (a * b) * c == (a * c) * b == (b * a) * c
  {
  }

  /** A unit times b is zero only when b is. */
  lemma UnitCancels(d: int, i: int, b: int)
    requires Same(d * i, 1) && Vanishes(d * b)
    ensures Vanishes(b)
  {
    Reassociate(d, i, b);
    VanishesTimes(d * b, i);
    SameTimes(d * i, 1, b);
    SameVanishes((d * i) * b, b);
  }

  /** The field has no zero divisors. */
  lemma NoZeroDivisors(a: int, b: int)
    requires Vanishes(a * b)
    ensures Vanishes(a) || Vanishes(b)
  {
    var d := a % PRIME;
    VanishesIsZeroRemainder(a);
    if d != 0 {
      SameAsRemainder(a);
      SameTimes(a, d, b);
      SameVanishes(a * b, d * b);
      UnitCancels(d, Inverse(d), b);
    }
  }

  /** Multiplying by an inverse and then by its argument changes nothing. */
  lemma InverseCancels(a: int, d: int)
    requires d % PRIME != 0
    ensures Same(a * Inverse(d % PRIME) * d, a)
  {
    SameAsRemainder(d);
    CancelUnit(a, d, d % PRIME, Inverse(d % PRIME));
  }

  lemma CancelUnit(a: int, d: int, e: int, i: int)
    requires Same(d, e) && Same(e * i, 1)
    ensures Same(a * i * d, a)
  {
    SameTimes(d, e, i);
    SameTransitive(d * i, e * i, 1);
    SameTimes(d * i, 1, a);
    Reassociate(i, a, d);
    Reassociate(i, d, a);
  }
}
