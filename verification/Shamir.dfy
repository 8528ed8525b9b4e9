/** Splitting a 32-byte secret into shares and combining shares again. */
module Shamir {
  import opened Wrappers
  import opened Field
  import opened Polynomial
  import opened Interpolation
  import opened ShareCodec
  import S = Sorting

  // ----- Splitting

  /** What the random source supplies for one secret: for every byte the
      threshold - 1 coefficients above the constant term. */
  type Noise = seq<seq<Elem>>

  predicate NoiseFor(noise: Noise, secret: Bytes, threshold: int) {
    && |noise| == |secret|
    && forall i :: 0 <= i < |noise| ==> |noise[i]| == if threshold < 1 then 0 else threshold - 1
  }

  /** The polynomial of one secret byte. */
  function Coefficients(secret: Bytes, noise: Noise, position: nat): seq<Elem>
    requires position < |secret| == |noise|
  {
    [secret[position]] + noise[position]
  }

  function ShareValues(secret: Bytes, noise: Noise, index: int): (values: seq<int>)
    requires |secret| == |noise|
    ensures |values| == |secret|
  {
    seq(|secret|, p requires 0 <= p < |secret| => Value(Coefficients(secret, noise, p), index) % PRIME)
  }

  function IssuedShare(secret: Bytes, noise: Noise, threshold: int, totalShares: int, shareSetId: Bytes, index: int)
    : DecodedShare
    requires |secret| == |noise|
  {
    DecodedShare(threshold, totalShares, index, shareSetId, ShareValues(secret, noise, index))
  }

  /** The inputs for which shares are issued. */
  predicate CanSplit(secret: Bytes, threshold: int, totalShares: int, shareSetId: Bytes) {
    && ValidConfig(threshold, totalShares)
    && |secret| == SECRET_LEN
    && |shareSetId| == SHARE_SET_ID_LEN
  }

  lemma IssuedShareIsValid(secret: Bytes, noise: Noise, threshold: int, totalShares: int, shareSetId: Bytes, index: int)
    requires CanSplit(secret, threshold, totalShares, shareSetId) && |noise| == |secret|
    requires 1 <= index <= totalShares
    ensures ValidShare(IssuedShare(secret, noise, threshold, totalShares, shareSetId, index))
  {
  }

  /** The share texts numbered 1 to n. */
  function ShareTexts(secret: Bytes, noise: Noise, threshold: int, totalShares: int, shareSetId: Bytes, n: nat)
    : (texts: seq<string>)
    requires CanSplit(secret, threshold, totalShares, shareSetId) && |noise| == |secret|
    requires n <= totalShares
    ensures |texts| == n
  {
    seq(n, i requires 0 <= i < n =>
      IssuedShareIsValid(secret, noise, threshold, totalShares, shareSetId, i + 1);
      ShareText(IssuedShare(secret, noise, threshold, totalShares, shareSetId, i + 1)))
  }

  lemma HornerStep(v: int, x: int, c: int)
    ensures ((v % PRIME) * x + c) % PRIME == (c + x * v) % PRIME
  {
    SameAsRemainder(v);
    SameTimes(v % PRIME, v, x);
    assert v * x == x * v;
    SameReflexive(c);
    SameSum((v % PRIME) * x, v * x, c, c);
    SameRemainders((v % PRIME) * x + c, c + x * v);
  }

  /** Horner's rule, from the highest coefficient down. */
  method Evaluate(coefficients: seq<Elem>, x: int) returns (result: Elem)
    ensures result == Value(coefficients, x) % PRIME
  {
    result := 0;
    var i := |coefficients|;
    while i > 0
      invariant 0 <= i <= |coefficients|
      invariant result == Value(coefficients[i..], x) % PRIME
    {
      i := i - 1;
      assert coefficients[i..][1..] == coefficients[i + 1..];
      HornerStep(Value(coefficients[i + 1..], x), x, coefficients[i]);
      result := (result * x + coefficients[i]) % PRIME;
    }
    assert coefficients[0..] == coefficients;
  }

  /** The share texts grow by the next share's. */
  lemma NextShare(secret: Bytes, noise: Noise, threshold: int, totalShares: int, shareSetId: Bytes, n: nat)
    requires CanSplit(secret, threshold, totalShares, shareSetId) && |noise| == |secret| && n < totalShares
    ensures ShareTexts(secret, noise, threshold, totalShares, shareSetId, 0) == []
    ensures
      var s := IssuedShare(secret, noise, threshold, totalShares, shareSetId, n + 1);
      && ValidShare(s)
      && ShareTexts(secret, noise, threshold, totalShares, shareSetId, n + 1)
         == ShareTexts(secret, noise, threshold, totalShares, shareSetId, n) + [ShareText(s)]
  {
    hide ShareText;
    IssuedShareIsValid(secret, noise, threshold, totalShares, shareSetId, n + 1);
  }

  /** All shares of a secret, or None when the input is refused. */
  method SplitSecret(secret: Bytes, threshold: int, totalShares: int, shareSetId: Bytes, noise: Noise)
    returns (result: Option<seq<string>>)
    requires NoiseFor(noise, secret, threshold)
    ensures result ==
      if CanSplit(secret, threshold, totalShares, shareSetId)
      then Some(ShareTexts(secret, noise, threshold, totalShares, shareSetId, totalShares))
      else None
  {
    hide ShareTexts, ShareText, Value;
    if !ValidConfig(threshold, totalShares) {
      return None;
    }
    if |secret| != SECRET_LEN || |shareSetId| != SHARE_SET_ID_LEN {
      return None;
    }
    var polynomials: seq<seq<Elem>> := [];
    for p := 0 to SECRET_LEN
      invariant |polynomials| == p
      invariant forall q :: 0 <= q < p ==> polynomials[q] == Coefficients(secret, noise, q)
    {
      polynomials := polynomials + [[secret[p]] + noise[p]];
    }
    var shares := [];
    NextShare(secret, noise, threshold, totalShares, shareSetId, 0);
    for index := 1 to totalShares + 1
      invariant shares == ShareTexts(secret, noise, threshold, totalShares, shareSetId, index - 1)
    {
      var values: seq<int> := [];
      for p := 0 to SECRET_LEN
        invariant values == ShareValues(secret, noise, index)[..p]
      {
        var value := Evaluate(polynomials[p], index);
        values := values + [value];
      }
      assert values == ShareValues(secret, noise, index);
      NextShare(secret, noise, threshold, totalShares, shareSetId, index - 1);
      var text := EncodeShare(DecodedShare(threshold, totalShares, index, shareSetId, values));
      shares := shares + [text];
    }
    result := Some(shares);
  }

  // ----- Sorting shares by index

  predicate IndexLess(a: DecodedShare, b: DecodedShare) {
    a.index < b.index
  }

  function SortByIndex(shares: seq<DecodedShare>): seq<DecodedShare> {
    S.Sort(IndexLess, shares)
  }

  ghost predicate DistinctIndexes(shares: seq<DecodedShare>) {
    forall i, j :: 0 <= i < j < |shares| ==> shares[i].index != shares[j].index
  }

  ghost predicate IncreasingIndexes(shares: seq<DecodedShare>) {
    forall i, j :: 0 <= i < j < |shares| ==> shares[i].index < shares[j].index
  }

  lemma SortProperties(shares: seq<DecodedShare>)
    requires DistinctIndexes(shares)
    ensures IncreasingIndexes(SortByIndex(shares))
    ensures |SortByIndex(shares)| == |shares| && forall t :: t in SortByIndex(shares) <==> t in shares
  {
    S.SortElements(IndexLess, shares);
    S.SortAscending(IndexLess, shares);
  }

  // ----- Combining

  predicate Belongs(s: DecodedShare, threshold: int, totalShares: int, shareSetId: Bytes) {
    s.threshold == threshold && s.totalShares == totalShares && s.shareSetId == shareSetId
  }

  predicate AllDecode(encoded: seq<string>) {
    forall i :: 0 <= i < |encoded| ==> DecodeShare(encoded[i]).Some?
  }

  function DecodeAll(encoded: seq<string>): (shares: seq<DecodedShare>)
    requires AllDecode(encoded)
    ensures |shares| == |encoded|
  {
    seq(|encoded|, i requires 0 <= i < |encoded| => DecodeShare(encoded[i]).value)
  }

  /** The supplied texts pass every check made before interpolation. */
  ghost predicate Accepts(encoded: seq<string>, threshold: int, totalShares: int, shareSetId: Bytes) {
    && ValidConfig(threshold, totalShares)
    && |shareSetId| == SHARE_SET_ID_LEN
    && |encoded| >= threshold
    && AllDecode(encoded)
    && var d := DecodeAll(encoded);
    && (forall i :: 0 <= i < |d| ==> Belongs(d[i], threshold, totalShares, shareSetId))
    && DistinctIndexes(d)
  }

  /** The threshold many shares with the lowest indexes, in ascending order. */
  ghost function Selected(encoded: seq<string>, threshold: int, totalShares: int, shareSetId: Bytes)
    : (s: seq<DecodedShare>)
    requires Accepts(encoded, threshold, totalShares, shareSetId)
    ensures |s| == threshold
  {
    SortProperties(DecodeAll(encoded));
    SortByIndex(DecodeAll(encoded))[..threshold]
  }

  function Indexes(shares: seq<DecodedShare>): (xs: seq<int>)
    ensures |xs| == |shares|
  {
    seq(|shares|, i requires 0 <= i < |shares| => shares[i].index)
  }

  predicate FullLength(shares: seq<DecodedShare>) {
    forall i :: 0 <= i < |shares| ==> |shares[i].values| == SECRET_LEN
  }

  function Ordinates(shares: seq<DecodedShare>, position: nat): (ys: seq<int>)
    requires position < SECRET_LEN && FullLength(shares)
    ensures |ys| == |shares|
  {
    seq(|shares|, i requires 0 <= i < |shares| => shares[i].values[position])
  }

  /** Shares in ascending order, as interpolation uses them. */
  ghost predicate Usable(s: seq<DecodedShare>) {
    && IncreasingIndexes(s) && FullLength(s) && Points(Indexes(s)) && 0 !in Indexes(s)
  }

  lemma ValidSharesAreUsable(s: seq<DecodedShare>)
    requires IncreasingIndexes(s) && forall i :: 0 <= i < |s| ==> ValidShare(s[i])
    ensures Usable(s)
  {
  }

  lemma DecodedSharesAreValid(encoded: seq<string>, s: DecodedShare)
    requires AllDecode(encoded)
    requires s in DecodeAll(encoded)
    ensures ValidShare(s)
  {
    var k :| 0 <= k < |encoded| && DecodeAll(encoded)[k] == s;
    DecodedTextIsCanonical(encoded[k]);
  }

  lemma SelectedProperties(encoded: seq<string>, threshold: int, totalShares: int, shareSetId: Bytes)
    requires Accepts(encoded, threshold, totalShares, shareSetId)
    ensures
      var s := Selected(encoded, threshold, totalShares, shareSetId);
      Usable(s) && forall i :: 0 <= i < |s| ==> s[i] in DecodeAll(encoded) && ValidShare(s[i])
  {
    hide DecodeShare, SortByIndex;
    var d := DecodeAll(encoded);
    SortProperties(d);
    var s := Selected(encoded, threshold, totalShares, shareSetId);
    forall i | 0 <= i < |s| ensures s[i] in d && ValidShare(s[i]) {
      assert s[i] == SortByIndex(d)[i];
      DecodedSharesAreValid(encoded, s[i]);
    }
    ValidSharesAreUsable(s);
  }

  /** The value at zero of the interpolating polynomial, for one secret byte. */
  ghost function Reconstructed(shares: seq<DecodedShare>, position: nat): Elem
    requires |shares| > 0 && Usable(shares) && position < SECRET_LEN
  {
    Interpolant(Indexes(shares), Ordinates(shares, position))[0]
  }

  /** The bytes encoded by the constant terms; 256 is no byte. */
  ghost function Secret(shares: seq<DecodedShare>): Option<Bytes>
    requires |shares| > 0 && Usable(shares)
  {
    if exists p :: 0 <= p < SECRET_LEN && Reconstructed(shares, p) == 256 then None
    else Some(seq(SECRET_LEN, p requires 0 <= p < SECRET_LEN => Reconstructed(shares, p)))
  }

  /** What combining means: each byte is the constant term of the polynomial of
      degree below the threshold through the selected points. */
  ghost function Combined(encoded: seq<string>, threshold: int, totalShares: int, shareSetId: Bytes): Option<Bytes> {
    if !Accepts(encoded, threshold, totalShares, shareSetId) then None
    else
      SelectedProperties(encoded, threshold, totalShares, shareSetId);
      Secret(Selected(encoded, threshold, totalShares, shareSetId))
  }

  lemma FactorStep(product: int, factor: int)
    ensures ((product % PRIME) * factor) % PRIME == (product * factor) % PRIME
  {
    SameAsRemainder(product);
    SameTimes(product % PRIME, product, factor);
    SameRemainders((product % PRIME) * factor, product * factor);
  }

  lemma SumStep(sum: int, y: int, numerator: int, inverse: int)
    ensures (sum % PRIME + y * (numerator % PRIME) * inverse) % PRIME == (sum + y * inverse * numerator) % PRIME
  {
    SameAsRemainder(sum);
    SameAsRemainder(numerator);
    SameTimes(numerator % PRIME, numerator, y * inverse);
    Reassociate(y, numerator % PRIME, inverse);
    assert y * (numerator % PRIME) * inverse == (numerator % PRIME) * (y * inverse);
    assert y * inverse * numerator == numerator * (y * inverse);
    SameSum(sum % PRIME, sum, (numerator % PRIME) * (y * inverse), numerator * (y * inverse));
    SameRemainders(sum % PRIME + y * (numerator % PRIME) * inverse, sum + y * inverse * numerator);
  }

  /** Taking one more share into both products, all but the current one. */
  lemma ProductStep(selected: seq<DecodedShare>, i: nat, j: nat, x: int)
    requires Usable(selected) && i < |selected| && j < |selected|
    ensures selected[j].index != selected[i].index <==> j != i
    ensures
      var xs := Indexes(selected);
      Product(xs, i, j + 1, x) % PRIME ==
        if j == i then Product(xs, i, j, x) % PRIME
        else (Product(xs, i, j, x) % PRIME) * (x - selected[j].index) % PRIME
  {
    var xs := Indexes(selected);
    assert xs[j] == selected[j].index && xs[i] == selected[i].index;
    FactorStep(Product(xs, i, j, x), x - selected[j].index);
  }

  /** Adding one term of Lagrange's sum. */
  lemma TermStep(xs: seq<int>, ys: seq<int>, i: nat)
    requires Points(xs) && |xs| == |ys| && i < |xs|
    ensures Product(xs, i, |xs|, xs[i]) % PRIME != 0
    ensures
      var numerator, denominator := Product(xs, i, |xs|, 0) % PRIME, Product(xs, i, |xs|, xs[i]) % PRIME;
      (LagrangeSum(xs, ys, i, 0) % PRIME + ys[i] * numerator * Inverse(denominator)) % PRIME
        == LagrangeSum(xs, ys, i + 1, 0) % PRIME
  {
    hide Product, Inverse;
    DenominatorInvertible(xs, i);
    var inverse := Inverse(Product(xs, i, |xs|, xs[i]) % PRIME);
    SumStep(LagrangeSum(xs, ys, i, 0), ys[i], Product(xs, i, |xs|, 0), inverse);
  }

  /** One secret byte by Lagrange's formula at zero. */
  method InterpolateAtZero(selected: seq<DecodedShare>, position: nat) returns (value: Elem)
    requires |selected| > 0 && Usable(selected) && position < SECRET_LEN
    ensures value == Reconstructed(selected, position)
  {
    hide Product, LagrangeSum, Inverse, Usable;
    UsableParts(selected);
    ghost var xs, ys := Indexes(selected), Ordinates(selected, position);
    NothingMultiplied(xs, ys);
    value := 0;
    for i := 0 to |selected|
      invariant value == LagrangeSum(xs, ys, i, 0) % PRIME
    {
      var current := selected[i];
      var numerator, denominator := 1, 1;
      EmptyProduct(xs, i);
      for j := 0 to |selected|
        invariant numerator == Product(xs, i, j, 0) % PRIME
        invariant denominator == Product(xs, i, j, xs[i]) % PRIME
      {
        var other := selected[j];
        ProductStep(selected, i, j, 0);
        ProductStep(selected, i, j, xs[i]);
        if other.index != current.index {
          numerator := numerator * (-other.index) % PRIME;
          denominator := denominator * (current.index - other.index) % PRIME;
        }
      }
      TermStep(xs, ys, i);
      value := (value + current.values[position] * numerator * Inverse(denominator)) % PRIME;
    }
    InterpolantAtZero(xs, ys);
  }

  lemma UsableParts(selected: seq<DecodedShare>)
    requires Usable(selected)
    ensures FullLength(selected) && Points(Indexes(selected))
  {
  }

  lemma NothingMultiplied(xs: seq<int>, ys: seq<int>)
    requires Points(xs) && |xs| == |ys|
    ensures LagrangeSum(xs, ys, 0, 0) == 0
  {
  }

  lemma EmptyProduct(xs: seq<int>, i: nat)
    requires i < |xs|
    ensures Product(xs, i, 0, 0) == 1 && Product(xs, i, 0, xs[i]) == 1
  {
  }

  method InterpolateSecret(selected: seq<DecodedShare>) returns (result: Option<Bytes>)
    requires |selected| > 0 && Usable(selected)
    ensures result == Secret(selected)
  {
    var secret: Bytes := [];
    for p := 0 to SECRET_LEN
      invariant |secret| == p
      invariant forall q :: 0 <= q < p ==> Reconstructed(selected, q) == secret[q]
    {
      var value := InterpolateAtZero(selected, p);
      if value > 255 {
        assert Reconstructed(selected, p) == 256;
        return None;
      }
      secret := secret + [value];
    }
    assert secret == seq(SECRET_LEN, p requires 0 <= p < SECRET_LEN => Reconstructed(selected, p));
    result := Some(secret);
  }

  method DecodeShares(encoded: seq<string>) returns (result: Option<seq<DecodedShare>>)
    ensures result.Some? <==> AllDecode(encoded)
    ensures result.Some? ==> result.value == DecodeAll(encoded)
  {
    hide DecodeShare;
    var decoded: seq<DecodedShare> := [];
    for i := 0 to |encoded|
      invariant |decoded| == i
      invariant forall j :: 0 <= j < i ==> DecodeShare(encoded[j]) == Some(decoded[j])
    {
      var share := DecodeShare(encoded[i]);
      if share == None {
        return None;
      }
      decoded := decoded + [share.value];
    }
    result := Some(decoded);
  }

  /** All shares have the asked threshold, number of shares and set identifier, and
      no index occurs twice. */
  method CheckShares(decoded: seq<DecodedShare>, threshold: int, totalShares: int, shareSetId: Bytes)
    returns (ok: bool)
    ensures ok <==>
      && (forall i :: 0 <= i < |decoded| ==>
            && decoded[i].threshold == threshold
            && decoded[i].totalShares == totalShares
            && decoded[i].shareSetId == shareSetId)
      && forall i, j :: 0 <= i < j < |decoded| ==> decoded[i].index != decoded[j].index
  {
    var indexes: set<int> := {};
    for i := 0 to |decoded|
      invariant forall j :: 0 <= j < i ==> Belongs(decoded[j], threshold, totalShares, shareSetId)
      invariant DistinctIndexes(decoded[..i])
      invariant indexes == set j | 0 <= j < i :: decoded[j].index
    {
      var share := decoded[i];
      if share.threshold != threshold || share.totalShares != totalShares || share.shareSetId != shareSetId
         || share.index in indexes
      {
        return false;
      }
      indexes := indexes + {share.index};
    }
    ok := true;
  }

  /** The secret, or None when the input is refused. */
  method CombineShares(encoded: seq<string>, threshold: int, totalShares: int, shareSetId: Bytes)
    returns (result: Option<Bytes>)
    ensures result == Combined(encoded, threshold, totalShares, shareSetId)
    ensures result.Some? ==>
      && 2 <= threshold <= totalShares <= 255 && |shareSetId| == 16 && |encoded| >= threshold
      && forall i :: 0 <= i < |encoded| ==>
           && DecodeShare(encoded[i]).Some?
           && DecodeShare(encoded[i]).value.threshold == threshold
           && DecodeShare(encoded[i]).value.totalShares == totalShares
           && DecodeShare(encoded[i]).value.shareSetId == shareSetId
  {
    hide DecodeShare;
    if !ValidConfig(threshold, totalShares) || |shareSetId| != SHARE_SET_ID_LEN || |encoded| < threshold {
      return None;
    }
    var decoded := DecodeShares(encoded);
    if decoded == None {
      return None;
    }
    var ok := CheckShares(decoded.value, threshold, totalShares, shareSetId);
    if !ok {
      return None;
    }
    assert forall i :: 0 <= i < |encoded| ==> DecodeShare(encoded[i]) == Some(decoded.value[i]);
    SelectedProperties(encoded, threshold, totalShares, shareSetId);
    SortProperties(decoded.value);
    result := InterpolateSecret(SortByIndex(decoded.value)[..threshold]);
  }
}
