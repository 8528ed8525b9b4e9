/** What the sharing scheme promises: reconstruction from any threshold many
    shares, nothing learnt from fewer, and no undetected change of the wrong
    byte. */
module ShamirTheorems {
  import opened Wrappers
  import opened Field
  import opened Polynomial
  import opened Interpolation
  import opened ShareCodec
  import opened Shamir
  import S = Sorting

  // ----- Reconstruction

  lemma IssuedTextDecodes(
    secret: Bytes, noise: Noise, threshold: int, totalShares: int, shareSetId: Bytes, text: string)
    requires CanSplit(secret, threshold, totalShares, shareSetId) && |noise| == |secret|
    requires text in ShareTexts(secret, noise, threshold, totalShares, shareSetId, totalShares)
    ensures DecodeShare(text).Some?
    ensures
      var s := DecodeShare(text).value;
      && ValidShare(s) && text == ShareText(s)
      && s == IssuedShare(secret, noise, threshold, totalShares, shareSetId, s.index)
  {
    hide DecodeShare, ShareText;
    var texts := ShareTexts(secret, noise, threshold, totalShares, shareSetId, totalShares);
    var i :| 0 <= i < |texts| && texts[i] == text;
    IssuedShareIsValid(secret, noise, threshold, totalShares, shareSetId, i + 1);
    DecodeShareText(IssuedShare(secret, noise, threshold, totalShares, shareSetId, i + 1));
  }

  ghost predicate DistinctTexts(texts: seq<string>) {
    forall i, j :: 0 <= i < j < |texts| ==> texts[i] != texts[j]
  }

  lemma IssuedTextsAreAccepted(
    secret: Bytes, noise: Noise, threshold: int, totalShares: int, shareSetId: Bytes, picked: seq<string>)
    requires CanSplit(secret, threshold, totalShares, shareSetId) && |noise| == |secret|
    requires |picked| >= threshold && DistinctTexts(picked)
    requires forall i :: 0 <= i < |picked| ==>
      picked[i] in ShareTexts(secret, noise, threshold, totalShares, shareSetId, totalShares)
    ensures Accepts(picked, threshold, totalShares, shareSetId)
    ensures forall s :: s in DecodeAll(picked) ==>
      s == IssuedShare(secret, noise, threshold, totalShares, shareSetId, s.index)
  {
    hide DecodeShare, ShareText, ShareTexts, IssuedShare;
    forall i | 0 <= i < |picked| ensures DecodeShare(picked[i]).Some? {
      IssuedTextDecodes(secret, noise, threshold, totalShares, shareSetId, picked[i]);
    }
    var d := DecodeAll(picked);
    forall i | 0 <= i < |d|
      ensures Belongs(d[i], threshold, totalShares, shareSetId)
      ensures d[i] == IssuedShare(secret, noise, threshold, totalShares, shareSetId, d[i].index)
      ensures ValidShare(d[i]) && picked[i] == ShareText(d[i])
    {
      IssuedTextDecodes(secret, noise, threshold, totalShares, shareSetId, picked[i]);
      BelongsToIssued(secret, noise, threshold, totalShares, shareSetId, d[i].index);
    }
  }

  lemma BelongsToIssued(
    secret: Bytes, noise: Noise, threshold: int, totalShares: int, shareSetId: Bytes, index: int)
    requires |secret| == |noise|
    ensures Belongs(
      IssuedShare(secret, noise, threshold, totalShares, shareSetId, index), threshold, totalShares, shareSetId)
  {
  }

  /** Interpolating genuine values gives back the secret byte. */
  lemma GenuineValuesReconstruct(
    secret: Bytes, noise: Noise, threshold: int, totalShares: int, shareSetId: Bytes,
    selected: seq<DecodedShare>, position: nat)
    requires CanSplit(secret, threshold, totalShares, shareSetId) && NoiseFor(noise, secret, threshold)
    requires |selected| == threshold && Usable(selected) && position < SECRET_LEN
    requires forall i :: 0 <= i < |selected| ==>
      selected[i] == IssuedShare(secret, noise, threshold, totalShares, shareSetId, selected[i].index)
    ensures Reconstructed(selected, position) == secret[position]
  {
    var xs, ys, c := Indexes(selected), Ordinates(selected, position), Coefficients(secret, noise, position);
    forall i | 0 <= i < |xs| ensures Same(Value(c, xs[i]), ys[i]) {
      var s := IssuedShare(secret, noise, threshold, totalShares, shareSetId, selected[i].index);
      assert selected[i] == s;
      assert ys[i] == Value(c, xs[i]) % PRIME;
      SameAsRemainder(Value(c, xs[i]));
    }
    InterpolantIsUnique(xs, ys, c);
  }

  /** Any threshold many or more distinct shares of one split, in any order,
      combine to exactly the secret. */
  lemma SharesReconstruct(
    secret: Bytes, noise: Noise, threshold: int, totalShares: int, shareSetId: Bytes, picked: seq<string>)
    requires CanSplit(secret, threshold, totalShares, shareSetId) && NoiseFor(noise, secret, threshold)
    requires |picked| >= threshold && DistinctTexts(picked)
    requires forall i :: 0 <= i < |picked| ==>
      picked[i] in ShareTexts(secret, noise, threshold, totalShares, shareSetId, totalShares)
    ensures Combined(picked, threshold, totalShares, shareSetId) == Some(secret)
  {
    hide DecodeShare, ShareTexts, IssuedShare, SortByIndex, Reconstructed;
    IssuedTextsAreAccepted(secret, noise, threshold, totalShares, shareSetId, picked);
    SelectedProperties(picked, threshold, totalShares, shareSetId);
    var s := Selected(picked, threshold, totalShares, shareSetId);
    forall p | 0 <= p < SECRET_LEN ensures Reconstructed(s, p) == secret[p] {
      GenuineValuesReconstruct(secret, noise, threshold, totalShares, shareSetId, s, p);
    }
    assert seq(SECRET_LEN, p requires 0 <= p < SECRET_LEN => Reconstructed(s, p)) == secret;
  }

  // ----- Any accepted shares, genuine or not

  /** polys[p] runs through the selected points of byte p. */
  ghost predicate Fits(polys: seq<seq<Elem>>, selected: seq<DecodedShare>) {
    && FullLength(selected)
    && |polys| == SECRET_LEN
    && forall p :: 0 <= p < SECRET_LEN ==>
         |polys[p]| == |selected| && PassesThrough(polys[p], Indexes(selected), Ordinates(selected, p))
  }

  /** Whatever the selected shares hold, there is exactly one family of
      polynomials of degree below the threshold through them; the secret is made
      of their constant terms, and is refused exactly when one of them is 256. */
  lemma SecretIsConstantTerms(selected: seq<DecodedShare>, polys: seq<seq<Elem>>)
    requires |selected| > 0 && Usable(selected) && Fits(polys, selected)
    ensures
      var r := Secret(selected);
      && (r == None <==> exists p :: 0 <= p < SECRET_LEN && polys[p][0] == 256)
      && (r.Some? ==> |r.value| == SECRET_LEN && forall p :: 0 <= p < SECRET_LEN ==> r.value[p] == polys[p][0])
    ensures forall other :: Fits(other, selected) ==> other == polys
  {
    hide Interpolant, PassesThrough;
    forall p | 0 <= p < SECRET_LEN
      ensures polys[p] == Interpolant(Indexes(selected), Ordinates(selected, p))
      ensures Reconstructed(selected, p) == polys[p][0]
    {
      InterpolantIsUnique(Indexes(selected), Ordinates(selected, p), polys[p]);
    }
    forall other | Fits(other, selected) ensures other == polys {
      forall p | 0 <= p < SECRET_LEN ensures other[p] == polys[p] {
        InterpolantIsUnique(Indexes(selected), Ordinates(selected, p), other[p]);
      }
    }
  }

  /** The same about the supplied texts. */
  lemma CombinedIsConstantTerms(
    encoded: seq<string>, threshold: int, totalShares: int, shareSetId: Bytes, polys: seq<seq<Elem>>)
    requires Accepts(encoded, threshold, totalShares, shareSetId)
    requires Fits(polys, Selected(encoded, threshold, totalShares, shareSetId))
    ensures
      var r := Combined(encoded, threshold, totalShares, shareSetId);
      && (r == None <==> exists p :: 0 <= p < SECRET_LEN && polys[p][0] == 256)
      && (r.Some? ==> |r.value| == SECRET_LEN && forall p :: 0 <= p < SECRET_LEN ==> r.value[p] == polys[p][0])
    ensures forall other :: Fits(other, Selected(encoded, threshold, totalShares, shareSetId)) ==> other == polys
  {
    hide DecodeShare, SortByIndex, Fits, Secret;
    SelectedProperties(encoded, threshold, totalShares, shareSetId);
    SecretIsConstantTerms(Selected(encoded, threshold, totalShares, shareSetId), polys);
  }

  lemma FittingPolynomialsExist(selected: seq<DecodedShare>) returns (polys: seq<seq<Elem>>)
    requires |selected| > 0 && Usable(selected)
    ensures Fits(polys, selected)
  {
    polys := seq(SECRET_LEN, p requires 0 <= p < SECRET_LEN => Interpolant(Indexes(selected), Ordinates(selected, p)));
    forall p | 0 <= p < SECRET_LEN
      ensures PassesThrough(polys[p], Indexes(selected), Ordinates(selected, p))
    {
      InterpolantPassesThrough(Indexes(selected), Ordinates(selected, p));
    }
  }

  /** A valid share with the value 256 at every position. */
  function ShareOf256(threshold: int, totalShares: int, shareSetId: Bytes, index: int): DecodedShare {
    DecodedShare(threshold, totalShares, index, shareSetId, seq(SECRET_LEN, _ => 256))
  }

  /** The constant polynomial 256 with n more zero coefficients. */
  function Constant256(n: nat): seq<Elem> {
    [256] + seq(n, _ => 0)
  }

  function Constants256(n: nat): seq<seq<Elem>> {
    seq(SECRET_LEN, _ => Constant256(n))
  }

  lemma Constant256Fits(selected: seq<DecodedShare>)
    requires |selected| > 0 && FullLength(selected)
    requires forall i, p :: 0 <= i < |selected| && 0 <= p < SECRET_LEN ==> selected[i].values[p] == 256
    ensures Fits(Constants256(|selected| - 1), selected)
  {
    var n := |selected| - 1;
    forall x ensures Value(Constant256(n), x) == 256 {
      ZeroPolyValue(n, x);
      assert Constant256(n)[1..] == seq(n, _ => 0);
    }
    SameReflexive(256);
  }

  /** For every configuration there are accepted shares that do not combine: valid
      texts whose interpolated values are 256. */
  lemma AcceptedSharesCanFail(threshold: int, totalShares: int, shareSetId: Bytes) returns (encoded: seq<string>)
    requires ValidConfig(threshold, totalShares) && |shareSetId| == SHARE_SET_ID_LEN
    ensures |encoded| == threshold
    ensures Accepts(encoded, threshold, totalShares, shareSetId)
    ensures Combined(encoded, threshold, totalShares, shareSetId) == None
  {
    hide DecodeShare, ShareText, SortByIndex, Fits, Secret;
    var shares := seq(threshold, i requires 0 <= i < threshold =>
      ShareOf256(threshold, totalShares, shareSetId, i + 1));
    assert forall i :: 0 <= i < threshold ==> ValidShare(shares[i]);
    encoded := seq(threshold, i requires 0 <= i < threshold => ShareText(shares[i]));
    forall i | 0 <= i < threshold ensures DecodeShare(encoded[i]) == Some(shares[i]) {
      DecodeShareText(shares[i]);
    }
    assert DecodeAll(encoded) == shares;
    SelectedProperties(encoded, threshold, totalShares, shareSetId);
    var s := Selected(encoded, threshold, totalShares, shareSetId);
    forall i | 0 <= i < |s| ensures s[i].values == seq(SECRET_LEN, _ => 256) {
      assert s[i] in shares;
    }
    Constant256Fits(s);
    CombinedIsConstantTerms(encoded, threshold, totalShares, shareSetId, Constants256(|s| - 1));
    assert Constants256(|s| - 1)[0][0] == 256;
  }

  // ----- Tampering

  /** s with the value at one position replaced. */
  function Tampered(s: DecodedShare, position: nat, value: int): DecodedShare
    requires position < |s.values|
  {
    s.(values := s.values[position := value])
  }

  /** Replacing one value of one selected share changes the interpolated value
      at that position and nowhere else. */
  lemma TamperedPositionOnly(s: seq<DecodedShare>, k: nat, position: nat, value: int, p: nat)
    requires |s| > 0 && Usable(s) && k < |s| && position < SECRET_LEN && p < SECRET_LEN
    requires 0 <= value < PRIME && 0 <= s[k].values[position] < PRIME && value != s[k].values[position]
    ensures
      var t := s[k := Tampered(s[k], position, value)];
      Usable(t) && (Reconstructed(t, p) != Reconstructed(s, p) <==> p == position)
  {
    var t := s[k := Tampered(s[k], position, value)];
    assert Indexes(t) == Indexes(s);
    assert Usable(t);
    if p == position {
      PointsDiffer(s[k].values[position], value);
      OrdinateMatters(Indexes(s), Ordinates(s, p), Ordinates(t, p), k);
    } else {
      assert Ordinates(t, p) == Ordinates(s, p);
    }
  }

  /** Two different secrets come out, differing in exactly that byte, unless one
      of the interpolations is refused. */
  lemma TamperedSecret(s: seq<DecodedShare>, k: nat, position: nat, value: int)
    requires |s| > 0 && Usable(s) && k < |s| && position < SECRET_LEN
    requires 0 <= value < PRIME && 0 <= s[k].values[position] < PRIME && value != s[k].values[position]
    ensures
      var t := s[k := Tampered(s[k], position, value)];
      && Usable(t)
      && (Secret(s).Some? && Secret(t).Some? ==>
            && |Secret(s).value| == |Secret(t).value| == SECRET_LEN
            && forall p :: 0 <= p < SECRET_LEN ==> (Secret(t).value[p] != Secret(s).value[p] <==> p == position))
  {
    hide Reconstructed;
    TamperedPositionOnly(s, k, position, value, position);
    var t := s[k := Tampered(s[k], position, value)];
    forall p | 0 <= p < SECRET_LEN ensures Reconstructed(t, p) != Reconstructed(s, p) <==> p == position {
      TamperedPositionOnly(s, k, position, value, p);
    }
  }

  /** Replacing the share numbered index commutes with sorting. */
  function Replace(shares: seq<DecodedShare>, t: DecodedShare): (r: seq<DecodedShare>)
    ensures |r| == |shares|
  {
    seq(|shares|, i requires 0 <= i < |shares| => if shares[i].index == t.index then t else shares[i])
  }

  lemma ReplaceSnoc(shares: seq<DecodedShare>, last: DecodedShare, t: DecodedShare)
    ensures Replace(shares + [last], t) == Replace(shares, t) + [if last.index == t.index then t else last]
  {
  }

  lemma {:induction false} InsertReplace(sorted: seq<DecodedShare>, s: DecodedShare, t: DecodedShare)
    ensures
      var s' := if s.index == t.index then t else s;
      Replace(S.Insert(IndexLess, sorted, s), t) == S.Insert(IndexLess, Replace(sorted, t), s')
  {
    if sorted == [] || !IndexLess(s, sorted[|sorted| - 1]) {
      ReplaceSnoc(sorted, s, t);
    } else {
      var init, last := sorted[..|sorted| - 1], sorted[|sorted| - 1];
      InsertReplace(init, s, t);
      ReplaceSnoc(S.Insert(IndexLess, init, s), last, t);
      assert Replace(sorted, t)[..|sorted| - 1] == Replace(init, t);
    }
  }

  lemma {:induction false} SortReplace(shares: seq<DecodedShare>, t: DecodedShare)
    ensures SortByIndex(Replace(shares, t)) == Replace(SortByIndex(shares), t)
  {
    hide S.Insert;
    if shares != [] {
      var init, last := shares[..|shares| - 1], shares[|shares| - 1];
      SortReplace(init, t);
      InsertReplace(SortByIndex(init), last, t);
      assert Replace(shares, t)[..|shares| - 1] == Replace(init, t);
    }
  }

  lemma TamperedTextAccepted(
    encoded: seq<string>, threshold: int, totalShares: int, shareSetId: Bytes, i: nat, t: DecodedShare)
    requires Accepts(encoded, threshold, totalShares, shareSetId) && i < |encoded|
    requires ValidShare(t) && Belongs(t, threshold, totalShares, shareSetId)
    requires t.index == DecodeAll(encoded)[i].index
    ensures Accepts(encoded[i := ShareText(t)], threshold, totalShares, shareSetId)
    ensures DecodeAll(encoded[i := ShareText(t)]) == Replace(DecodeAll(encoded), t)
  {
    hide DecodeShare, ShareText;
    DecodeShareText(t);
    var d, e := DecodeAll(encoded), encoded[i := ShareText(t)];
    assert AllDecode(e);
    forall j | 0 <= j < |d| ensures DecodeAll(e)[j] == Replace(d, t)[j] {
      if j < i {
        assert d[j].index != d[i].index;
      } else if j > i {
        assert d[i].index != d[j].index;
      }
    }
    assert forall j :: 0 <= j < |d| ==> DecodeAll(e)[j].index == d[j].index;
  }

  /** Re-issuing one of the selected shares with one changed value: if the
      original shares combine, the changed ones either fail or give a secret
      that differs in exactly the changed position. */
  lemma TamperingIsConfined(
    encoded: seq<string>, threshold: int, totalShares: int, shareSetId: Bytes, i: nat, position: nat, value: int)
    requires Accepts(encoded, threshold, totalShares, shareSetId) && i < |encoded|
    requires DecodeAll(encoded)[i] in Selected(encoded, threshold, totalShares, shareSetId)
    requires position < SECRET_LEN && 0 <= value < PRIME
    requires |DecodeAll(encoded)[i].values| == SECRET_LEN && value != DecodeAll(encoded)[i].values[position]
    requires Combined(encoded, threshold, totalShares, shareSetId).Some?
    ensures
      var t := Tampered(DecodeAll(encoded)[i], position, value);
      && ValidShare(t)
      && var before := Combined(encoded, threshold, totalShares, shareSetId).value;
      var after := Combined(encoded[i := ShareText(t)], threshold, totalShares, shareSetId);
      after.Some? ==>
        && |after.value| == SECRET_LEN
        && forall p :: 0 <= p < SECRET_LEN ==> (after.value[p] != before[p] <==> p == position)
  {
    hide DecodeShare, ShareText, SortByIndex, Secret;
    var d := DecodeAll(encoded);
    var t := Tampered(d[i], position, value);
    DecodedSharesAreValid(encoded, d[i]);
    TamperedTextAccepted(encoded, threshold, totalShares, shareSetId, i, t);
    SelectedProperties(encoded, threshold, totalShares, shareSetId);
    SelectedProperties(encoded[i := ShareText(t)], threshold, totalShares, shareSetId);
    var s := Selected(encoded, threshold, totalShares, shareSetId);
    var k :| 0 <= k < |s| && s[k] == d[i];
    SortReplace(d, t);
    SortProperties(d);
    var s' := Selected(encoded[i := ShareText(t)], threshold, totalShares, shareSetId);
    SelectedReplaced(SortByIndex(d), threshold, k, t);
    assert s' == s[k := t];
    TamperedSecret(s, k, position, value);
  }

  lemma SelectedReplaced(sorted: seq<DecodedShare>, n: nat, k: nat, t: DecodedShare)
    requires IncreasingIndexes(sorted) && k < n <= |sorted| && sorted[k].index == t.index
    ensures Replace(sorted, t)[..n] == sorted[..n][k := t]
  {
    forall j | 0 <= j < n ensures Replace(sorted, t)[j] == sorted[k := t][j] {
      if j < k {
        assert sorted[j].index < sorted[k].index;
      } else if k < j {
        assert sorted[k].index < sorted[j].index;
      }
    }
  }

  // ----- Secrecy

  /** The coefficients above the constant term that make the polynomial with the
      given constant term run through the points. */
  ghost function MatchingRow(constant: int, xs: seq<int>, ys: seq<int>): (row: seq<Elem>)
    requires Points([0] + xs) && |xs| == |ys|
    ensures |row| == |xs|
  {
    Interpolant([0] + xs, [constant] + ys)[1..]
  }

  /** For every candidate constant term exactly one choice of the other
      coefficients produces given values at |xs| distinct non-zero points. */
  lemma ExactlyOneRow(constant: Elem, xs: seq<int>, ys: seq<int>, row: seq<Elem>)
    requires Points([0] + xs) && |xs| == |ys| == |row|
    ensures PassesThrough([constant] + row, xs, ys) <==> row == MatchingRow(constant, xs, ys)
  {
    hide Interpolant, Value;
    var zs, ws := [0] + xs, [constant] + ys;
    var c: seq<Elem> := [constant] + row;
    InterpolantIsUnique(zs, ws, c);
    InterpolantIsUnique(zs, ws, Interpolant(zs, ws));
    ValueAtZero(c);
    ValueAtZero(Interpolant(zs, ws));
    SameReflexive(constant);
    assert PassesThrough(c, zs, ws) <==> PassesThrough(c, xs, ys) by {
      if PassesThrough(c, zs, ws) {
        forall i | 0 <= i < |xs| ensures Same(Value(c, xs[i]), ys[i]) {
          assert zs[i + 1] == xs[i] && ws[i + 1] == ys[i];
        }
      }
    }
    if row == MatchingRow(constant, xs, ys) {
      assert Same(Value(Interpolant(zs, ws), zs[0]), ws[0]);
      SameRemainders(Interpolant(zs, ws)[0], constant);
      assert c == Interpolant(zs, ws);
    }
  }

  lemma ValueAtZero(c: Poly)
    requires c != []
    ensures Value(c, 0) == c[0]
  {
  }

  /** What the holders of the shares numbered xs see: view[i] are the values in
      share xs[i]. */
  ghost predicate Sees(secret: Bytes, noise: Noise, xs: seq<int>, view: seq<seq<int>>)
    requires |secret| == |noise|
  {
    |view| == |xs| && forall i :: 0 <= i < |xs| ==> view[i] == ShareValues(secret, noise, xs[i])
  }

  /** A view of the right shape: 32 field elements a share. */
  ghost predicate IsView(view: seq<seq<int>>, n: nat) {
    && |view| == n
    && forall i :: 0 <= i < n ==>
         |view[i]| == SECRET_LEN && forall p :: 0 <= p < SECRET_LEN ==> 0 <= view[i][p] < PRIME
  }

  function Column(view: seq<seq<int>>, position: nat): (ys: seq<int>)
    requires forall i :: 0 <= i < |view| ==> |view[i]| == SECRET_LEN
    requires position < SECRET_LEN
    ensures |ys| == |view|
  {
    seq(|view|, i requires 0 <= i < |view| => view[i][position])
  }

  ghost function MatchingNoise(secret: Bytes, xs: seq<int>, view: seq<seq<int>>): (noise: Noise)
    requires |secret| == SECRET_LEN && Points([0] + xs) && IsView(view, |xs|)
    ensures NoiseFor(noise, secret, |xs| + 1)
  {
    seq(SECRET_LEN, p requires 0 <= p < SECRET_LEN => MatchingRow(secret[p], xs, Column(view, p)))
  }

  /** Seeing a view is the same as every byte's polynomial running through it. */
  lemma SeesByColumns(secret: Bytes, noise: Noise, xs: seq<int>, view: seq<seq<int>>)
    requires |secret| == SECRET_LEN == |noise| && IsView(view, |xs|)
    ensures Sees(secret, noise, xs, view) <==>
      forall p :: 0 <= p < SECRET_LEN ==> PassesThrough(Coefficients(secret, noise, p), xs, Column(view, p))
  {
    hide Value;
    forall i, p | 0 <= i < |xs| && 0 <= p < SECRET_LEN
      ensures view[i][p] == ShareValues(secret, noise, xs[i])[p]
          <==> Same(Value(Coefficients(secret, noise, p), xs[i]), Column(view, p)[i])
    {
      SameRemainders(Value(Coefficients(secret, noise, p), xs[i]), view[i][p]);
    }
    if forall p :: 0 <= p < SECRET_LEN ==> PassesThrough(Coefficients(secret, noise, p), xs, Column(view, p)) {
      forall i | 0 <= i < |xs| ensures view[i] == ShareValues(secret, noise, xs[i]) {
        forall p | 0 <= p < SECRET_LEN ensures view[i][p] == ShareValues(secret, noise, xs[i])[p] {
          assert PassesThrough(Coefficients(secret, noise, p), xs, Column(view, p));
        }
      }
    }
  }

  /** Perfect secrecy by counting. Fix one fewer than threshold many distinct
      share numbers and any values in those shares: for every secret exactly one
      choice of the random coefficients leads to them. So all secrets are
      equally likely given the view. */
  lemma ExactlyOneNoise(secret: Bytes, threshold: int, xs: seq<int>, view: seq<seq<int>>, noise: Noise)
    requires |secret| == SECRET_LEN && NoiseFor(noise, secret, threshold)
    requires |xs| == threshold - 1 && Points([0] + xs) && IsView(view, |xs|)
    ensures Sees(secret, noise, xs, view) <==> noise == MatchingNoise(secret, xs, view)
  {
    hide PassesThrough, MatchingRow;
    SeesByColumns(secret, noise, xs, view);
    forall p | 0 <= p < SECRET_LEN
      ensures PassesThrough(Coefficients(secret, noise, p), xs, Column(view, p))
          <==> noise[p] == MatchingRow(secret[p], xs, Column(view, p))
    {
      ExactlyOneRow(secret[p], xs, Column(view, p), noise[p]);
    }
    var m := MatchingNoise(secret, xs, view);
    if forall p :: 0 <= p < SECRET_LEN ==> noise[p] == m[p] {
      assert noise == m;
    }
  }

  lemma ShareValuesFormView(secret: Bytes, noise: Noise, xs: seq<int>) returns (view: seq<seq<int>>)
    requires |secret| == SECRET_LEN == |noise|
    ensures IsView(view, |xs|) && Sees(secret, noise, xs, view)
  {
    hide Value;
    view := seq(|xs|, i requires 0 <= i < |xs| => ShareValues(secret, noise, xs[i]));
  }

  /** The holders of threshold - 1 shares cannot tell two secrets apart: whatever
      shares they got from one secret, exactly one choice of coefficients deals
      them the same shares from the other. */
  lemma CoalitionLearnsNothing(secret: Bytes, noise: Noise, other: Bytes, threshold: int, xs: seq<int>)
    returns (otherNoise: Noise)
    requires |secret| == |other| == SECRET_LEN && NoiseFor(noise, secret, threshold)
    requires |xs| == threshold - 1 && Points([0] + xs)
    ensures NoiseFor(otherNoise, other, threshold)
    ensures forall n: Noise :: NoiseFor(n, other, threshold) ==>
      ((forall i :: 0 <= i < |xs| ==> ShareValues(other, n, xs[i]) == ShareValues(secret, noise, xs[i]))
       <==> n == otherNoise)
  {
    hide Value, ShareValues, MatchingNoise;
    var view := ShareValuesFormView(secret, noise, xs);
    otherNoise := MatchingNoise(other, xs, view);
    forall n: Noise | NoiseFor(n, other, threshold)
      ensures (forall i :: 0 <= i < |xs| ==> ShareValues(other, n, xs[i]) == ShareValues(secret, noise, xs[i]))
          <==> n == otherNoise
    {
      ExactlyOneNoise(other, threshold, xs, view, n);
      assert Sees(other, n, xs, view)
        <==> forall i :: 0 <= i < |xs| ==> ShareValues(other, n, xs[i]) == ShareValues(secret, noise, xs[i]);
    }
  }
}
