/** Exactly which inputs splitting and combining accept and what they answer, in
    numbers, fields and characters. */
module ShamirOutcomes {
  import opened Wrappers
  import opened Field
  import opened Polynomial
  import opened Interpolation
  import opened Base64
  import opened Base64Outcomes
  import opened ShareCodec
  import opened Shamir
  import opened ShamirTheorems

  // ----- The text of a share

  /** A share of some split of a 32-byte secret. */
  ghost predicate Issuable(s: DecodedShare) {
    && 2 <= s.threshold <= s.totalShares <= 255
    && 1 <= s.index <= s.totalShares
    && |s.shareSetId| == 16
    && |s.values| == 32
    && forall p :: 0 <= p < 32 ==> 0 <= s.values[p] <= 256
  }

  /** "MVSS", the version, the three numbers, the set identifier, and each value
      in two bytes, the higher one first. */
  ghost function Layout(s: DecodedShare): (b: Bytes)
    requires Issuable(s)
    ensures |b| == 88
  {
    [77, 86, 83, 83, 1, s.threshold, s.totalShares, s.index] + s.shareSetId
      + seq(64, j requires 0 <= j < 64 => if j % 2 == 0 then s.values[j / 2] / 256 else s.values[j / 2] % 256)
  }

  lemma IssuableIsValid(s: DecodedShare)
    ensures Issuable(s) <==> ValidShare(s)
  {
  }

  lemma {:induction false} FlattenAt(values: seq<Word>, j: nat)
    requires j < 2 * |values|
    ensures Flatten(values)[j] == if j % 2 == 0 then values[j / 2] / 256 else values[j / 2] % 256
  {
    var n := |values|;
    if j < 2 * n - 2 {
      FlattenAt(values[..n - 1], j);
    }
  }

  lemma RawShareIsLayout(s: DecodedShare)
    requires Issuable(s)
    ensures Encodable(s) && RawShare(s) == Layout(s)
  {
    hide Flatten;
    forall j | 0 <= j < 64 ensures Flatten(s.values)[j] == Layout(s)[24 + j] {
      FlattenAt(s.values, j);
    }
    assert RawShare(s)[24..] == Layout(s)[24..];
    assert RawShare(s)[..24] == Layout(s)[..24];
    assert RawShare(s) == RawShare(s)[..24] + RawShare(s)[24..];
    assert Layout(s) == Layout(s)[..24] + Layout(s)[24..];
  }

  /** The decoder accepts exactly the 118 characters of shares that a split can
      issue, six bits of the layout in each. */
  lemma SharesDecodeExactly(text: string, s: DecodedShare)
    ensures DecodeShare(text) == Some(s) <==>
      && Issuable(s)
      && |text| == 118
      && |URL_TABLE| == 64
      && forall j :: 0 <= j < 118 ==> text[j] == URL_TABLE[SixBits(Layout(s), j)]
  {
    hide DecodeShare, UrlEncode, SixBits, RawShare, Layout, Issuable;
    IssuableIsValid(s);
    if DecodeShare(text) == Some(s) {
      DecodedTextIsCanonical(text);
    }
    if Issuable(s) {
      RawShareIsLayout(s);
      DecodeShareText(s);
      UrlEncodeIsTable(Layout(s));
      if |text| == 118 && forall j :: 0 <= j < 118 ==> text[j] == URL_TABLE[SixBits(Layout(s), j)] {
        assert text == ShareText(s);
      }
    }
  }

  // ----- Splitting

  /** Splitting accepts exactly these inputs, and the i-th text decodes to the
      share numbered i + 1 with the value there of each byte's polynomial. */
  lemma SplitsExactly(secret: Bytes, noise: Noise, threshold: int, totalShares: int, shareSetId: Bytes)
    requires |noise| == |secret|
    ensures CanSplit(secret, threshold, totalShares, shareSetId) <==>
      2 <= threshold <= totalShares <= 255 && |secret| == 32 && |shareSetId| == 16
    ensures CanSplit(secret, threshold, totalShares, shareSetId) ==>
      var texts := ShareTexts(secret, noise, threshold, totalShares, shareSetId, totalShares);
      && |texts| == totalShares
      && forall i :: 0 <= i < totalShares ==>
           DecodeShare(texts[i]) == Some(DecodedShare(threshold, totalShares, i + 1, shareSetId,
             seq(32, p requires 0 <= p < 32 => PowerSum([secret[p]] + noise[p], i + 1, 0) % 257)))
  {
    hide DecodeShare, ShareText;
    if CanSplit(secret, threshold, totalShares, shareSetId) {
      var texts := ShareTexts(secret, noise, threshold, totalShares, shareSetId, totalShares);
      forall i | 0 <= i < totalShares
        ensures DecodeShare(texts[i]) == Some(DecodedShare(threshold, totalShares, i + 1, shareSetId,
          seq(32, p requires 0 <= p < 32 => PowerSum([secret[p]] + noise[p], i + 1, 0) % 257)))
      {
        var s := IssuedShare(secret, noise, threshold, totalShares, shareSetId, i + 1);
        IssuedShareIsValid(secret, noise, threshold, totalShares, shareSetId, i + 1);
        DecodeShareText(s);
        forall p | 0 <= p < 32 ensures s.values[p] == PowerSum([secret[p]] + noise[p], i + 1, 0) % 257 {
          ValueIsPowerSum([secret[p]] + noise[p], i + 1, 0);
        }
        assert s.values == seq(32, p requires 0 <= p < 32 => PowerSum([secret[p]] + noise[p], i + 1, 0) % 257);
      }
    }
  }

  // ----- What combining refuses

  /** Enough texts, all shares of the one set, no number twice. */
  ghost predicate OneSet(encoded: seq<string>, threshold: int, totalShares: int, shareSetId: Bytes) {
    && 2 <= threshold <= totalShares <= 255
    && |shareSetId| == 16
    && |encoded| >= threshold
    && (forall i :: 0 <= i < |encoded| ==>
          && DecodeShare(encoded[i]).Some?
          && DecodeShare(encoded[i]).value.threshold == threshold
          && DecodeShare(encoded[i]).value.totalShares == totalShares
          && DecodeShare(encoded[i]).value.shareSetId == shareSetId)
    && forall i, j :: 0 <= i < j < |encoded| ==>
         DecodeShare(encoded[i]).value.index != DecodeShare(encoded[j]).value.index
  }

  lemma AcceptedIsOneSet(encoded: seq<string>, threshold: int, totalShares: int, shareSetId: Bytes)
    ensures Accepts(encoded, threshold, totalShares, shareSetId)
        <==> OneSet(encoded, threshold, totalShares, shareSetId)
  {
    hide DecodeShare;
    if OneSet(encoded, threshold, totalShares, shareSetId) {
      assert AllDecode(encoded);
      var d := DecodeAll(encoded);
      assert forall i :: 0 <= i < |d| ==> d[i] == DecodeShare(encoded[i]).value;
    }
    if Accepts(encoded, threshold, totalShares, shareSetId) {
      var d := DecodeAll(encoded);
      forall i | 0 <= i < |encoded|
        ensures DecodeShare(encoded[i]) == Some(d[i]) && Belongs(d[i], threshold, totalShares, shareSetId)
      {
      }
    }
  }

  /** Shares of another threshold, another number of shares or another set are
      refused, wherever they stand among the texts. */
  lemma ForeignShareIsRefused(
    encoded: seq<string>, threshold: int, totalShares: int, shareSetId: Bytes, i: nat)
    requires i < |encoded| && DecodeShare(encoded[i]).Some?
    requires
      var s := DecodeShare(encoded[i]).value;
      s.threshold != threshold || s.totalShares != totalShares || s.shareSetId != shareSetId
    ensures Combined(encoded, threshold, totalShares, shareSetId) == None
  {
    hide DecodeShare;
    AcceptedIsOneSet(encoded, threshold, totalShares, shareSetId);
  }

  /** In particular every share that some other split issued. */
  lemma SharesOfOtherSplitAreRefused(
    encoded: seq<string>, threshold: int, totalShares: int, shareSetId: Bytes,
    secret: Bytes, noise: Noise, otherThreshold: int, otherTotal: int, otherId: Bytes)
    requires CanSplit(secret, otherThreshold, otherTotal, otherId) && |noise| == |secret|
    requires exists text ::
      text in encoded && text in ShareTexts(secret, noise, otherThreshold, otherTotal, otherId, otherTotal)
    requires otherThreshold != threshold || otherTotal != totalShares || otherId != shareSetId
    ensures Combined(encoded, threshold, totalShares, shareSetId) == None
  {
    hide DecodeShare, Combined, ShareTexts;
    var text :| text in encoded && text in ShareTexts(secret, noise, otherThreshold, otherTotal, otherId, otherTotal);
    IssuedTextDecodes(secret, noise, otherThreshold, otherTotal, otherId, text);
    var i :| 0 <= i < |encoded| && encoded[i] == text;
    ForeignShareIsRefused(encoded, threshold, totalShares, shareSetId, i);
  }

  // ----- What combining answers

  /** One of the texts is this share's. */
  ghost predicate Supplied(encoded: seq<string>, s: DecodedShare) {
    exists text :: text in encoded && DecodeShare(text) == Some(s)
  }

  /** The shares with the lowest numbers, in ascending order. */
  ghost predicate Lowest(encoded: seq<string>, n: int, chosen: seq<DecodedShare>) {
    && |chosen| == n
    && (forall i, j :: 0 <= i < j < n ==> chosen[i].index < chosen[j].index)
    && (forall i :: 0 <= i < n ==> Supplied(encoded, chosen[i]))
    && forall text :: text in encoded && DecodeShare(text).Some? ==>
         || DecodeShare(text).value in chosen
         || forall i :: 0 <= i < n ==> chosen[i].index < DecodeShare(text).value.index
  }

  /** polys[p] has one coefficient for each chosen share, and at the share's number
      the p-th value in the share. */
  ghost predicate RunThrough(polys: seq<seq<Elem>>, chosen: seq<DecodedShare>) {
    && |polys| == 32
    && forall p :: 0 <= p < 32 ==>
         && |polys[p]| == |chosen|
         && forall i :: 0 <= i < |chosen| ==>
              p < |chosen[i].values| && PowerSum(polys[p], chosen[i].index, 0) % 257 == chosen[i].values[p]
  }

  /** What two ascending lists agree on so far comes before what follows. */
  lemma AgreedComesBefore(sorted: seq<DecodedShare>, chosen: seq<DecodedShare>, m: nat, k: nat)
    requires m < |chosen| && m <= |sorted| && k < |sorted| && sorted[k] == chosen[m]
    requires forall i :: 0 <= i < m ==> chosen[i] == sorted[i] && chosen[i].index < chosen[m].index
    ensures k >= m
  {
  }

  lemma NothingBetween(
    encoded: seq<string>, sorted: seq<DecodedShare>, chosen: seq<DecodedShare>, m: nat, k: nat)
    requires IncreasingIndexes(sorted) && Lowest(encoded, |chosen|, chosen)
    requires m < |chosen| && m <= k < |sorted| && sorted[k] == chosen[m]
    requires forall i :: 0 <= i < m ==> chosen[i] == sorted[i]
    requires Supplied(encoded, sorted[m])
    ensures k == m
  {
    hide DecodeShare;
    var text :| text in encoded && DecodeShare(text) == Some(sorted[m]);
    if sorted[m] in chosen {
      var j :| 0 <= j < |chosen| && chosen[j] == sorted[m];
    }
  }

  lemma {:induction false} LowestIsSorted(
    encoded: seq<string>, sorted: seq<DecodedShare>, chosen: seq<DecodedShare>, n: nat, m: nat)
    requires IncreasingIndexes(sorted) && m <= n <= |sorted| && Lowest(encoded, n, chosen)
    requires forall s :: s in sorted <==> Supplied(encoded, s)
    ensures forall i :: 0 <= i < m ==> chosen[i] == sorted[i]
  {
    hide DecodeShare, Supplied;
    if m > 0 {
      LowestIsSorted(encoded, sorted, chosen, n, m - 1);
      assert chosen[m - 1] in sorted;
      var k :| 0 <= k < |sorted| && sorted[k] == chosen[m - 1];
      AgreedComesBefore(sorted, chosen, m - 1, k);
      assert sorted[m - 1] in sorted;
      NothingBetween(encoded, sorted, chosen, m - 1, k);
    }
  }

  lemma SelectedIsLowest(encoded: seq<string>, threshold: int, totalShares: int, shareSetId: Bytes)
    requires Accepts(encoded, threshold, totalShares, shareSetId)
    ensures Lowest(encoded, threshold, Selected(encoded, threshold, totalShares, shareSetId))
    ensures forall chosen ::
      Lowest(encoded, threshold, chosen) ==> chosen == Selected(encoded, threshold, totalShares, shareSetId)
  {
    hide DecodeShare, SortByIndex, Lowest;
    var d := DecodeAll(encoded);
    var sorted := SortByIndex(d);
    SortProperties(d);
    forall s ensures s in sorted <==> Supplied(encoded, s) {
      if s in d {
        var i :| 0 <= i < |d| && d[i] == s;
        assert encoded[i] in encoded && DecodeShare(encoded[i]) == Some(s);
      }
      if text :| text in encoded && DecodeShare(text) == Some(s) {
        var i :| 0 <= i < |encoded| && encoded[i] == text;
        assert d[i] == s;
      }
    }
    FirstAreLowest(encoded, sorted, threshold);
    forall chosen | Lowest(encoded, threshold, chosen) ensures chosen == sorted[..threshold] {
      LowestIsSorted(encoded, sorted, chosen, threshold, threshold);
      LowestLength(encoded, threshold, chosen);
      assert sorted[..threshold] == chosen;
    }
  }

  lemma LowestLength(encoded: seq<string>, n: int, chosen: seq<DecodedShare>)
    requires Lowest(encoded, n, chosen)
    ensures |chosen| == n
  {
  }

  lemma FirstAreLowest(encoded: seq<string>, sorted: seq<DecodedShare>, n: nat)
    requires IncreasingIndexes(sorted) && n <= |sorted|
    requires forall s :: s in sorted <==> Supplied(encoded, s)
    ensures Lowest(encoded, n, sorted[..n])
  {
    hide DecodeShare;
    var first := sorted[..n];
    forall i | 0 <= i < n ensures Supplied(encoded, first[i]) {
      assert first[i] == sorted[i] && sorted[i] in sorted;
    }
    forall text | text in encoded && DecodeShare(text).Some?
      ensures DecodeShare(text).value in first
           || forall i :: 0 <= i < n ==> first[i].index < DecodeShare(text).value.index
    {
      var s := DecodeShare(text).value;
      assert Supplied(encoded, s) && s in sorted;
      var k :| 0 <= k < |sorted| && sorted[k] == s;
      if k < n {
        assert first[k] == s;
      } else {
        forall i | 0 <= i < n ensures first[i].index < s.index {
          assert first[i] == sorted[i];
        }
      }
    }
    forall i, j | 0 <= i < j < n ensures first[i].index < first[j].index {
      assert first[i] == sorted[i] && first[j] == sorted[j];
    }
  }

  lemma SumIsValue(power: int, value: int, sum: int)
    requires power == 1 && power * value == sum
    ensures value == sum
  {
  }

  lemma SmallRemainder(y: int)
    requires 0 <= y < 257
    ensures y % PRIME == y
  {
  }

  /** For one polynomial and one share. */
  lemma RunsThroughOne(poly: Poly, x: int, y: int)
    requires 0 <= y < 257
    ensures PowerSum(poly, x, 0) % 257 == y <==> Same(Value(poly, x), y)
  {
    hide Value, PowerSum, Same;
    ValueIsPowerSum(poly, x, 0);
    SumIsValue(Power(x, 0), Value(poly, x), PowerSum(poly, x, 0));
    SameRemainders(Value(poly, x), y);
    SmallRemainder(y);
  }

  /** For one byte. */
  lemma RunsThroughColumn(poly: Poly, chosen: seq<DecodedShare>, p: nat)
    requires p < 32 && FullLength(chosen)
    requires forall i :: 0 <= i < |chosen| ==> ValidShare(chosen[i])
    ensures PassesThrough(poly, Indexes(chosen), Ordinates(chosen, p))
        <==> forall i :: 0 <= i < |chosen| ==> PowerSum(poly, chosen[i].index, 0) % 257 == chosen[i].values[p]
  {
    hide Value, PowerSum, Same;
    var xs, ys := Indexes(chosen), Ordinates(chosen, p);
    forall i | 0 <= i < |chosen|
      ensures PowerSum(poly, chosen[i].index, 0) % 257 == chosen[i].values[p] <==> Same(Value(poly, xs[i]), ys[i])
    {
      RunsThroughOne(poly, chosen[i].index, chosen[i].values[p]);
    }
    if forall i :: 0 <= i < |chosen| ==> PowerSum(poly, chosen[i].index, 0) % 257 == chosen[i].values[p] {
      forall i | 0 <= i < |xs| ensures Same(Value(poly, xs[i]), ys[i]) {
        assert PowerSum(poly, chosen[i].index, 0) % 257 == chosen[i].values[p];
      }
    }
    if PassesThrough(poly, xs, ys) {
      forall i | 0 <= i < |chosen| ensures PowerSum(poly, chosen[i].index, 0) % 257 == chosen[i].values[p] {
        assert Same(Value(poly, xs[i]), ys[i]);
      }
    }
  }

  lemma RunThroughIsFits(polys: seq<seq<Elem>>, chosen: seq<DecodedShare>)
    requires forall i :: 0 <= i < |chosen| ==> ValidShare(chosen[i])
    ensures RunThrough(polys, chosen) <==> Fits(polys, chosen)
  {
    hide PassesThrough, PowerSum;
    assert FullLength(chosen);
    forall p | 0 <= p < 32 && p < |polys|
      ensures PassesThrough(polys[p], Indexes(chosen), Ordinates(chosen, p))
          <==> forall i :: 0 <= i < |chosen| ==> PowerSum(polys[p], chosen[i].index, 0) % 257 == chosen[i].values[p]
    {
      RunsThroughColumn(polys[p], chosen, p);
    }
  }

  /** Exactly what combining answers: the constant terms of the 32 polynomials
      through the lowest-numbered shares. It fails when the texts are not shares
      of the one set, or one of these terms is 256, and in no other case. */
  lemma CombinesExactly(
    encoded: seq<string>, threshold: int, totalShares: int, shareSetId: Bytes,
    chosen: seq<DecodedShare>, polys: seq<seq<Elem>>)
    requires Lowest(encoded, threshold, chosen) && RunThrough(polys, chosen)
    ensures Combined(encoded, threshold, totalShares, shareSetId) ==
      if OneSet(encoded, threshold, totalShares, shareSetId)
         && forall p :: 0 <= p < 32 ==> polys[p] != [] && polys[p][0] != 256
      then Some(seq(32, p requires 0 <= p < 32 => polys[p][0]))
      else None
  {
    hide DecodeShare, Lowest, RunThrough, Fits, SortByIndex, OneSet, Accepts;
    AcceptedIsOneSet(encoded, threshold, totalShares, shareSetId);
    RunThroughShape(polys, chosen);
    if Accepts(encoded, threshold, totalShares, shareSetId) {
      AcceptedThreshold(encoded, threshold, totalShares, shareSetId);
      SelectedIsLowest(encoded, threshold, totalShares, shareSetId);
      SelectedProperties(encoded, threshold, totalShares, shareSetId);
      RunThroughIsFits(polys, chosen);
      CombinedIsConstantTerms(encoded, threshold, totalShares, shareSetId, polys);
      var r := Combined(encoded, threshold, totalShares, shareSetId);
      if r.Some? {
        assert r.value == seq(32, p requires 0 <= p < 32 => polys[p][0]);
      }
    }
  }

  lemma RunThroughShape(polys: seq<seq<Elem>>, chosen: seq<DecodedShare>)
    requires RunThrough(polys, chosen)
    ensures |polys| == 32 && forall p :: 0 <= p < 32 ==> |polys[p]| == |chosen|
  {
  }

  lemma AcceptedThreshold(encoded: seq<string>, threshold: int, totalShares: int, shareSetId: Bytes)
    requires Accepts(encoded, threshold, totalShares, shareSetId)
    ensures 2 <= threshold
  {
  }

  /** For texts of one set there are such shares and polynomials. */
  lemma AnswerExists(encoded: seq<string>, threshold: int, totalShares: int, shareSetId: Bytes)
    returns (chosen: seq<DecodedShare>, polys: seq<seq<Elem>>)
    requires OneSet(encoded, threshold, totalShares, shareSetId)
    ensures Lowest(encoded, threshold, chosen) && RunThrough(polys, chosen)
  {
    hide DecodeShare, Lowest, RunThrough, Fits, SortByIndex, OneSet, Accepts;
    AcceptedIsOneSet(encoded, threshold, totalShares, shareSetId);
    AcceptedThreshold(encoded, threshold, totalShares, shareSetId);
    SelectedIsLowest(encoded, threshold, totalShares, shareSetId);
    SelectedProperties(encoded, threshold, totalShares, shareSetId);
    chosen := Selected(encoded, threshold, totalShares, shareSetId);
    polys := FittingPolynomialsExist(chosen);
    RunThroughIsFits(polys, chosen);
  }
}
