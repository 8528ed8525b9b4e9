/** The text form of a Shamir share: a fixed 88-byte record in unpadded
    URL-safe Base64. */
module ShareCodec {
  import opened Wrappers
  import opened Field
  import opened Base64

  const MIN_THRESHOLD := 2
  const MAX_SHARES := 255
  const SECRET_LEN := 32
  const SHARE_SET_ID_LEN := 16
  const SHARE_MAGIC: Bytes := [0x4d, 0x56, 0x53, 0x53]
  const SHARE_VERSION: byte := 1
  const SHARE_HEADER_LEN := 24
  const SHARE_RAW_LEN := 88

  datatype DecodedShare = DecodedShare(
    threshold: int,
    totalShares: int,
    index: int,
    shareSetId: Bytes,
    values: seq<int>)

  predicate ValidConfig(threshold: int, totalShares: int) {
    MIN_THRESHOLD <= threshold <= totalShares <= MAX_SHARES
  }

  /** A share that `split_secret` may issue. */
  predicate ValidShare(s: DecodedShare) {
    && ValidConfig(s.threshold, s.totalShares)
    && 1 <= s.index <= s.totalShares
    && |s.shareSetId| == SHARE_SET_ID_LEN
    && |s.values| == SECRET_LEN
    && forall i :: 0 <= i < SECRET_LEN ==> 0 <= s.values[i] < PRIME
  }

  // ----- Two-byte big-endian values

  type Word = x: int | 0 <= x < 65536

  function High(v: Word): byte { v / 256 }
  function Low(v: Word): byte { v % 256 }
  function Join(hi: byte, lo: byte): Word { hi * 256 + lo }

  lemma JoinParts(v: Word)
    ensures Join(High(v), Low(v)) == v
  {
  }

  lemma PartsOfJoin(hi: byte, lo: byte)
    ensures High(Join(hi, lo)) == hi && Low(Join(hi, lo)) == lo
  {
  }

  function Flatten(values: seq<Word>): (b: Bytes)
    ensures |b| == 2 * |values|
  {
    if values == [] then []
    else Flatten(values[..|values| - 1]) + [High(values[|values| - 1]), Low(values[|values| - 1])]
  }

  function Pairs(b: Bytes, n: nat): (values: seq<Word>)
    requires 2 * n <= |b|
    ensures |values| == n
  {
    seq(n, i requires 0 <= i < n => Join(b[2 * i], b[2 * i + 1]))
  }

  lemma {:induction false} PairsOfFlatten(values: seq<Word>)
    ensures Pairs(Flatten(values), |values|) == values
  {
    var n := |values|;
    if n > 0 {
      var init, last := values[..n - 1], values[n - 1];
      PairsOfFlatten(init);
      JoinParts(last);
      PairsOfSnoc(Flatten(init), n - 1, High(last), Low(last));
      assert values == init + [last];
    }
  }

  lemma PairsOfSnoc(b: Bytes, n: nat, hi: byte, lo: byte)
    requires |b| == 2 * n
    ensures Pairs(b + [hi, lo], n + 1) == Pairs(b, n) + [Join(hi, lo)]
  {
  }

  lemma {:induction false} FlattenOfPairs(b: Bytes, n: nat)
    requires |b| == 2 * n
    ensures Flatten(Pairs(b, n)) == b
  {
    if n > 0 {
      var init := b[..2 * n - 2];
      FlattenOfPairs(init, n - 1);
      assert Pairs(b, n)[..n - 1] == Pairs(init, n - 1);
      PartsOfJoin(b[2 * n - 2], b[2 * n - 1]);
      assert b == init + [b[2 * n - 2], b[2 * n - 1]];
    }
  }

  // ----- The raw record

  /** The fields fit their places in the raw record. */
  predicate Encodable(s: DecodedShare) {
    && 0 <= s.threshold < 256 && 0 <= s.totalShares < 256 && 0 <= s.index < 256
    && forall i :: 0 <= i < |s.values| ==> 0 <= s.values[i] < 65536
  }

  function Header(s: DecodedShare): Bytes
    requires Encodable(s)
  {
    SHARE_MAGIC + [SHARE_VERSION, s.threshold, s.totalShares, s.index] + s.shareSetId
  }

  function RawShare(s: DecodedShare): Bytes
    requires Encodable(s)
  {
    Header(s) + Flatten(s.values)
  }

  function ParseRaw(raw: Bytes): DecodedShare
    requires |raw| == SHARE_RAW_LEN
  {
    DecodedShare(raw[5], raw[6], raw[7], raw[8..SHARE_HEADER_LEN], Pairs(raw[SHARE_HEADER_LEN..], SECRET_LEN))
  }

  lemma ParseRawShare(s: DecodedShare)
    requires ValidShare(s)
    ensures
      var raw := RawShare(s);
      && |raw| == SHARE_RAW_LEN && raw[..4] == SHARE_MAGIC && raw[4] == SHARE_VERSION
      && ParseRaw(raw) == s
  {
    var raw := RawShare(s);
    assert raw[8..SHARE_HEADER_LEN] == s.shareSetId;
    assert raw[SHARE_HEADER_LEN..] == Flatten(s.values);
    PairsOfFlatten(s.values);
  }

  lemma RawShareOfParse(raw: Bytes)
    requires |raw| == SHARE_RAW_LEN && raw[..4] == SHARE_MAGIC && raw[4] == SHARE_VERSION
    ensures Encodable(ParseRaw(raw)) && RawShare(ParseRaw(raw)) == raw
  {
    var s := ParseRaw(raw);
    FlattenOfPairs(raw[SHARE_HEADER_LEN..], SECRET_LEN);
    assert raw[..SHARE_HEADER_LEN] == Header(s) by {
      assert raw[..8] == SHARE_MAGIC + [SHARE_VERSION, s.threshold, s.totalShares, s.index];
    }
    assert raw == raw[..SHARE_HEADER_LEN] + raw[SHARE_HEADER_LEN..];
  }

  // ----- The text form

  function ShareText(s: DecodedShare): string
    requires Encodable(s)
  {
    UrlEncode(RawShare(s))
  }

  method EncodeShare(s: DecodedShare) returns (encoded: string)
    requires Encodable(s)
    ensures encoded == ShareText(s)
  {
    var raw: Bytes := SHARE_MAGIC;
    raw := raw + [SHARE_VERSION, s.threshold, s.totalShares, s.index];
    raw := raw + s.shareSetId;
    for i := 0 to |s.values|
      invariant raw == Header(s) + Flatten(s.values[..i])
    {
      assert s.values[..i + 1][..i] == s.values[..i];
      raw := raw + [High(s.values[i]), Low(s.values[i])];
    }
    assert s.values[..|s.values|] == s.values;
    encoded := UrlEncode(raw);
  }

  function DecodeShare(encoded: string): Option<DecodedShare> {
    if encoded == "" || PAD in encoded then None
    else
      match UrlDecode(encoded)
      case None => None
      case Some(raw) =>
        if |raw| != SHARE_RAW_LEN || raw[..4] != SHARE_MAGIC || raw[4] != SHARE_VERSION
           || UrlEncode(raw) != encoded
        then None
        else
          var s := ParseRaw(raw);
          if !ValidConfig(s.threshold, s.totalShares)
             || s.index < 1 || s.index > s.totalShares
             || (exists i :: 0 <= i < SECRET_LEN && s.values[i] >= PRIME)
          then None
          else Some(s)
  }

  lemma EmptyTextDecodes()
    ensures UrlDecode("") == Some([])
  {
    UrlDecodeIsOctets("");
    assert MapChars(FromUrlChar, "") == "";
  }

  /** Reading back an issued share gives the share. */
  lemma DecodeShareText(s: DecodedShare)
    requires ValidShare(s)
    ensures DecodeShare(ShareText(s)) == Some(s)
  {
    var raw := RawShare(s);
    ParseRawShare(s);
    UrlDecodeEncode(raw);
    UrlEncodeIsChars(raw);
    EmptyTextDecodes();
  }

  /** The only text that decodes to a share is the text issued for it, and only
      valid shares are ever decoded. */
  lemma DecodedTextIsCanonical(encoded: string)
    requires DecodeShare(encoded).Some?
    ensures
      var s := DecodeShare(encoded).value;
      ValidShare(s) && encoded == ShareText(s)
  {
    RawShareOfParse(UrlDecode(encoded).value);
  }

  /** Two texts for the same share are the same text, and two valid shares with
      the same text are the same share. */
  lemma ShareTextIsBijective(s: DecodedShare, t: DecodedShare)
    requires ValidShare(s) && ValidShare(t)
    ensures ShareText(s) == ShareText(t) <==> s == t
  {
    DecodeShareText(s);
    DecodeShareText(t);
  }

  /** An accepted text uses only URL-safe characters and has zero pad bits. */
  lemma AcceptedTextIsStrict(encoded: string)
    requires DecodeShare(encoded).Some?
    ensures IsCanonicalUrl(encoded)
  {
    ReencodingAcceptsCanonical(encoded);
  }
}
