/** Base64 as the vault uses it: the standard alphabet with padding, read
    strictly (sections 3 and 4 of RFC 4648), and the URL-safe alphabet without
    padding (sections 3.2 and 5 of RFC 4648). */
module Base64 {
  import opened Wrappers

  type Sextet = x: int | 0 <= x < 64

  const PAD := '='

  // ----- Alphabet

  function ToChar(v: Sextet): char {
    if v < 26 then 'A' + v as char
    else if v < 52 then 'a' + (v - 26) as char
    else if v < 62 then '0' + (v - 52) as char
    else if v == 62 then '+' else '/'
  }

  function FromChar(c: char): Option<Sextet> {
    if 'A' <= c <= 'Z' then Some(c as int - 'A' as int)
    else if 'a' <= c <= 'z' then Some(c as int - 'a' as int + 26)
    else if '0' <= c <= '9' then Some(c as int - '0' as int + 52)
    else if c == '+' then Some(62)
    else if c == '/' then Some(63)
    else None
  }

  lemma FromToChar(v: Sextet)
    ensures FromChar(ToChar(v)) == Some(v)
  {
  }

  lemma ToFromChar(c: char)
    ensures FromChar(c).Some? ==> ToChar(FromChar(c).value) == c
  {
  }

  function Chars(x: seq<Sextet>): (s: string)
    ensures |s| == |x|
  {
    seq(|x|, i requires 0 <= i < |x| => ToChar(x[i]))
  }

  predicate InAlphabet(s: string) {
    forall i :: 0 <= i < |s| ==> FromChar(s[i]).Some?
  }

  function Values(s: string): (x: seq<Sextet>)
    requires InAlphabet(s)
    ensures |x| == |s|
  {
    seq(|s|, i requires 0 <= i < |s| => FromChar(s[i]).value)
  }

  lemma ValuesOfChars(x: seq<Sextet>)
    ensures InAlphabet(Chars(x)) && Values(Chars(x)) == x
  {
    forall i | 0 <= i < |x| ensures FromChar(Chars(x)[i]) == Some(x[i]) {
      FromToChar(x[i]);
    }
  }

  lemma CharsOfValues(s: string)
    requires InAlphabet(s)
    ensures Chars(Values(s)) == s
  {
    forall i | 0 <= i < |s| ensures Chars(Values(s))[i] == s[i] {
      ToFromChar(s[i]);
    }
  }

  // ----- Bytes and sextets

  // The four sextets that three bytes fill.
  function Sextet0(a: byte): Sextet { a / 4 }
  function Sextet1(a: byte, b: byte): Sextet { a % 4 * 16 + b / 16 }
  function Sextet2(b: byte, c: byte): Sextet { b % 16 * 4 + c / 64 }
  function Sextet3(c: byte): Sextet { c % 64 }

  // The three bytes that four sextets fill.
  function Octet0(v: Sextet, w: Sextet): byte { v * 4 + w / 16 }
  function Octet1(w: Sextet, x: Sextet): byte { w % 16 * 16 + x / 4 }
  function Octet2(x: Sextet, y: Sextet): byte { x % 4 * 64 + y }

  /** Three bytes survive being spread over four sextets. */
  lemma OctetsBack(a: byte, b: byte, c: byte)
    ensures Octet0(Sextet0(a), Sextet1(a, b)) == a
    ensures Octet1(Sextet1(a, b), Sextet2(b, c)) == b
    ensures Octet2(Sextet2(b, c), Sextet3(c)) == c
  {
  }

  /** Four sextets survive being packed into three bytes. */
  lemma SextetsBack(v: Sextet, w: Sextet, x: Sextet, y: Sextet)
    ensures Sextet0(Octet0(v, w)) == v
    ensures Sextet1(Octet0(v, w), Octet1(w, x)) == w
    ensures Sextet2(Octet1(w, x), Octet2(x, y)) == x
    ensures Sextet3(Octet2(x, y)) == y
  {
  }

  /** A left-over sextet comes back with its four pad bits cleared. */
  lemma FourPadBitsCleared(v: Sextet, w: Sextet)
    ensures Sextet1(Octet0(v, w), 0) == w / 16 * 16
  {
    assert Octet0(v, w) % 4 == w / 16;
  }

  /** A left-over sextet comes back with its two pad bits cleared. */
  lemma TwoPadBitsCleared(w: Sextet, x: Sextet)
    ensures Sextet2(Octet1(w, x), 0) == x / 4 * 4
  {
    assert Octet1(w, x) % 16 == x / 4;
  }

  function EncodeGroup(a: byte, b: byte, c: byte): seq<Sextet> {
    [Sextet0(a), Sextet1(a, b), Sextet2(b, c), Sextet3(c)]
  }

  function DecodeGroup(v: Sextet, w: Sextet, x: Sextet, y: Sextet): Bytes {
    [Octet0(v, w), Octet1(w, x), Octet2(x, y)]
  }

  /** The sextets of at most two bytes; the last one is filled up with zero bits. */
  function EncodeTail(b: Bytes): seq<Sextet> {
    if |b| == 0 then []
    else if |b| == 1 then [Sextet0(b[0]), Sextet1(b[0], 0)]
    else [Sextet0(b[0]), Sextet1(b[0], b[1]), Sextet2(b[1], 0)]
  }

  /** The bytes of at most three sextets, dropping left-over bits. */
  function DecodeTail(x: seq<Sextet>): Bytes {
    if |x| <= 1 then []
    else if |x| == 2 then [Octet0(x[0], x[1])]
    else [Octet0(x[0], x[1]), Octet1(x[1], x[2])]
  }

  /** Regroup bytes into six-bit values. */
  function Sextets(b: Bytes): seq<Sextet> {
    if |b| < 3 then EncodeTail(b) else EncodeGroup(b[0], b[1], b[2]) + Sextets(b[3..])
  }

  /** Regroup six-bit values into bytes. */
  function Octets(x: seq<Sextet>): Bytes {
    if |x| < 4 then DecodeTail(x) else DecodeGroup(x[0], x[1], x[2], x[3]) + Octets(x[4..])
  }

  lemma {:induction false} SextetCount(b: Bytes)
    ensures |Sextets(b)| % 4 != 1
  {
    if |b| >= 3 {
      SextetCount(b[3..]);
      assert |Sextets(b)| == 4 + |Sextets(b[3..])|;
    }
  }

  lemma {:induction false} OctetsOfSextets(b: Bytes)
    ensures Octets(Sextets(b)) == b
  {
    if |b| >= 3 {
      OctetsOfSextets(b[3..]);
      OctetsOfSextetsStep(b[0], b[1], b[2], b[3..]);
      assert b == [b[0], b[1], b[2]] + b[3..];
    } else if |b| == 2 {
      assert b == [b[0], b[1]];
      OctetsOfTwo(b[0], b[1]);
    } else if |b| == 1 {
      assert b == [b[0]];
      OctetsOfOne(b[0]);
    }
  }

  lemma OctetsOfOne(a: byte)
    ensures Octets(Sextets([a])) == [a]
  {
    OctetsBack(a, 0, 0);
    OctetsOfPair(Sextet0(a), Sextet1(a, 0));
  }

  lemma OctetsOfPair(v: Sextet, w: Sextet)
    ensures Octets([v, w]) == [Octet0(v, w)]
  {
  }

  lemma OctetsOfTwo(a: byte, b: byte)
    ensures Octets(Sextets([a, b])) == [a, b]
  {
    OctetsBack(a, b, 0);
    var v, w, x := Sextet0(a), Sextet1(a, b), Sextet2(b, 0);
    assert Sextets([a, b]) == [v, w, x];
    assert Octets([v, w, x]) == [Octet0(v, w), Octet1(w, x)];
  }

  lemma OctetsOfSextetsStep(a: byte, b: byte, c: byte, rest: Bytes)
    ensures Octets(EncodeGroup(a, b, c) + Sextets(rest)) == [a, b, c] + Octets(Sextets(rest))
  {
    OctetsBack(a, b, c);
    var g, t := EncodeGroup(a, b, c), Sextets(rest);
    assert (g + t)[4..] == t;
    assert DecodeGroup(g[0], g[1], g[2], g[3]) == [a, b, c];
  }

  /** The bits that fill up the last sextet are zero, and no sextet stands alone. */
  predicate ZeroPadBits(x: seq<Sextet>) {
    && |x| % 4 != 1
    && (|x| % 4 == 2 ==> x[|x| - 1] % 16 == 0)
    && (|x| % 4 == 3 ==> x[|x| - 1] % 4 == 0)
  }

  lemma {:induction false} SextetsOfOctets(x: seq<Sextet>)
    ensures Sextets(Octets(x)) == x <==> ZeroPadBits(x)
  {
    if |x| < 4 {
      SmallGroups(x);
    } else {
      SextetsOfOctets(x[4..]);
      assert x[..4] == [x[0], x[1], x[2], x[3]] && x == x[..4] + x[4..];
      SextetsOfOctetsStep(x[0], x[1], x[2], x[3], x[4..]);
      PadBitsOfTail(x);
      PrefixCancels(x, 4, Sextets(Octets(x[4..])));
    }
  }

  lemma PadBitsOfTail(x: seq<Sextet>)
    requires |x| >= 4
    ensures ZeroPadBits(x[4..]) <==> ZeroPadBits(x)
  {
    assert |x[4..]| % 4 == |x| % 4;
  }

  lemma PrefixCancels<T>(x: seq<T>, n: nat, y: seq<T>)
    requires n <= |x|
    ensures x[..n] + y == x <==> y == x[n..]
  {
    assert x == x[..n] + x[n..];
    assert (x[..n] + y)[n..] == y;
  }

  ghost predicate ComesBack(x: seq<Sextet>) {
    Sextets(Octets(x)) == x
  }

  lemma SmallGroups(x: seq<Sextet>)
    requires |x| < 4
    ensures ComesBack(x) <==> ZeroPadBits(x)
  {
    if |x| == 0 {
      assert x == [];
    } else if |x| == 1 {
      assert x == [x[0]];
      TailOfOne(x[0]);
    } else if |x| == 2 {
      assert x == [x[0], x[1]];
      TailOfTwo(x[0], x[1]);
    } else {
      assert x == [x[0], x[1], x[2]];
      TailOfThree(x[0], x[1], x[2]);
    }
  }

  lemma TailOfOne(v: Sextet)
    ensures !ComesBack([v])
  {
    assert Octets([v]) == [] && Sextets([]) == [];
  }

  lemma TailOfTwo(v: Sextet, w: Sextet)
    ensures ComesBack([v, w]) <==> w % 16 == 0
  {
    var a := Octet0(v, w);
    SextetsBack(v, w, 0, 0);
    FourPadBitsCleared(v, w);
    assert Octets([v, w]) == [a];
    assert Sextets([a]) == [v, Sextet1(a, 0)];
  }

  lemma TailOfThree(v: Sextet, w: Sextet, x: Sextet)
    ensures ComesBack([v, w, x]) <==> x % 4 == 0
  {
    var a, b := Octet0(v, w), Octet1(w, x);
    SextetsBack(v, w, x, 0);
    TwoPadBitsCleared(w, x);
    assert Octets([v, w, x]) == [a, b];
    assert Sextets([a, b]) == [v, w, Sextet2(b, 0)];
  }

  lemma SextetsOfOctetsStep(v: Sextet, w: Sextet, x: Sextet, y: Sextet, rest: seq<Sextet>)
    ensures Sextets(Octets([v, w, x, y] + rest)) == [v, w, x, y] + Sextets(Octets(rest))
  {
    OctetsOfGroup(v, w, x, y, rest);
    SextetsOfGroup(Octet0(v, w), Octet1(w, x), Octet2(x, y), Octets(rest));
    GroupBack(v, w, x, y);
  }

  lemma OctetsOfGroup(v: Sextet, w: Sextet, x: Sextet, y: Sextet, rest: seq<Sextet>)
    ensures Octets([v, w, x, y] + rest) == [Octet0(v, w), Octet1(w, x), Octet2(x, y)] + Octets(rest)
  {
    assert ([v, w, x, y] + rest)[4..] == rest;
  }

  lemma GroupBack(v: Sextet, w: Sextet, x: Sextet, y: Sextet)
    ensures EncodeGroup(Octet0(v, w), Octet1(w, x), Octet2(x, y)) == [v, w, x, y]
  {
    SextetsBack(v, w, x, y);
  }

  lemma SextetsOfGroup(a: byte, b: byte, c: byte, rest: Bytes)
    ensures Sextets([a, b, c] + rest) == EncodeGroup(a, b, c) + Sextets(rest)
  {
    assert ([a, b, c] + rest)[3..] == rest;
  }

  // ----- Padded standard text

  function Pads(n: nat): (s: string)
    ensures |s| == n && forall i :: 0 <= i < n ==> s[i] == PAD
  {
    seq(n, _ => PAD)
  }

  /** The number of padding characters that completes a group of four. */
  function PadCount(n: nat): (k: nat)
    ensures k < 4 && (n + k) % 4 == 0 && (k == 3 <==> n % 4 == 1)
  {
    if n % 4 == 0 then 0 else 4 - n % 4
  }

  /** s without its trailing padding. */
  function StripPads(s: string): (r: string)
    ensures |r| <= |s| && r == s[..|r|]
    ensures r != "" ==> r[|r| - 1] != PAD
    ensures forall i :: |r| <= i < |s| ==> s[i] == PAD
  {
    if s != "" && s[|s| - 1] == PAD then StripPads(s[..|s| - 1]) else s
  }

  lemma {:induction false} StripAppendedPads(s: string, n: nat)
    requires PAD !in s
    ensures StripPads(s + Pads(n)) == s
  {
    var t := s + Pads(n);
    if n > 0 {
      StripAppendedPads(s, n - 1);
      assert t[..|t| - 1] == s + Pads(n - 1);
    } else {
      assert t == s;
      assert s != "" ==> s[|s| - 1] in s;
    }
  }

  function Encode(b: Bytes): string {
    var s := Chars(Sextets(b));
    s + Pads(PadCount(|s|))
  }

  /** Strict decoding: whole groups, at most two padding characters and only at
      the end, and no character outside the alphabet. */
  function Decode(s: string): Option<Bytes> {
    var body := StripPads(s);
    if |s| % 4 != 0 || |s| - |body| > 2 || !InAlphabet(body) then None
    else Some(Octets(Values(body)))
  }

  lemma CharsHaveNoPad(x: seq<Sextet>)
    ensures PAD !in Chars(x)
  {
    forall i | 0 <= i < |x| ensures Chars(x)[i] != PAD {
      FromToChar(x[i]);
    }
  }

  /** Decoding text whose padding is exactly the trailing n characters. */
  lemma DecodePadded(t: string, n: nat)
    requires PAD !in t
    ensures Decode(t + Pads(n)) ==
      if |t + Pads(n)| % 4 != 0 || n > 2 || !InAlphabet(t) then None else Some(Octets(Values(t)))
  {
    StripAppendedPads(t, n);
  }

  lemma DecodeEncode(b: Bytes)
    ensures Decode(Encode(b)) == Some(b)
  {
    var x := Sextets(b);
    SextetCount(b);
    OctetsOfSextets(b);
    DecodeChars(x, PadCount(|x|));
  }

  lemma DecodeChars(x: seq<Sextet>, n: nat)
    requires |Chars(x) + Pads(n)| % 4 == 0 && n <= 2
    ensures Decode(Chars(x) + Pads(n)) == Some(Octets(x))
  {
    CharsHaveNoPad(x);
    ValuesOfChars(x);
    DecodePadded(Chars(x), n);
  }

  // ----- Unpadded URL-safe text

  function ToUrlChar(c: char): char {
    if c == '+' then '-' else if c == '/' then '_' else c
  }

  /** Decoding maps the URL-safe characters back but leaves '+' and '/' alone. */
  function FromUrlChar(c: char): char {
    if c == '-' then '+' else if c == '_' then '/' else c
  }

  function MapChars(f: char -> char, s: string): (r: string)
    ensures |r| == |s| && forall i :: 0 <= i < |s| ==> r[i] == f(s[i])
  {
    seq(|s|, i requires 0 <= i < |s| => f(s[i]))
  }

  function UrlEncode(b: Bytes): string {
    StripPads(MapChars(ToUrlChar, Encode(b)))
  }

  function UrlDecode(s: string): Option<Bytes> {
    Decode(MapChars(FromUrlChar, s + Pads(PadCount(|s|))))
  }

  lemma UrlEncodeIsChars(b: Bytes)
    ensures UrlEncode(b) == MapChars(ToUrlChar, Chars(Sextets(b)))
    ensures PAD !in UrlEncode(b)
  {
    var s := Chars(Sextets(b));
    var u := MapChars(ToUrlChar, s);
    SextetCount(b);
    CharsHaveNoPad(Sextets(b));
    forall i | 0 <= i < |u| ensures u[i] != PAD {
      assert s[i] in s;
    }
    assert MapChars(ToUrlChar, Encode(b)) == u + Pads(PadCount(|s|));
    StripAppendedPads(u, PadCount(|s|));
  }

  /** What decoding unpadded text computes. */
  lemma UrlDecodeIsOctets(s: string)
    requires PAD !in s
    ensures
      var t := MapChars(FromUrlChar, s);
      UrlDecode(s) == if |s| % 4 == 1 || !InAlphabet(t) then None else Some(Octets(Values(t)))
  {
    var n := PadCount(|s|);
    var t := MapChars(FromUrlChar, s);
    forall i | 0 <= i < |t| ensures t[i] != PAD {
      assert s[i] in s;
    }
    assert MapChars(FromUrlChar, s + Pads(n)) == t + Pads(n);
    DecodePadded(t, n);
  }

  lemma UrlCharsRoundTrip(x: seq<Sextet>)
    ensures MapChars(FromUrlChar, MapChars(ToUrlChar, Chars(x))) == Chars(x)
    ensures var u := MapChars(ToUrlChar, Chars(x)); '+' !in u && '/' !in u
  {
    forall i | 0 <= i < |x| ensures FromUrlChar(ToUrlChar(Chars(x)[i])) == Chars(x)[i] {
      FromToChar(x[i]);
    }
  }

  lemma UrlDecodeEncode(b: Bytes)
    ensures UrlDecode(UrlEncode(b)) == Some(b)
  {
    var x := Sextets(b);
    SextetCount(b);
    UrlEncodeIsChars(b);
    UrlDecodeIsOctets(UrlEncode(b));
    UrlCharsRoundTrip(x);
    ValuesOfChars(x);
    OctetsOfSextets(b);
  }

  /** Text that is the encoding of what it decodes to: only URL-safe characters
      and zero pad bits. */
  predicate IsCanonicalUrl(s: string) {
    && '+' !in s && '/' !in s
    && var t := MapChars(FromUrlChar, s);
    InAlphabet(t) && ZeroPadBits(Values(t))
  }

  /** The re-encoding test accepts exactly the canonical texts; in particular
      it rejects non-zero pad bits and the standard alphabet's '+' and '/',
      which the decoder itself lets through. */
  lemma ReencodingAcceptsCanonical(s: string)
    requires PAD !in s
    ensures (UrlDecode(s).Some? && UrlEncode(UrlDecode(s).value) == s) <==> IsCanonicalUrl(s)
  {
    UrlDecodeIsOctets(s);
    var t := MapChars(FromUrlChar, s);
    if InAlphabet(t) {
      var x := Values(t);
      var y := Sextets(Octets(x));
      UrlEncodeIsChars(Octets(x));
      SextetsOfOctets(x);
      CharsOfValues(t);
      UrlCharsRoundTrip(y);
      ValuesOfChars(y);
      if '+' !in s && '/' !in s {
        UnmapUrl(s);
      }
    }
  }

  lemma UnmapUrl(s: string)
    requires '+' !in s && '/' !in s
    ensures MapChars(ToUrlChar, MapChars(FromUrlChar, s)) == s
  {
    forall i | 0 <= i < |s| ensures ToUrlChar(FromUrlChar(s[i])) == s[i] {
      assert s[i] in s;
    }
  }
}
