/** Base64 text character by character: the tables of RFC 4648, and the bits each
    character and each byte stands for. */
module Base64Outcomes {
  import opened Wrappers
  import opened Base64

  // ----- The groups of six bits

  /** The byte at a position; zero bits follow the last byte. */
  function ByteAt(b: Bytes, i: nat): byte {
    if i < |b| then b[i] else 0
  }

  /** The j-th group of six bits, counted from the highest bit of the first byte:
      three bytes make a number of 24 bits, of which the group takes six. */
  function SixBits(b: Bytes, j: nat): Sextet {
    var g := j / 4 * 3;
    var n := ByteAt(b, g) * 65536 + ByteAt(b, g + 1) * 256 + ByteAt(b, g + 2);
    match j % 4
    case 0 => n / 262144 % 64
    case 1 => n / 4096 % 64
    case 2 => n / 64 % 64
    case 3 => n % 64
  }

  lemma FirstSix(a: byte, b: byte, c: byte)
    ensures (a * 65536 + b * 256 + c) / 262144 % 64 == Sextet0(a)
  {
    var n, q, r := a * 65536 + b * 256 + c, a / 4, a % 4 * 65536 + b * 256 + c;
    assert n == q * 262144 + r && 0 <= r < 262144;
    assert n / 262144 == q;
  }

  lemma SecondSix(a: byte, b: byte, c: byte)
    ensures (a * 65536 + b * 256 + c) / 4096 % 64 == Sextet1(a, b)
  {
    var n, q, r := a * 65536 + b * 256 + c, a * 16 + b / 16, b % 16 * 256 + c;
    assert n == q * 4096 + r && 0 <= r < 4096;
    assert n / 4096 == q;
    assert q == 64 * (a / 4) + (a % 4 * 16 + b / 16);
  }

  lemma ThirdSix(a: byte, b: byte, c: byte)
    ensures (a * 65536 + b * 256 + c) / 64 % 64 == Sextet2(b, c)
  {
    var n, q, r := a * 65536 + b * 256 + c, a * 1024 + b * 4 + c / 64, c % 64;
    assert n == q * 64 + r && 0 <= r < 64;
    assert n / 64 == q;
    assert q == 64 * (a * 16 + b / 16) + (b % 16 * 4 + c / 64);
  }

  lemma FourthSix(a: byte, b: byte, c: byte)
    ensures (a * 65536 + b * 256 + c) % 64 == Sextet3(c)
  {
    var n := a * 65536 + b * 256 + c;
    assert n == 64 * (a * 1024 + b * 4 + c / 64) + c % 64;
  }

  lemma GroupIsSixBits(a: byte, b: byte, c: byte)
    ensures
      var n := a * 65536 + b * 256 + c;
      && Sextet0(a) == n / 262144 % 64
      && Sextet1(a, b) == n / 4096 % 64
      && Sextet2(b, c) == n / 64 % 64
      && Sextet3(c) == n % 64
  {
    hide Sextet0, Sextet1, Sextet2, Sextet3;
    FirstSix(a, b, c);
    SecondSix(a, b, c);
    ThirdSix(a, b, c);
    FourthSix(a, b, c);
  }

  lemma SixBitsOfTail(b: Bytes, j: nat)
    requires |b| >= 3
    ensures SixBits(b, j + 4) == SixBits(b[3..], j)
  {
    assert (j + 4) / 4 * 3 == j / 4 * 3 + 3;
    assert (j + 4) % 4 == j % 4;
  }

  /** The regrouped values are the bits of the bytes, six at a time, in order. */
  lemma {:induction false} SextetsAreSixBits(b: Bytes, j: nat)
    ensures |Sextets(b)| == (4 * |b| + 2) / 3
    ensures j < |Sextets(b)| ==> Sextets(b)[j] == SixBits(b, j)
  {
    hide Sextet0, Sextet1, Sextet2, Sextet3;
    if |b| >= 3 {
      SextetsAreSixBits(b[3..], if j < 4 then 0 else j - 4);
      if j < 4 {
        GroupIsSixBits(b[0], b[1], b[2]);
      } else {
        hide SixBits;
        SixBitsOfTail(b, j - 4);
      }
    } else {
      TailIsSixBits(b, j);
    }
  }

  lemma TailIsSixBits(b: Bytes, j: nat)
    requires |b| < 3
    ensures |Sextets(b)| == (4 * |b| + 2) / 3
    ensures j < |Sextets(b)| ==> Sextets(b)[j] == SixBits(b, j)
  {
    hide Sextet0, Sextet1, Sextet2, Sextet3;
    GroupIsSixBits(ByteAt(b, 0), ByteAt(b, 1), ByteAt(b, 2));
  }

  function SextetAt(x: seq<Sextet>, j: nat): Sextet {
    if j < |x| then x[j] else 0
  }

  /** The i-th byte: four sextets make a number of 24 bits, of which the byte
      takes eight. */
  function EightBits(x: seq<Sextet>, i: nat): byte {
    var g := i / 3 * 4;
    var n := SextetAt(x, g) * 262144 + SextetAt(x, g + 1) * 4096 + SextetAt(x, g + 2) * 64 + SextetAt(x, g + 3);
    match i % 3
    case 0 => n / 65536 % 256
    case 1 => n / 256 % 256
    case 2 => n % 256
  }

  lemma FirstEight(v: Sextet, w: Sextet, x: Sextet, y: Sextet)
    ensures (v * 262144 + w * 4096 + x * 64 + y) / 65536 % 256 == Octet0(v, w)
  {
    var n, q, r := v * 262144 + w * 4096 + x * 64 + y, v * 4 + w / 16, w % 16 * 4096 + x * 64 + y;
    assert n == q * 65536 + r && 0 <= r < 65536;
    assert n / 65536 == q;
  }

  lemma SecondEight(v: Sextet, w: Sextet, x: Sextet, y: Sextet)
    ensures (v * 262144 + w * 4096 + x * 64 + y) / 256 % 256 == Octet1(w, x)
  {
    var n, q, r := v * 262144 + w * 4096 + x * 64 + y, v * 1024 + w * 16 + x / 4, x % 4 * 64 + y;
    assert n == q * 256 + r && 0 <= r < 256;
    assert n / 256 == q;
    assert q == 256 * (v * 4 + w / 16) + (w % 16 * 16 + x / 4);
  }

  lemma ThirdEight(v: Sextet, w: Sextet, x: Sextet, y: Sextet)
    ensures (v * 262144 + w * 4096 + x * 64 + y) % 256 == Octet2(x, y)
  {
    var n := v * 262144 + w * 4096 + x * 64 + y;
    assert n == 256 * (v * 1024 + w * 16 + x / 4) + (x % 4 * 64 + y);
  }

  lemma GroupIsEightBits(v: Sextet, w: Sextet, x: Sextet, y: Sextet)
    ensures
      var n := v * 262144 + w * 4096 + x * 64 + y;
      && Octet0(v, w) == n / 65536 % 256
      && Octet1(w, x) == n / 256 % 256
      && Octet2(x, y) == n % 256
  {
    hide Octet0, Octet1, Octet2;
    FirstEight(v, w, x, y);
    SecondEight(v, w, x, y);
    ThirdEight(v, w, x, y);
  }

  lemma EightBitsOfTail(x: seq<Sextet>, i: nat)
    requires |x| >= 4
    ensures EightBits(x, i + 3) == EightBits(x[4..], i)
  {
    assert (i + 3) / 3 * 4 == i / 3 * 4 + 4;
    assert (i + 3) % 3 == i % 3;
  }

  /** The bytes are the bits of the regrouped values, eight at a time, in order;
      what is left over is dropped. */
  lemma {:induction false} OctetsAreEightBits(x: seq<Sextet>, i: nat)
    ensures |Octets(x)| == 3 * |x| / 4
    ensures i < |Octets(x)| ==> Octets(x)[i] == EightBits(x, i)
  {
    hide Octet0, Octet1, Octet2, EightBits;
    if |x| >= 4 {
      OctetsAreEightBits(x[4..], if i < 3 then 0 else i - 3);
      if i < 3 {
        FirstGroup(x, i);
      } else {
        EightBitsOfTail(x, i - 3);
      }
    } else {
      TailIsEightBits(x, i);
    }
  }

  lemma FirstGroup(x: seq<Sextet>, i: nat)
    requires |x| >= 4 && i < 3
    ensures DecodeGroup(x[0], x[1], x[2], x[3])[i] == EightBits(x, i)
  {
    hide Octet0, Octet1, Octet2;
    GroupIsEightBits(x[0], x[1], x[2], x[3]);
  }

  lemma TailIsEightBits(x: seq<Sextet>, i: nat)
    requires |x| < 4
    ensures |Octets(x)| == 3 * |x| / 4
    ensures i < |Octets(x)| ==> Octets(x)[i] == EightBits(x, i)
  {
    hide Octet0, Octet1, Octet2;
    GroupIsEightBits(SextetAt(x, 0), SextetAt(x, 1), SextetAt(x, 2), SextetAt(x, 3));
  }

  // The two tables of RFC 4648.
  const LETTERS_AND_DIGITS := "ABCDEFGHIJKLMNOPQRSTUVWXYZ" + "abcdefghijklmnopqrstuvwxyz" + "0123456789"
  const STANDARD_TABLE := LETTERS_AND_DIGITS + "+/"
  const URL_TABLE := LETTERS_AND_DIGITS + "-_"

  lemma CharsAreTabled(v: Sextet)
    ensures |STANDARD_TABLE| == 64
    ensures ToChar(v) == STANDARD_TABLE[v]
  {
    LettersAndDigits(v);
  }

  lemma UrlCharsAreTabled(v: Sextet)
    ensures |URL_TABLE| == 64
    ensures ToUrlChar(ToChar(v)) == URL_TABLE[v]
  {
    LettersAndDigits(v);
  }

  lemma LettersAndDigits(v: Sextet)
    ensures |LETTERS_AND_DIGITS| == 62
    ensures v < 62 ==> ToChar(v) == LETTERS_AND_DIGITS[v]
  {
  }

  // ----- Texts

  /** The padded text of any bytes, character by character. */
  lemma EncodeIsTable(b: Bytes)
    ensures
      var n := (4 * |b| + 2) / 3;
      && |Encode(b)| % 4 == 0 && n <= |Encode(b)| < n + 4
      && |STANDARD_TABLE| == 64
      && forall j :: 0 <= j < |Encode(b)| ==> Encode(b)[j] == (if j < n then STANDARD_TABLE[SixBits(b, j)] else '=')
  {
    hide Sextets, SixBits, ToChar, PadCount;
    SextetsAreSixBits(b, 0);
    CharsAreTabled(0);
    forall j | 0 <= j < |Sextets(b)| ensures ToChar(Sextets(b)[j]) == STANDARD_TABLE[SixBits(b, j)] {
      SextetsAreSixBits(b, j);
      CharsAreTabled(SixBits(b, j));
    }
  }

  /** The unpadded URL-safe text of any bytes, character by character. */
  lemma UrlEncodeIsTable(b: Bytes)
    ensures |UrlEncode(b)| == (4 * |b| + 2) / 3 && |URL_TABLE| == 64
    ensures forall j :: 0 <= j < |UrlEncode(b)| ==> UrlEncode(b)[j] == URL_TABLE[SixBits(b, j)]
  {
    hide Sextets, SixBits, ToChar, ToUrlChar, UrlEncode;
    SextetsAreSixBits(b, 0);
    UrlEncodeIsChars(b);
    UrlCharsAreTabled(0);
    forall j | 0 <= j < |Sextets(b)| ensures ToUrlChar(ToChar(Sextets(b)[j])) == URL_TABLE[SixBits(b, j)] {
      SextetsAreSixBits(b, j);
      UrlCharsAreTabled(SixBits(b, j));
    }
  }

  // ----- Decoding

  lemma CharIsTabled(c: char)
    ensures |STANDARD_TABLE| == 64
    ensures FromChar(c).Some? <==> exists v: Sextet :: STANDARD_TABLE[v] == c
    ensures FromChar(c).Some? ==> STANDARD_TABLE[FromChar(c).value] == c
  {
    CharsAreTabled(0);
    if FromChar(c).Some? {
      ToFromChar(c);
      CharsAreTabled(FromChar(c).value);
    }
    forall v: Sextet | STANDARD_TABLE[v] == c ensures FromChar(c).Some? {
      CharsAreTabled(v);
      FromToChar(v);
    }
  }

  /** s is the text of the values x with n padding characters. */
  ghost predicate Spells(s: string, x: seq<Sextet>, n: nat)
    requires |STANDARD_TABLE| == 64
  {
    && |s| == |x| + n
    && (forall j :: 0 <= j < |x| ==> s[j] == STANDARD_TABLE[x[j]])
    && forall j :: |x| <= j < |s| ==> s[j] == '='
  }

  /** What is decoded: text of whole groups of four characters, all from the
      table but for at most two padding characters at the end, to the bytes that
      its bits make. */
  lemma DecodesExactly(s: string, x: seq<Sextet>, n: nat)
    ensures |STANDARD_TABLE| == 64
    ensures Decode(s).Some? ==> exists y, k :: Spells(s, y, k) && |s| % 4 == 0 && k <= 2
    ensures Spells(s, x, n) && |s| % 4 == 0 && n <= 2 ==>
      && Decode(s).Some?
      && |Decode(s).value| == 3 * |x| / 4
      && forall i :: 0 <= i < |Decode(s).value| ==> Decode(s).value[i] == EightBits(x, i)
  {
    hide ToChar, FromChar, Octets, EightBits;
    CharsAreTabled(0);
    if Decode(s).Some? {
      var body := StripPads(s);
      forall j | 0 <= j < |body| ensures s[j] == STANDARD_TABLE[Values(body)[j]] {
        CharIsTabled(body[j]);
      }
      assert Spells(s, Values(body), |s| - |body|);
    }
    if Spells(s, x, n) && |s| % 4 == 0 && n <= 2 {
      assert s == Chars(x) + Pads(n) by {
        forall j | 0 <= j < |x| ensures s[j] == ToChar(x[j]) {
          CharsAreTabled(x[j]);
        }
      }
      DecodeChars(x, n);
      forall i | 0 <= i < |Octets(x)| ensures Octets(x)[i] == EightBits(x, i) {
        OctetsAreEightBits(x, i);
      }
      OctetsAreEightBits(x, 0);
    }
  }
}
