/** Strings: white space, case, email addresses, and the alphabetical order. */
module Text {
  import opened Wrappers

  // ----- White space, and the case of ASCII letters

  predicate IsSpace(c: char) {
    var n := c as int;
    || 0x09 <= n <= 0x0d || 0x1c <= n <= 0x20 || n == 0x85 || n == 0xa0 || n == 0x1680 || 0x2000 <= n <= 0x200a
    || n == 0x2028 || n == 0x2029 || n == 0x202f || n == 0x205f || n == 0x3000
  }

  function StripLeft(s: string): string {
    if s != "" && IsSpace(s[0]) then StripLeft(s[1..]) else s
  }

  function StripRight(s: string): string {
    if s != "" && IsSpace(s[|s| - 1]) then StripRight(s[..|s| - 1]) else s
  }

  function Strip(s: string): string {
    StripRight(StripLeft(s))
  }

  function LowerChar(c: char): char {
    if 'A' <= c <= 'Z' then c + ' ' else c
  }

  function UpperChar(c: char): char {
    if 'a' <= c <= 'z' then c - ' ' else c
  }

  function Lower(s: string): (r: string)
    ensures |r| == |s|
  {
    seq(|s|, i requires 0 <= i < |s| => LowerChar(s[i]))
  }

  function Upper(s: string): (r: string)
    ensures |r| == |s|
  {
    seq(|s|, i requires 0 <= i < |s| => UpperChar(s[i]))
  }

  /** Text without outer white space is its own stripped form. */
  lemma StripIsIdentity(s: string)
    requires s != "" ==> !IsSpace(s[0]) && !IsSpace(s[|s| - 1])
    ensures Strip(s) == s
  {
  }

  lemma LowerFixed(s: string)
    ensures Lower(s) == s <==> forall i :: 0 <= i < |s| ==> !('A' <= s[i] <= 'Z')
  {
    if forall i :: 0 <= i < |s| ==> !('A' <= s[i] <= 'Z') {
      assert Lower(s) == s;
    } else {
      var i :| 0 <= i < |s| && 'A' <= s[i] <= 'Z';
      assert Lower(s)[i] != s[i];
    }
  }

  /** White space only. */
  ghost predicate Blank(s: string) {
    forall i :: 0 <= i < |s| ==> IsSpace(s[i])
  }

  lemma {:induction false} StripLeftExactly(s: string)
    ensures
      var r := StripLeft(s);
      && |r| <= |s| && s == s[..|s| - |r|] + r
      && Blank(s[..|s| - |r|]) && (r != "" ==> !IsSpace(r[0]))
  {
    if s != "" && IsSpace(s[0]) {
      StripLeftExactly(s[1..]);
      var n := |s| - |StripLeft(s)|;
      assert s[..n] == [s[0]] + s[1..][..n - 1];
    }
  }

  lemma BlankSnoc(s: string, c: char)
    requires Blank(s) && IsSpace(c)
    ensures Blank(s + [c])
  {
  }

  lemma PrefixOfPrefix(s: string, r: string)
    requires s != "" && |r| < |s| && s[..|s| - 1] == r + s[..|s| - 1][|r|..]
    ensures s == r + s[|r|..] && s[|r|..] == s[..|s| - 1][|r|..] + [s[|s| - 1]]
  {
    assert s == s[..|s| - 1] + [s[|s| - 1]];
  }

  lemma {:induction false} StripRightExactly(s: string)
    ensures
      var r := StripRight(s);
      && |r| <= |s| && s == r + s[|r|..]
      && Blank(s[|r|..]) && (r != "" ==> !IsSpace(r[|r| - 1]))
  {
    hide IsSpace;
    if s != "" && IsSpace(s[|s| - 1]) {
      var init := s[..|s| - 1];
      StripRightExactly(init);
      PrefixOfPrefix(s, StripRight(init));
      BlankSnoc(init[|StripRight(init)|..], s[|s| - 1]);
    }
  }

  lemma {:induction false} StripLeftBlank(left: string, s: string)
    requires Blank(left) && (s != "" ==> !IsSpace(s[0]))
    ensures StripLeft(left + s) == s
  {
    if left == "" {
      assert left + s == s;
    } else {
      StripLeftBlank(left[1..], s);
      assert (left + s)[1..] == left[1..] + s;
    }
  }

  lemma {:induction false} StripRightBlank(s: string, right: string)
    requires Blank(right) && (s != "" ==> !IsSpace(s[|s| - 1]))
    ensures StripRight(s + right) == s
  {
    if right == "" {
      assert s + right == s;
    } else {
      StripRightBlank(s, right[..|right| - 1]);
      assert (s + right)[..|s + right| - 1] == s + right[..|right| - 1];
    }
  }

  /** r is s without outer white space. */
  ghost predicate IsTrimmed(s: string, r: string) {
    && (exists left, right :: s == left + r + right && Blank(left) && Blank(right))
    && (r != "" ==> !IsSpace(r[0]) && !IsSpace(r[|r| - 1]))
  }

  /** Stripping removes exactly the outer white space. */
  lemma StripsExactly(s: string, r: string)
    ensures Strip(s) == r <==> IsTrimmed(s, r)
  {
    hide StripLeft, StripRight, IsSpace;
    StripsToTrimmed(s);
    if IsTrimmed(s, r) {
      var left, right :| s == left + r + right && Blank(left) && Blank(right);
      TrimmedIsStripped(left, r, right);
    }
  }

  lemma StripsToTrimmed(s: string)
    ensures IsTrimmed(s, Strip(s))
  {
    hide StripLeft, StripRight, IsSpace;
    var l := StripLeft(s);
    var r := StripRight(l);
    StripLeftExactly(s);
    StripRightExactly(l);
    var left, right := s[..|s| - |l|], l[|r|..];
    assert s == left + r + right;
    assert r != "" ==> r[0] == l[0];
  }

  lemma TrimmedIsStripped(left: string, r: string, right: string)
    requires Blank(left) && Blank(right) && (r != "" ==> !IsSpace(r[0]) && !IsSpace(r[|r| - 1]))
    ensures Strip(left + r + right) == r
  {
    hide StripLeft, StripRight, IsSpace;
    if r == "" {
      assert left + r + right == (left + right) + "";
      StripLeftBlank(left + right, "");
      StripRightBlank("", "");
      assert "" + "" == "";
    } else {
      assert left + r + right == left + (r + right);
      StripLeftBlank(left, r + right);
      StripRightBlank(r, right);
    }
  }

  /** The characters that count as white space. */
  lemma SpacesExactly(c: char)
    ensures IsSpace(c) <==> c in {
      '\t', '\n', '\U{0b}', '\U{0c}', '\r', '\U{1c}', '\U{1d}', '\U{1e}', '\U{1f}', ' ', '\U{85}', '\U{a0}',
      '\U{1680}', '\U{2000}', '\U{2001}', '\U{2002}', '\U{2003}', '\U{2004}', '\U{2005}', '\U{2006}', '\U{2007}',
      '\U{2008}', '\U{2009}', '\U{200a}', '\U{2028}', '\U{2029}', '\U{202f}', '\U{205f}', '\U{3000}'}
  {
  }

  /** The two cases of a letter have the same place in the alphabet. */
  lemma CasesExactly(c: char)
    ensures
      var upper, lower := "ABCDEFGHIJKLMNOPQRSTUVWXYZ", "abcdefghijklmnopqrstuvwxyz";
      && (forall i :: 0 <= i < 26 ==> LowerChar(upper[i]) == lower[i] && UpperChar(lower[i]) == upper[i])
      && (c !in upper ==> LowerChar(c) == c)
      && (c !in lower ==> UpperChar(c) == c)
  {
    var upper, lower := "ABCDEFGHIJKLMNOPQRSTUVWXYZ", "abcdefghijklmnopqrstuvwxyz";
    forall i | 0 <= i < 26
      ensures upper[i] as int == 65 + i && lower[i] as int == 97 + i
    {
    }
    if 'A' <= c <= 'Z' {
      assert upper[c as int - 65] == c;
    }
    if 'a' <= c <= 'z' {
      assert lower[c as int - 97] == c;
    }
  }

  // ----- Email addresses

  /** One '@' and, after it, a '.' that is neither first nor last; no white space. */
  predicate IsEmail(s: string) {
    exists i, j :: 0 < i && i + 1 < j && j + 1 < |s| && s[i] == '@' && s[j] == '.'
      && (forall k :: 0 <= k < |s| ==> !IsSpace(s[k]) && (s[k] == '@' ==> k == i))
  }

  predicate IsCanonicalEmail(s: string) {
    IsEmail(s) && Lower(s) == s
  }

  function CanonicalEmail(s: string): (r: Option<string>)
  {
    var c := Lower(Strip(s));
    if IsEmail(c) then Some(c) else None
  }

  /** Canonicalizing a canonical address changes nothing. */
  lemma CanonicalEmailFixed(s: string)
    requires IsCanonicalEmail(s)
    ensures CanonicalEmail(s) == Some(s)
  {
    StripIsIdentity(s);
  }

  lemma {:induction false} LowerTwice(s: string)
    ensures Lower(Lower(s)) == Lower(s)
  {
    forall i | 0 <= i < |s| ensures Lower(Lower(s))[i] == Lower(s)[i] {
    }
  }

  lemma CanonicalEmailIsCanonical(s: string)
    ensures CanonicalEmail(s).Some? ==> IsCanonicalEmail(CanonicalEmail(s).value)
  {
    LowerTwice(Strip(s));
  }

  /** A name, '@', two parts with a '.' between, none empty; no white space and
      no other '@'. */
  lemma AddressesExactly(s: string)
    ensures IsEmail(s) <==>
      && (forall i :: 0 <= i < |s| ==> !IsSpace(s[i]))
      && exists name, host, domain :: IsAddressOf(s, name, host, domain)
  {
    hide IsSpace;
    if IsEmail(s) {
      var i, j :| 0 < i && i + 1 < j && j + 1 < |s| && s[i] == '@' && s[j] == '.'
        && (forall k :: 0 <= k < |s| ==> !IsSpace(s[k]) && (s[k] == '@' ==> k == i));
      assert IsAddressOf(s, s[..i], s[i + 1..j], s[j + 1..]);
    }
    if (forall i :: 0 <= i < |s| ==> !IsSpace(s[i]))
       && exists name, host, domain :: IsAddressOf(s, name, host, domain)
    {
      var name, host, domain :| IsAddressOf(s, name, host, domain);
      var i, j := |name|, |name| + 1 + |host|;
      forall k | 0 <= k < |s| && s[k] == '@' ensures k == i {
        OneAt(s, name, host, domain, k);
      }
      assert s[i] == '@' && s[j] == '.';
    }
  }

  lemma OneAt(s: string, name: string, host: string, domain: string, k: nat)
    requires IsAddressOf(s, name, host, domain) && k < |s|
    ensures s[k] == '@' <==> k == |name|
  {
    var j := |name| + 1 + |host|;
    if k < |name| {
      assert s[k] == name[k] && name[k] in name;
    } else if |name| < k < j {
      assert s[k] == host[k - |name| - 1] && host[k - |name| - 1] in host;
    } else if k > j {
      assert s[k] == domain[k - j - 1] && domain[k - j - 1] in domain;
    }
  }

  ghost predicate IsAddressOf(s: string, name: string, host: string, domain: string) {
    && s == name + "@" + host + "." + domain
    && name != "" && host != "" && domain != ""
    && '@' !in name && '@' !in host && '@' !in domain
  }

  lemma LowerKeepsMarks(c: char)
    ensures (LowerChar(c) == '@' <==> c == '@') && (LowerChar(c) == '.' <==> c == '.')
    ensures IsSpace(LowerChar(c)) <==> IsSpace(c)
  {
  }

  lemma LowerIsEmail(s: string)
    ensures IsEmail(Lower(s)) <==> IsEmail(s)
  {
    hide IsSpace, LowerChar;
    forall i | 0 <= i < |s|
      ensures (Lower(s)[i] == '@' <==> s[i] == '@') && (Lower(s)[i] == '.' <==> s[i] == '.')
      ensures IsSpace(Lower(s)[i]) <==> IsSpace(s[i])
    {
      LowerKeepsMarks(s[i]);
    }
    if IsEmail(s) {
      var i, j :| 0 < i && i + 1 < j && j + 1 < |s| && s[i] == '@' && s[j] == '.'
        && (forall k :: 0 <= k < |s| ==> !IsSpace(s[k]) && (s[k] == '@' ==> k == i));
      assert Lower(s)[i] == '@' && Lower(s)[j] == '.';
    }
    if IsEmail(Lower(s)) {
      var t := Lower(s);
      var i, j :| 0 < i && i + 1 < j && j + 1 < |t| && t[i] == '@' && t[j] == '.'
        && (forall k :: 0 <= k < |t| ==> !IsSpace(t[k]) && (t[k] == '@' ==> k == i));
      assert s[i] == '@' && s[j] == '.';
    }
  }

  /** An address is accepted with white space around it and in any case, and
      stands for itself without them. */
  lemma CanonicalizesExactly(left: string, s: string, right: string)
    requires Blank(left) && Blank(right) && (s != "" ==> !IsSpace(s[0]) && !IsSpace(s[|s| - 1]))
    ensures CanonicalEmail(left + s + right) == if IsEmail(s) then Some(Lower(s)) else None
  {
    hide Strip, IsEmail;
    TrimmedIsStripped(left, s, right);
    LowerIsEmail(s);
  }

  // ----- Alphabetical order

  predicate Less(a: string, b: string) {
    b != "" && (a == "" || a[0] < b[0] || (a[0] == b[0] && Less(a[1..], b[1..])))
  }

  /** The first character in which two texts differ decides; a text comes after its
      own beginning. */
  lemma {:induction false} LessExactly(a: string, b: string)
    ensures Less(a, b) <==> exists i :: Precedes(a, b, i)
  {
    if b != "" && a != "" && a[0] == b[0] {
      LessExactly(a[1..], b[1..]);
      if i :| Precedes(a[1..], b[1..], i) {
        assert forall k :: 0 <= k <= i && k < |a[1..]| ==> a[1..][k] == a[k + 1] && b[1..][k] == b[k + 1];
        assert Precedes(a, b, i + 1);
      }
      if i :| Precedes(a, b, i) {
        assert Precedes(a[1..], b[1..], i - 1);
      }
    } else if b != "" && (a == "" || a[0] < b[0]) {
      assert Precedes(a, b, 0);
    }
  }

  /** Equal before position i, and there a ends or has the smaller character. */
  ghost predicate Precedes(a: string, b: string, i: int) {
    && 0 <= i <= |a| && i < |b|
    && (forall k :: 0 <= k < i ==> a[k] == b[k])
    && (i < |a| ==> a[i] < b[i])
  }

  lemma {:induction false} LessTransitive(a: string, b: string, c: string)
    requires Less(a, b) && Less(b, c)
    ensures Less(a, c)
  {
    if a != "" && a[0] == b[0] == c[0] {
      LessTransitive(a[1..], b[1..], c[1..]);
    }
  }

  lemma {:induction false} LessIrreflexive(a: string)
    ensures !Less(a, a)
  {
    if a != "" {
      LessIrreflexive(a[1..]);
    }
  }

  lemma {:induction false} LessTotal(a: string, b: string)
    ensures Less(a, b) || a == b || Less(b, a)
  {
    if a != "" && b != "" && a[0] == b[0] {
      LessTotal(a[1..], b[1..]);
      if a[1..] == b[1..] {
        assert a == [a[0]] + a[1..] && b == [b[0]] + b[1..];
      }
    }
  }

  // ----- Sorted lists without duplicates

  ghost predicate Ascending(xs: seq<string>) {
    forall i, j :: 0 <= i < j < |xs| ==> Less(xs[i], xs[j])
  }

  function InsertUnique(xs: seq<string>, x: string): seq<string> {
    if xs == [] then [x]
    else if Less(x, xs[0]) then [x] + xs
    else if x == xs[0] then xs
    else [xs[0]] + InsertUnique(xs[1..], x)
  }

  /** The elements of xs in ascending order, each once. */
  function SortUnique(xs: seq<string>): seq<string> {
    if xs == [] then [] else InsertUnique(SortUnique(xs[..|xs| - 1]), xs[|xs| - 1])
  }

  lemma {:induction false} InsertUniqueElements(xs: seq<string>, x: string, y: string)
    ensures y in InsertUnique(xs, x) <==> y in xs || y == x
  {
    if xs != [] && !Less(x, xs[0]) && x != xs[0] {
      InsertUniqueElements(xs[1..], x, y);
      assert xs == [xs[0]] + xs[1..];
    }
  }

  lemma PrependAscending(x: string, xs: seq<string>)
    requires Ascending(xs) && forall y :: y in xs ==> Less(x, y)
    ensures Ascending([x] + xs)
  {
  }

  lemma {:induction false} InsertUniqueAscending(xs: seq<string>, x: string)
    requires Ascending(xs)
    ensures Ascending(InsertUnique(xs, x))
  {
    if xs != [] {
      if Less(x, xs[0]) {
        forall y | y in xs ensures Less(x, y) {
          if y != xs[0] {
            LessTransitive(x, xs[0], y);
          }
        }
        PrependAscending(x, xs);
      } else if x != xs[0] {
        LessTotal(x, xs[0]);
        InsertUniqueAscending(xs[1..], x);
        forall y | y in InsertUnique(xs[1..], x) ensures Less(xs[0], y) {
          InsertUniqueElements(xs[1..], x, y);
        }
        PrependAscending(xs[0], InsertUnique(xs[1..], x));
      }
    }
  }

  lemma {:induction false} SortUniqueElements(xs: seq<string>, y: string)
    ensures y in SortUnique(xs) <==> y in xs
  {
    if xs != [] {
      var init, last := xs[..|xs| - 1], xs[|xs| - 1];
      SortUniqueElements(init, y);
      InsertUniqueElements(SortUnique(init), last, y);
      assert xs == init + [last];
    }
  }

  lemma {:induction false} SortUniqueAscending(xs: seq<string>)
    ensures Ascending(SortUnique(xs))
  {
    if xs != [] {
      SortUniqueAscending(xs[..|xs| - 1]);
      InsertUniqueAscending(SortUnique(xs[..|xs| - 1]), xs[|xs| - 1]);
    }
  }

  lemma AscendingTail(xs: seq<string>, x: string)
    requires Ascending(xs) && xs != []
    ensures x in xs[1..] <==> x in xs && x != xs[0]
  {
    LessIrreflexive(xs[0]);
    assert xs == [xs[0]] + xs[1..];
  }

  /** An ascending list is determined by its elements. */
  lemma {:induction false} AscendingIsCanonical(xs: seq<string>, ys: seq<string>)
    requires Ascending(xs) && Ascending(ys)
    requires forall x :: x in xs <==> x in ys
    ensures xs == ys
  {
    assert ys != [] ==> ys[0] in xs;
    if xs != [] {
      assert xs[0] in ys;
      if xs[0] != ys[0] {
        LessTransitive(xs[0], ys[0], xs[0]);
        LessIrreflexive(xs[0]);
      }
      forall x ensures x in xs[1..] <==> x in ys[1..] {
        AscendingTail(xs, x);
        AscendingTail(ys, x);
      }
      AscendingIsCanonical(xs[1..], ys[1..]);
      assert xs == [xs[0]] + xs[1..] && ys == [ys[0]] + ys[1..];
    }
  }

  /** Sorting an ascending list changes nothing. */
  lemma SortUniqueFixed(xs: seq<string>)
    ensures SortUnique(xs) == xs <==> Ascending(xs)
  {
    SortUniqueAscending(xs);
    if Ascending(xs) {
      forall y ensures y in SortUnique(xs) <==> y in xs {
        SortUniqueElements(xs, y);
      }
      AscendingIsCanonical(SortUnique(xs), xs);
    }
  }
}
