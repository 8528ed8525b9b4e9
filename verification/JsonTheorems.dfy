/** Canonical JSON text determines its value, and no text of a value is the start
    of the text of another. */
module JsonTheorems {
  import opened Text
  import opened Decimal
  import opened CanonicalJson

  /** What may follow a number without becoming part of it. */
  predicate EndsNumber(rest: string) {
    rest == "" || !('0' <= rest[0] <= '9')
  }

  lemma CancelChar(c: char, a: string, b: string)
    requires [c] + a == [c] + b
    ensures a == b
  {
    assert ([c] + a)[1..] == a && ([c] + b)[1..] == b;
  }

  // ----- Texts

  /** The two characters of an escape, or the character that stands for itself. */
  lemma EscapeShape(c: char)
    ensures Escape(c)[0] == '\\' ==> |Escape(c)| == 2 || |Escape(c)| == 6
    ensures Escape(c)[0] == '\\' && |Escape(c)| == 6 ==> Escape(c)[1] == 'u'
    ensures Escape(c)[0] == '\\' && |Escape(c)| == 2 ==> Escape(c)[1] in "\"\\nrtbf"
    ensures Escape(c)[0] != '\\' ==> Escape(c) == [c] && c != '"'
    ensures Escape(c)[0] != '"'
  {
  }

  lemma HexIsInjective(n: int, m: int)
    requires 0 <= n < 16 && 0 <= m < 16 && HexDigit(n) == HexDigit(m)
    ensures n == m
  {
  }

  lemma EscapeIsInjective(c: char, d: char)
    requires Escape(c) == Escape(d)
    ensures c == d
  {
    if |Escape(c)| == 6 {
      assert Escape(c)[4] == HexDigit(c as int / 16) && Escape(c)[5] == HexDigit(c as int % 16);
      assert Escape(d)[4] == HexDigit(d as int / 16) && Escape(d)[5] == HexDigit(d as int % 16);
      HexIsInjective(c as int / 16, d as int / 16);
      HexIsInjective(c as int % 16, d as int % 16);
    }
  }

  lemma EscapeUnique(c: char, d: char, a: string, b: string)
    requires Escape(c) + a == Escape(d) + b
    ensures c == d && a == b
  {
    hide Escape;
    EscapeShape(c);
    EscapeShape(d);
    var s := Escape(c) + a;
    assert s[0] == Escape(c)[0] == Escape(d)[0];
    if s[0] == '\\' {
      assert s[1] == Escape(c)[1] == Escape(d)[1];
    }
    assert |Escape(c)| == |Escape(d)|;
    var n := |Escape(c)|;
    assert s[..n] == Escape(c) && s[n..] == a && s[..n] == Escape(d) && s[n..] == b;
    EscapeIsInjective(c, d);
  }

  lemma EscapeAllStep(s: string)
    requires s != ""
    ensures EscapeAll(s) == Escape(s[0]) + EscapeAll(s[1..])
  {
  }

  /** A quotation mark is never the start of an escaped character. */
  lemma EscapedStart(s: string, a: string)
    ensures
      var text := EscapeAll(s) + ("\"" + a);
      && text != "" && (text[0] == '"' <==> s == "")
      && text == if s == "" then ['"'] + a else Escape(s[0]) + (EscapeAll(s[1..]) + ("\"" + a))
  {
    hide Escape, EscapeAll;
    if s == "" {
      assert EscapeAll(s) == "" by { EscapeNothing(); }
    } else {
      EscapeShape(s[0]);
      EscapeAllStep(s);
    }
  }

  lemma EscapeNothing()
    ensures EscapeAll("") == ""
  {
  }

  lemma {:induction false} EscapedUnique(s: string, t: string, a: string, b: string)
    requires EscapeAll(s) + ("\"" + a) == EscapeAll(t) + ("\"" + b)
    ensures s == t && a == b
  {
    hide Escape, EscapeAll;
    EscapedStart(s, a);
    EscapedStart(t, b);
    if s == "" {
      CancelChar('"', a, b);
    } else {
      EscapeUnique(s[0], t[0], EscapeAll(s[1..]) + ("\"" + a), EscapeAll(t[1..]) + ("\"" + b));
      EscapedUnique(s[1..], t[1..], a, b);
      assert s == [s[0]] + s[1..] && t == [t[0]] + t[1..];
    }
  }

  lemma QuoteUnique(s: string, t: string, a: string, b: string)
    requires Quote(s) + a == Quote(t) + b
    ensures s == t && a == b
  {
    var more, others := EscapeAll(s) + ("\"" + a), EscapeAll(t) + ("\"" + b);
    assert Quote(s) + a == ['"'] + more;
    assert Quote(t) + b == ['"'] + others;
    CancelChar('"', more, others);
    EscapedUnique(s, t, a, b);
  }

  // ----- Numbers

  lemma LongerTakesNext(s: string, t: string, a: string, b: string)
    requires s + a == t + b && |s| < |t|
    ensures a != "" && a[0] == t[|s|]
  {
    assert (s + a)[|s|] == (t + b)[|s|];
  }

  lemma DigitsUnique(s: string, t: string, a: string, b: string)
    requires AllDigits(s) && AllDigits(t) && EndsNumber(a) && EndsNumber(b)
    requires s + a == t + b
    ensures s == t && a == b
  {
    if |s| < |t| {
      LongerTakesNext(s, t, a, b);
    } else if |t| < |s| {
      LongerTakesNext(t, s, b, a);
    } else {
      assert (s + a)[..|s|] == s && (t + b)[..|s|] == t;
      CancelPrefix(s, a, b);
    }
  }

  lemma NatUnique(n: nat, m: nat, a: string, b: string)
    requires EndsNumber(a) && EndsNumber(b) && PrintNat(n) + a == PrintNat(m) + b
    ensures n == m && a == b
  {
    ParsePrint(n);
    ParsePrint(m);
    DigitsUnique(PrintNat(n), PrintNat(m), a, b);
  }

  lemma IntStarts(n: int)
    ensures PrintInt(n) != "" && (PrintInt(n)[0] == '-' <==> n < 0)
    ensures n >= 0 ==> '0' <= PrintInt(n)[0] <= '9'
  {
    hide PrintNat;
    ParsePrint(if n < 0 then -n else n);
  }

  lemma IntUnique(n: int, m: int, a: string, b: string)
    requires EndsNumber(a) && EndsNumber(b) && PrintInt(n) + a == PrintInt(m) + b
    ensures n == m && a == b
  {
    hide PrintNat, EndsNumber;
    IntStarts(n);
    IntStarts(m);
    assert (PrintInt(n) + a)[0] == PrintInt(n)[0] && (PrintInt(m) + b)[0] == PrintInt(m)[0];
    if n < 0 {
      assert PrintInt(n) + a == ['-'] + (PrintNat(-n) + a);
      assert PrintInt(m) + b == ['-'] + (PrintNat(-m) + b);
      CancelChar('-', PrintNat(-n) + a, PrintNat(-m) + b);
      NatUnique(-n, -m, a, b);
    } else {
      NatUnique(n, m, a, b);
    }
  }

  // ----- Values

  /** The first character of the text tells the kind of value. */
  function Kind(j: Json): char {
    match j
    case JNull => 'n'
    case JBool(flag) => if flag then 't' else 'f'
    case JInt(number) => if number < 0 then '-' else '0'
    case JString(_) => '"'
    case JArray(_) => '['
    case JObject(_) => '{'
  }

  lemma PrintStarts(j: Json)
    ensures Print(j) != ""
    ensures
      var c := Print(j)[0];
      if j.JInt? && j.number >= 0 then '0' <= c <= '9' else c == Kind(j)
  {
    hide PrintItems, PrintMembers, EscapeAll, PrintInt;
    if j.JInt? {
      IntStarts(j.number);
    }
  }

  lemma SameKind(j: Json, k: Json, a: string, b: string)
    requires Print(j) + a == Print(k) + b
    ensures Kind(j) == Kind(k) || (j.JInt? && k.JInt?)
  {
    hide Print;
    PrintStarts(j);
    PrintStarts(k);
    assert (Print(j) + a)[0] == Print(j)[0] && (Print(k) + b)[0] == Print(k)[0];
  }

  lemma CancelPrefix(p: string, a: string, b: string)
    requires p + a == p + b
    ensures a == b
  {
    assert (p + a)[|p|..] == a && (p + b)[|p|..] == b;
  }

  /** Text of a value, followed by anything that is not a digit, is read in one
      way only. */
  lemma {:induction false} PrintUnique(j: Json, k: Json, a: string, b: string)
    requires Print(j) + a == Print(k) + b && EndsNumber(a) && EndsNumber(b)
    ensures j == k && a == b
    decreases j, 1, 0
  {
    hide Quote, PrintInt, PrintItems, PrintMembers, SortedKeys;
    SameKind(j, k, a, b);
    match j {
      case JNull => CancelPrefix("null", a, b);
      case JBool(flag) => CancelPrefix(Print(j), a, b);
      case JInt(number) => IntUnique(number, k.number, a, b);
      case JString(text) => QuoteUnique(text, k.text, a, b);
      case JArray(elements) =>
        var more, others := PrintItems(j, 0) + ("]" + a), PrintItems(k, 0) + ("]" + b);
        assert Print(j) + a == ['['] + more && Print(k) + b == ['['] + others;
        CancelChar('[', more, others);
        ItemsUnique(j, k, 0, a, b);
      case JObject(fields) =>
        var keys, otherKeys := SortedKeys(fields.Keys), SortedKeys(k.fields.Keys);
        var more, others := PrintMembers(j, keys, 0) + ("}" + a), PrintMembers(k, otherKeys, 0) + ("}" + b);
        assert Print(j) + a == ['{'] + more && Print(k) + b == ['{'] + others;
        CancelChar('{', more, others);
        MembersUnique(j, k, keys, otherKeys, 0, a, b);
        SameMembers(fields, k.fields, keys);
    }
  }

  lemma SameMembers(f: map<string, Json>, g: map<string, Json>, keys: seq<string>)
    requires forall k :: k in keys <==> k in f.Keys
    requires forall k :: k in keys <==> k in g.Keys
    requires forall k :: k in keys ==> f[k] == g[k]
    ensures f == g
  {
  }

  /** What follows an element or a member starts with a comma or the bracket. */
  lemma ItemsStart(j: Json, i: nat, a: string)
    requires j.JArray? && i <= |j.elements|
    ensures i > 0 ==> EndsNumber(PrintItems(j, i) + ("]" + a))
    ensures
      var text := PrintItems(j, i) + ("]" + a);
      text != "" && (i == |j.elements| ==> text[0] == ']') && (i < |j.elements| ==> text[0] != ']')
  {
    hide Print;
    if i < |j.elements| {
      PrintStarts(j.elements[i]);
    }
  }

  lemma {:induction false} ItemsUnique(j: Json, k: Json, i: nat, a: string, b: string)
    requires j.JArray? && k.JArray? && i <= |j.elements| && i <= |k.elements|
    requires j.elements[..i] == k.elements[..i]
    requires PrintItems(j, i) + ("]" + a) == PrintItems(k, i) + ("]" + b)
    ensures j == k && a == b
    decreases j, 0, |j.elements| - i
  {
    hide Print, EndsNumber;
    ItemsStart(j, i, a);
    ItemsStart(k, i, b);
    if i == |j.elements| {
      assert PrintItems(j, i) + ("]" + a) == [']'] + a && PrintItems(k, i) + ("]" + b) == [']'] + b;
      CancelChar(']', a, b);
    } else {
      var more, others := PrintItems(j, i + 1) + ("]" + a), PrintItems(k, i + 1) + ("]" + b);
      assert PrintItems(j, i) + ("]" + a) == Comma(i) + (Print(j.elements[i]) + more);
      assert PrintItems(k, i) + ("]" + b) == Comma(i) + (Print(k.elements[i]) + others);
      CancelPrefix(Comma(i), Print(j.elements[i]) + more, Print(k.elements[i]) + others);
      ItemsStart(j, i + 1, a);
      ItemsStart(k, i + 1, b);
      PrintUnique(j.elements[i], k.elements[i], more, others);
      assert j.elements[..i + 1] == j.elements[..i] + [j.elements[i]];
      assert k.elements[..i + 1] == k.elements[..i] + [k.elements[i]];
      ItemsUnique(j, k, i + 1, a, b);
    }
  }

  ghost predicate IsKeyList(j: Json, keys: seq<string>) {
    j.JObject? && forall k :: k in keys ==> k in j.fields
  }

  lemma MembersStart(j: Json, keys: seq<string>, i: nat, a: string)
    requires IsKeyList(j, keys) && i <= |keys|
    ensures i > 0 ==> EndsNumber(PrintMembers(j, keys, i) + ("}" + a))
    ensures
      var text := PrintMembers(j, keys, i) + ("}" + a);
      text != "" && (i == |keys| ==> text[0] == '}') && (i < |keys| ==> text[0] != '}')
  {
    hide Print, EscapeAll;
  }

  lemma {:induction false} MembersUnique(
    j: Json, k: Json, keys: seq<string>, otherKeys: seq<string>, i: nat, a: string, b: string)
    requires IsKeyList(j, keys) && IsKeyList(k, otherKeys) && i <= |keys| && i <= |otherKeys|
    requires keys[..i] == otherKeys[..i]
    requires forall m :: 0 <= m < i ==> j.fields[keys[m]] == k.fields[otherKeys[m]]
    requires PrintMembers(j, keys, i) + ("}" + a) == PrintMembers(k, otherKeys, i) + ("}" + b)
    ensures keys == otherKeys && (forall x :: x in keys ==> j.fields[x] == k.fields[x]) && a == b
    decreases j, 0, |keys| - i
  {
    hide Print, Quote, EndsNumber;
    MembersStart(j, keys, i, a);
    MembersStart(k, otherKeys, i, b);
    if i == |keys| {
      assert PrintMembers(j, keys, i) + ("}" + a) == ['}'] + a;
      assert PrintMembers(k, otherKeys, i) + ("}" + b) == ['}'] + b;
      CancelChar('}', a, b);
    } else {
      var more, others := PrintMembers(j, keys, i + 1) + ("}" + a), PrintMembers(k, otherKeys, i + 1) + ("}" + b);
      var v, w := j.fields[keys[i]], k.fields[otherKeys[i]];
      MemberParts(j, keys, i, a);
      MemberParts(k, otherKeys, i, b);
      CancelPrefix(
        Comma(i), Quote(keys[i]) + (":" + (Print(v) + more)), Quote(otherKeys[i]) + (":" + (Print(w) + others)));
      QuoteUnique(keys[i], otherKeys[i], ":" + (Print(v) + more), ":" + (Print(w) + others));
      CancelPrefix(":", Print(v) + more, Print(w) + others);
      MembersStart(j, keys, i + 1, a);
      MembersStart(k, otherKeys, i + 1, b);
      PrintUnique(v, w, more, others);
      assert keys[..i + 1] == keys[..i] + [keys[i]] && otherKeys[..i + 1] == otherKeys[..i] + [otherKeys[i]];
      MembersUnique(j, k, keys, otherKeys, i + 1, a, b);
    }
  }

  lemma MemberParts(j: Json, keys: seq<string>, i: nat, a: string)
    requires IsKeyList(j, keys) && i < |keys|
    ensures
      var rest := PrintMembers(j, keys, i + 1) + ("}" + a);
      PrintMembers(j, keys, i) + ("}" + a)
        == Comma(i) + (Quote(keys[i]) + (":" + (Print(j.fields[keys[i]]) + rest)))
  {
    hide Print, Quote;
  }
}
