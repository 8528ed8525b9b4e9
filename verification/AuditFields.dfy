/** Which event fields make an audit entry's text contain a line break. */
module AuditFields {
  import opened Wrappers
  import opened Text
  import opened Decimal
  import opened CanonicalJson
  import opened Audit

  /** The line breaks that JSON leaves unescaped: U+0085, U+2028 and U+2029. */
  predicate IsUnescapedBreak(c: char) {
    c as int in {0x85, 0x2028, 0x2029}
  }

  predicate TextBreaks(s: string) {
    exists i :: 0 <= i < |s| && IsUnescapedBreak(s[i])
  }

  /** Some key or some text in the value holds such a character. */
  predicate Breaks(j: Json) {
    match j
    case JString(text) => TextBreaks(text)
    case JArray(elements) => exists i :: 0 <= i < |elements| && Breaks(elements[i])
    case JObject(fields) => exists k :: k in fields && (TextBreaks(k) || Breaks(fields[k]))
    case _ => false
  }

  // ----- Breaks in printed text

  lemma BreakJoin(a: string, b: string)
    ensures HasLineBreak(a + b) <==> HasLineBreak(a) || HasLineBreak(b)
  {
    hide IsLineBreak;
    if i :| 0 <= i < |a| && IsLineBreak(a[i]) {
      assert (a + b)[i] == a[i];
    }
    if i :| 0 <= i < |b| && IsLineBreak(b[i]) {
      assert (a + b)[|a| + i] == b[i];
    }
  }

  lemma PlainText(s: string)
    requires forall i :: 0 <= i < |s| ==> ' ' <= s[i] <= '~'
    ensures !HasLineBreak(s) && !TextBreaks(s)
  {
  }

  lemma HexIsPlain(n: int)
    requires 0 <= n < 16
    ensures ' ' <= HexDigit(n) <= '~'
  {
  }

  lemma EscapeBreaks(c: char)
    ensures HasLineBreak(Escape(c)) <==> IsUnescapedBreak(c)
  {
    if c as int < 0x20 {
      HexIsPlain(c as int / 16);
      HexIsPlain(c as int % 16);
      PlainText(Escape(c));
    } else if c == '"' || c == '\\' {
      PlainText(Escape(c));
    } else {
      assert Escape(c) == [c] && [c][0] == c;
    }
  }

  lemma {:induction false} EscapeAllBreaks(s: string)
    ensures HasLineBreak(EscapeAll(s)) <==> TextBreaks(s)
  {
    hide HasLineBreak, IsUnescapedBreak, Escape;
    if s == "" {
      PlainText(EscapeAll(s));
    } else {
      EscapeBreaks(s[0]);
      EscapeAllBreaks(s[1..]);
      BreakJoin(Escape(s[0]), EscapeAll(s[1..]));
      assert TextBreaks(s) <==> IsUnescapedBreak(s[0]) || TextBreaks(s[1..]) by {
        if i :| 0 <= i < |s| && IsUnescapedBreak(s[i]) && i > 0 {
          assert s[1..][i - 1] == s[i];
        }
        if i :| 0 <= i < |s[1..]| && IsUnescapedBreak(s[1..][i]) {
          assert s[i + 1] == s[1..][i];
        }
      }
    }
  }

  lemma QuoteBreaks(s: string)
    ensures HasLineBreak(Quote(s)) <==> TextBreaks(s)
  {
    hide HasLineBreak, TextBreaks;
    EscapeAllBreaks(s);
    PlainText("\"");
    BreakJoin("\"", EscapeAll(s));
    BreakJoin("\"" + EscapeAll(s), "\"");
  }

  lemma IntIsPlain(n: int)
    ensures !HasLineBreak(PrintInt(n))
  {
    ParsePrint(if n < 0 then -n else n);
    PlainText(PrintInt(n));
  }

  lemma FrameBreaks(first: string, middle: string, last: string)
    requires !HasLineBreak(first) && !HasLineBreak(last)
    ensures HasLineBreak(first + middle + last) <==> HasLineBreak(middle)
  {
    BreakJoin(first, middle);
    BreakJoin(first + middle, last);
  }

  /** Printed JSON has a line break exactly when the value holds one of the three
      characters. */
  lemma {:induction false} PrintBreaks(j: Json)
    ensures HasLineBreak(Print(j)) <==> Breaks(j)
    decreases j, 1, 0
  {
    hide HasLineBreak, TextBreaks, Quote, PrintInt;
    match j {
      case JNull => PlainText(Print(j));
      case JBool(_) => PlainText(Print(j));
      case JInt(number) => IntIsPlain(number);
      case JString(text) => QuoteBreaks(text);
      case JArray(elements) =>
        ItemsBreak(j, 0);
        PlainText("[");
        PlainText("]");
        FrameBreaks("[", PrintItems(j, 0), "]");
      case JObject(fields) =>
        var keys := SortedKeys(fields.Keys);
        MembersBreak(j, keys, 0);
        PlainText("{");
        PlainText("}");
        FrameBreaks("{", PrintMembers(j, keys, 0), "}");
        assert forall k :: k in keys <==> k in fields;
        assert keys[0..] == keys;
    }
  }

  lemma CommaIsPlain(i: nat)
    ensures !HasLineBreak(Comma(i))
  {
    PlainText(Comma(i));
  }

  lemma {:induction false} ItemsBreak(j: Json, i: nat)
    requires j.JArray? && i <= |j.elements|
    ensures HasLineBreak(PrintItems(j, i)) <==> exists m :: i <= m < |j.elements| && Breaks(j.elements[m])
    decreases j, 0, |j.elements| - i
  {
    hide HasLineBreak, Breaks, Print;
    if i == |j.elements| {
      PlainText("");
    } else {
      PrintBreaks(j.elements[i]);
      ItemsBreak(j, i + 1);
      CommaIsPlain(i);
      BreakJoin(Print(j.elements[i]), PrintItems(j, i + 1));
      BreakJoin(Comma(i), Print(j.elements[i]) + PrintItems(j, i + 1));
    }
  }

  lemma {:induction false} MembersBreak(j: Json, keys: seq<string>, i: nat)
    requires j.JObject? && i <= |keys| && forall k :: k in keys ==> k in j.fields
    ensures HasLineBreak(PrintMembers(j, keys, i)) <==>
      exists k :: k in keys[i..] && (TextBreaks(k) || Breaks(j.fields[k]))
    decreases j, 0, |keys| - i
  {
    hide HasLineBreak, TextBreaks, Breaks, Print, Quote;
    if i == |keys| {
      PlainText("");
    } else {
      var value, rest := Print(j.fields[keys[i]]), PrintMembers(j, keys, i + 1);
      QuoteBreaks(keys[i]);
      PrintBreaks(j.fields[keys[i]]);
      MembersBreak(j, keys, i + 1);
      CommaIsPlain(i);
      PlainText(":");
      BreakJoin(value, rest);
      BreakJoin(":", value + rest);
      BreakJoin(Quote(keys[i]), ":" + (value + rest));
      BreakJoin(Comma(i), Quote(keys[i]) + (":" + (value + rest)));
      assert keys[i..] == [keys[i]] + keys[i + 1..];
    }
  }

  /** The text of an entry ends with a brace. */
  lemma SerializedEnds(e: Entry)
    ensures Serialize(e) != "" && Serialize(e)[|Serialize(e)| - 1] == '}'
  {
    hide PrintMembers;
  }

  // ----- The entry that append makes

  /** The characters of a UTC time in ISO form. */
  predicate IsTimestamp(s: string) {
    s != "" && forall i :: 0 <= i < |s| ==> '0' <= s[i] <= '9' || s[i] in "-:.TZ"
  }

  lemma HashIsPlain(s: string)
    requires IsHash(s)
    ensures !TextBreaks(s)
  {
    PlainText(s);
  }

  lemma ReservedArePlain()
    ensures !TextBreaks(SEQUENCE) && !TextBreaks(TIMESTAMP) && !TextBreaks(PREVIOUS_HASH) && !TextBreaks(ENTRY_HASH)
  {
    PlainText(SEQUENCE);
    PlainText(TIMESTAMP);
    PlainText(PREVIOUS_HASH);
    PlainText(ENTRY_HASH);
  }

  /** The entry's text has a line break exactly when the event fields hold one of
      the three characters: a condition on what the caller passes. */
  lemma EntryBreaks(lib: Library, es: seq<Entry>, fields: Entry, timestamp: string)
    requires lib.Sound() && ValidEvent(fields) && IsTimestamp(timestamp) && IsHash(HeadHash(es))
    ensures HasLineBreak(Serialize(NewEntry(lib, es, fields, timestamp))) <==> Breaks(JObject(fields))
  {
    hide TextBreaks, HasLineBreak, Print, HasText, HeadHash;
    var e := NewEntry(lib, es, fields, timestamp);
    PrintBreaks(JObject(e));
    ReservedArePlain();
    PlainText(timestamp);
    HashIsPlain(HeadHash(es));
    assert IsHash(e[ENTRY_HASH].text);
    HashIsPlain(e[ENTRY_HASH].text);
    assert forall k :: k in fields ==> k in e && e[k] == fields[k];
    assert forall k :: k in e && k !in fields ==> k in {SEQUENCE, TIMESTAMP, PREVIOUS_HASH, ENTRY_HASH};
  }
}
