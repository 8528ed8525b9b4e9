/** Exactly what the audit log writes, accepts and reads, with the fields named and
    the JSON text spelled out. */
module AuditOutcomes {
  import opened Wrappers
  import opened Decimal
  import opened CanonicalJson
  import opened Audit
  import opened AuditAppend
  import opened AuditTheorems
  import Text

  // ----- JSON text

  /** Texts with commas between them. */
  function Joined(texts: seq<string>): string {
    if texts == [] then "" else (if |texts| == 1 then "" else Joined(texts[..|texts| - 1]) + ",") + texts[|texts| - 1]
  }

  lemma JoinFirst(text: string, texts: seq<string>)
    requires texts != []
    ensures Joined([text] + texts) == text + "," + Joined(texts)
  {
    var all := [text] + texts;
    var n := |texts| - 1;
    assert all[..|all| - 1] == [text] + texts[..n] && all[|all| - 1] == texts[n];
    if n == 0 {
      assert Joined([text]) == "" + text == text;
      assert texts[..0] == [] && Joined(texts) == "" + texts[0];
    } else {
      JoinFirst(text, texts[..n]);
    }
  }

  lemma JoinOne(text: string)
    ensures Joined([text]) == text
  {
  }

  function Member(j: Json, key: string): string
    requires j.JObject? && key in j.fields
  {
    Quote(key) + ":" + Print(j.fields[key])
  }

  function ItemTexts(j: Json, i: nat): (r: seq<string>)
    requires j.JArray? && i <= |j.elements|
    ensures |r| == |j.elements| - i
  {
    seq(|j.elements| - i, k requires 0 <= k < |j.elements| - i => Print(j.elements[i + k]))
  }

  function MemberTexts(j: Json, keys: seq<string>, i: nat): (r: seq<string>)
    requires j.JObject? && i <= |keys| && forall k :: k in keys ==> k in j.fields
    ensures |r| == |keys| - i
  {
    seq(|keys| - i, k requires 0 <= k < |keys| - i => Member(j, keys[i + k]))
  }

  lemma {:induction false} ItemsJoin(j: Json, i: nat)
    requires j.JArray? && i < |j.elements|
    ensures PrintItems(j, i) == Comma(i) + Joined(ItemTexts(j, i))
    decreases |j.elements| - i
  {
    hide Print;
    var first := Print(j.elements[i]);
    if i + 1 == |j.elements| {
      JoinOne(first);
      assert ItemTexts(j, i) == [first];
      assert PrintItems(j, i + 1) == "";
    } else {
      ItemsJoin(j, i + 1);
      JoinFirst(first, ItemTexts(j, i + 1));
      assert ItemTexts(j, i) == [first] + ItemTexts(j, i + 1);
      assert Comma(i + 1) == ",";
    }
  }

  lemma MemberThenRest(j: Json, keys: seq<string>, i: nat)
    requires j.JObject? && i < |keys| && forall k :: k in keys ==> k in j.fields
    ensures PrintMembers(j, keys, i) == Comma(i) + (Member(j, keys[i]) + PrintMembers(j, keys, i + 1))
    ensures MemberTexts(j, keys, i) == [Member(j, keys[i])] + MemberTexts(j, keys, i + 1)
  {
    hide Print, Quote;
    var q, p, rest := Quote(keys[i]), Print(j.fields[keys[i]]), PrintMembers(j, keys, i + 1);
    assert q + (":" + (p + rest)) == (q + ":" + p) + rest;
  }

  lemma {:induction false} MembersJoin(j: Json, keys: seq<string>, i: nat)
    requires j.JObject? && i < |keys| && forall k :: k in keys ==> k in j.fields
    ensures PrintMembers(j, keys, i) == Comma(i) + Joined(MemberTexts(j, keys, i))
    decreases |keys| - i
  {
    hide Print, Quote, Member, Joined, PrintMembers;
    var first := Member(j, keys[i]);
    MemberThenRest(j, keys, i);
    if i + 1 == |keys| {
      JoinOne(first);
      NoMembers(j, keys);
      assert first + "" == first;
      assert [first] + [] == [first];
    } else {
      MembersJoin(j, keys, i + 1);
      JoinFirst(first, MemberTexts(j, keys, i + 1));
      assert Comma(i + 1) == ",";
    }
  }

  lemma NoMembers(j: Json, keys: seq<string>)
    requires j.JObject? && forall k :: k in keys ==> k in j.fields
    ensures PrintMembers(j, keys, |keys|) == "" && MemberTexts(j, keys, |keys|) == []
  {
  }

  lemma NoItems(j: Json)
    requires j.JArray? && j.elements == []
    ensures PrintItems(j, 0) == "" && ItemTexts(j, 0) == []
  {
  }

  /** Arrays and objects: the elements, or the members in the order of their keys,
      with commas between and nothing else. */
  lemma PrintsExactly(j: Json)
    ensures
      match j
      case JNull => Print(j) == "null"
      case JBool(flag) => Print(j) == if flag then "true" else "false"
      case JInt(n) => Print(j) == if n < 0 then "-" + PrintNat(-n) else PrintNat(n)
      case JString(text) => Print(j) == Quote(text)
      case JArray(elements) => Print(j) == "[" + Joined(ItemTexts(j, 0)) + "]"
      case JObject(fields) =>
        exists keys: seq<string> ::
          && Text.Ascending(keys) && (forall k :: k in keys <==> k in fields)
          && Print(j) == "{" + Joined(MemberTexts(j, keys, 0)) + "}"
  {
    hide Quote, PrintNat, PrintItems, PrintMembers, MemberTexts;
    match j {
      case JArray(elements) =>
        if elements != [] {
          ItemsJoin(j, 0);
        } else {
          NoItems(j);
        }
      case JObject(fields) =>
        var keys := SortedKeys(fields.Keys);
        SortedKeysAscending(fields.Keys);
        if keys != [] {
          MembersJoin(j, keys, 0);
        } else {
          NoMembers(j, keys);
        }
      case _ =>
    }
  }

  /** What stands in quoted text for a character: two characters for quotation mark,
      backslash and five control characters, six for the others below space, and
      the character itself else. */
  lemma EscapesExactly(c: char)
    ensures
      var n := c as int;
      Escape(c) ==
        if c == '"' then ['\\', '"']
        else if c == '\\' then ['\\', '\\']
        else if n == 8 then ['\\', 'b']
        else if n == 9 then ['\\', 't']
        else if n == 10 then ['\\', 'n']
        else if n == 12 then ['\\', 'f']
        else if n == 13 then ['\\', 'r']
        else if n < 32 then ['\\', 'u', '0', '0', "0123456789abcdef"[n / 16], "0123456789abcdef"[n % 16]]
        else [c]
  {
    if 0 <= c as int < 32 {
      HexExactly(c as int / 16);
      HexExactly(c as int % 16);
    }
  }

  lemma HexExactly(n: int)
    requires 0 <= n < 16
    ensures HexDigit(n) == "0123456789abcdef"[n]
  {
  }

  /** Quoted text is quotation marks around what stands for each character. */
  lemma {:induction false} QuotesExactly(s: string, c: char)
    ensures Quote("") == ['"', '"']
    ensures Quote(s + [c]) == Quote(s)[..|Quote(s)| - 1] + Escape(c) + ['"']
  {
    hide Escape;
    EscapeSnoc(s, c);
    assert Quote(s)[..|Quote(s)| - 1] == "\"" + EscapeAll(s);
  }

  lemma {:induction false} EscapeSnoc(s: string, c: char)
    ensures EscapeAll(s + [c]) == EscapeAll(s) + Escape(c)
  {
    hide Escape;
    if s == "" {
      assert s + [c] == [c] && [c][1..] == "";
    } else {
      EscapeSnoc(s[1..], c);
      assert (s + [c])[1..] == s[1..] + [c];
    }
  }

  // ----- Lines

  /** The ten characters that end a line; a carriage return and a line feed end one
      line together. */
  lemma BreaksExactly(c: char)
    ensures IsLineBreak(c) <==>
      c in {'\n', '\U{0b}', '\U{0c}', '\r', '\U{1c}', '\U{1d}', '\U{1e}', '\U{85}', '\U{2028}', '\U{2029}'}
  {
  }

  /** How a text is split: what stands before the first break is the first line, and
      the rest is split likewise. */
  lemma LinesExactly(line: string, c: char, rest: string)
    requires !HasLineBreak(line)
    ensures line != "" ==> SplitLines(line) == [line]
    ensures SplitLines("") == []
    ensures IsLineBreak(c) && !(c == '\r' && rest != "" && rest[0] == '\n') ==>
      SplitLines(line + [c] + rest) == [line] + SplitLines(rest)
    ensures SplitLines(line + "\r\n" + rest) == [line] + SplitLines(rest)
  {
    hide IsLineBreak, SplitLines;
    SplitNothing();
    if line != "" {
      SplitUnbroken(line);
    }
    BreakAfter(line, c, rest);
    BreakAfter(line, '\r', ['\n'] + rest);
    BreaksExactly('\r');
    assert line + "\r\n" + rest == line + ['\r'] + (['\n'] + rest);
    assert (['\n'] + rest)[1..] == rest;
  }

  lemma BreakAfter(line: string, c: char, rest: string)
    requires !HasLineBreak(line)
    ensures IsLineBreak(c) ==>
      SplitLines(line + [c] + rest) == [line] + SplitLines(if c == '\r' && rest != "" && rest[0] == '\n' then rest[1..]
                                                           else rest)
  {
    hide IsLineBreak, SplitLines;
    if IsLineBreak(c) {
      var s := line + [c] + rest;
      assert s[|line|] == c;
      assert forall k :: 0 <= k < |line| ==> s[k] == line[k];
      assert FirstBreak(s) == |line|;
      SplitFirst(s, |line|);
      assert s[..|line|] == line && s[|line| + 1..] == rest;
      assert rest != "" ==> s[|line| + 2..] == rest[1..];
    }
  }

  // ----- Reading

  /** 64 zeros. */
  ghost predicate AllZeros(s: string) {
    |s| == 64 && forall i :: 0 <= i < 64 ==> s[i] == '0'
  }

  ghost predicate IsDigest(s: string) {
    |s| == 64 && forall i :: 0 <= i < 64 ==> s[i] in "0123456789abcdef"
  }

  ghost predicate HoldsText(e: Entry, field: string) {
    field in e && e[field].JString?
  }

  /** An entry in its place: it has an event and a time, its number, the hash of the
      entry before, zeros for the first, and the hash of its own text without that
      hash. */
  ghost predicate InPlace(lib: Library, es: seq<Entry>, i: nat)
    requires i < |es|
  {
    var e := es[i];
    && HoldsText(e, "event") && e["event"].text != ""
    && "sequence" in e && e["sequence"] == JInt(i + 1)
    && HoldsText(e, "timestamp") && e["timestamp"].text != ""
    && HoldsText(e, "previous_hash") && IsDigest(e["previous_hash"].text)
    && (if i == 0 then AllZeros(e["previous_hash"].text)
        else "entry_hash" in es[i - 1] && e["previous_hash"] == es[i - 1]["entry_hash"])
    && HoldsText(e, "entry_hash") && IsDigest(e["entry_hash"].text)
    && e["entry_hash"].text == lib.sha(Print(JObject(e - {"entry_hash"})))
  }

  lemma DigestExactly(s: string)
    ensures IsHash(s) <==> IsDigest(s)
  {
    forall c: char ensures ('0' <= c <= '9' || 'a' <= c <= 'f') <==> c in "0123456789abcdef" {
      HexCharExactly(c);
    }
  }

  lemma HexCharExactly(c: char)
    ensures ('0' <= c <= '9' || 'a' <= c <= 'f') <==> c in "0123456789abcdef"
  {
    if '0' <= c <= '9' {
      assert "0123456789abcdef"[c as int - 48] == c;
    } else if 'a' <= c <= 'f' {
      assert "0123456789abcdef"[c as int - 87] == c;
    }
  }

  lemma ZerosExactly(s: string)
    ensures s == GENESIS_HASH <==> AllZeros(s)
  {
    var zeros := Zeros(64);
    if AllZeros(s) {
      assert s == zeros;
    }
  }

  lemma HeadOfPrefix(es: seq<Entry>, i: nat)
    requires i < |es|
    ensures i > 0 && HoldsText(es[i - 1], "entry_hash") ==> HeadHash(es[..i]) == es[i - 1]["entry_hash"].text
    ensures i == 0 ==> HeadHash(es[..i]) == GENESIS_HASH
  {
  }

  /** The lines of a log verify, as certain entries, exactly when they are the texts
      of these entries and each entry is in its place. */
  lemma ReadsExactly(lib: Library, content: string, es: seq<Entry>)
    requires lib.Sound()
    ensures ReadBack(lib, None) == Some([])
    ensures ReadBack(lib, Some(content)) == Some(es) <==>
      var lines := SplitLines(content);
      && |es| == |lines|
      && forall i :: 0 <= i < |es| ==> InPlace(lib, es, i) && lines[i] == Print(JObject(es[i]))
  {
    hide VerifyLines, SplitLines, Print, Linked, InPlace;
    var lines := SplitLines(content);
    VerifiesExactlyChains(lib, lines, es);
    PlacesAreLinks(lib, es);
    assert forall i :: 0 <= i < |es| ==> Serialize(es[i]) == Print(JObject(es[i]));
  }

  lemma PlacesAreLinks(lib: Library, es: seq<Entry>)
    ensures Chain(lib, es) <==> forall i :: 0 <= i < |es| ==> InPlace(lib, es, i)
  {
    hide Linked, InPlace;
    if Chain(lib, es) {
      forall i | 0 <= i < |es| ensures InPlace(lib, es, i) {
        assert Linked(lib, es, i);
        if i > 0 {
          assert Linked(lib, es, i - 1);
          LinkedHash(lib, es, i - 1);
        }
        LinkIsPlace(lib, es, i);
      }
    }
    if forall i :: 0 <= i < |es| ==> InPlace(lib, es, i) {
      forall i | 0 <= i < |es| ensures Linked(lib, es, i) {
        assert InPlace(lib, es, i);
        if i > 0 {
          assert InPlace(lib, es, i - 1);
          PlaceHash(lib, es, i - 1);
        }
        LinkIsPlace(lib, es, i);
      }
    }
  }

  lemma LinkedHash(lib: Library, es: seq<Entry>, i: nat)
    requires i < |es| && Linked(lib, es, i)
    ensures HoldsText(es[i], "entry_hash")
  {
  }

  lemma PlaceHash(lib: Library, es: seq<Entry>, i: nat)
    requires i < |es| && InPlace(lib, es, i)
    ensures HoldsText(es[i], "entry_hash")
  {
  }

  lemma LinkIsPlace(lib: Library, es: seq<Entry>, i: nat)
    requires i < |es| && (i > 0 ==> HoldsText(es[i - 1], "entry_hash"))
    ensures Linked(lib, es, i) <==> InPlace(lib, es, i)
  {
    hide Print, HeadHash, IsHash, IsDigest, AllZeros;
    HeadOfPrefix(es, i);
    var e := es[i];
    if HoldsText(e, "previous_hash") {
      DigestExactly(e["previous_hash"].text);
      ZerosExactly(e["previous_hash"].text);
    }
    if HoldsText(e, "entry_hash") {
      DigestExactly(e["entry_hash"].text);
    }
  }

  // ----- Appending

  /** The entry made of the caller's fields: these, and four more. */
  ghost predicate MadeOf(lib: Library, es: seq<Entry>, fields: Entry, timestamp: string, e: Entry) {
    && e.Keys == fields.Keys + {"sequence", "timestamp", "previous_hash", "entry_hash"}
    && (forall k :: k in fields ==> e[k] == fields[k])
    && e["sequence"] == JInt(|es| + 1)
    && e["timestamp"] == JString(timestamp)
    && (if es == [] then e["previous_hash"].JString? && AllZeros(e["previous_hash"].text)
        else "entry_hash" in es[|es| - 1] && e["previous_hash"] == es[|es| - 1]["entry_hash"])
    && e["entry_hash"] == JString(lib.sha(Print(JObject(e - {"entry_hash"}))))
  }

  /** An event the log takes: it has a name and leaves the four fields to the log. */
  ghost predicate Loggable(fields: Entry) {
    && HoldsText(fields, "event") && fields["event"].text != ""
    && "sequence" !in fields && "timestamp" !in fields && "previous_hash" !in fields && "entry_hash" !in fields
  }

  lemma LoggableIsValid(fields: Entry)
    ensures ValidEvent(fields) <==> Loggable(fields)
  {
  }

  lemma NewEntryIsMade(lib: Library, es: seq<Entry>, fields: Entry, timestamp: string)
    requires Loggable(fields) && (es != [] ==> HoldsText(es[|es| - 1], "entry_hash"))
    ensures MadeOf(lib, es, fields, timestamp, NewEntry(lib, es, fields, timestamp))
  {
    hide Print, AllZeros;
    var e := NewEntry(lib, es, fields, timestamp);
    BodyOfNewEntry(lib, es, fields, timestamp);
    ZerosExactly(HeadHash(es));
    assert forall k :: k in fields ==> k !in {"sequence", "timestamp", "previous_hash", "entry_hash"};
  }

  /** The same without a look at the entries before. */
  lemma NewEntryShape(lib: Library, es: seq<Entry>, fields: Entry, timestamp: string)
    requires Loggable(fields)
    ensures
      var e := NewEntry(lib, es, fields, timestamp);
      && e.Keys == fields.Keys + {"sequence", "timestamp", "previous_hash", "entry_hash"}
      && (forall k :: k in fields ==> e[k] == fields[k])
      && e["sequence"] == JInt(|es| + 1) && e["timestamp"] == JString(timestamp)
  {
    hide Serialize, HeadHash;
  }

  /** What an append does: nothing to a log that does not verify or for an event it
      does not take; else it adds the text of one entry and a line feed, after a line
      feed where the last line had none. */
  lemma AppendsExactly(lib: Library, content: Option<string>, fields: Entry, timestamp: string)
    requires lib.Sound()
    ensures
      var (after, r) := AppendStep(lib, content, fields, timestamp);
      if !Loggable(fields) then after == content && r == InvalidEvent
      else if ReadBack(lib, content) == None then after == content && r == DamagedChain
      else
        && r.Appended? && MadeOf(lib, ReadBack(lib, content).value, fields, timestamp, r.entry)
        && var text := if content == None then "" else content.value;
        after == Some(text + (if text != "" && text[|text| - 1] != '\n' then "\n" else "")
                      + Print(JObject(r.entry)) + "\n")
  {
    hide ReadBack, Print, MadeOf, NewEntry;
    LoggableIsValid(fields);
    if Loggable(fields) && ReadBack(lib, content).Some? {
      var es := ReadBack(lib, content).value;
      ReadHasHashes(lib, content);
      NewEntryIsMade(lib, es, fields, timestamp);
    }
  }

  lemma ReadHasHashes(lib: Library, content: Option<string>)
    requires lib.Sound() && ReadBack(lib, content).Some?
    ensures
      var es := ReadBack(lib, content).value;
      es != [] ==> HoldsText(es[|es| - 1], "entry_hash")
  {
    hide SplitLines, Print, InPlace;
    var es := ReadBack(lib, content).value;
    ReadsExactly(lib, if content == None then "" else content.value, es);
    if es != [] {
      assert InPlace(lib, es, |es| - 1);
      PlaceHash(lib, es, |es| - 1);
    }
  }
}
