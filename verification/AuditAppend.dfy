/** Append and verification agree, on the condition that the event fields are free
    of the three line breaks that JSON leaves unescaped. */
module AuditAppend {
  import opened Wrappers
  import opened CanonicalJson
  import opened JsonTheorems
  import opened Audit
  import opened AuditFields
  import opened AuditTheorems

  // ----- Splitting appended text

  lemma NewlineBreaks()
    ensures IsLineBreak('\n')
  {
  }

  lemma {:induction false} FirstBreakAppend(a: string, t: string)
    requires HasLineBreak(a)
    ensures FirstBreak(a + t) == FirstBreak(a) < |a|
  {
    hide IsLineBreak;
    var i := FirstBreak(a);
    var j :| 0 <= j < |a| && IsLineBreak(a[j]);
    assert i <= j;
    assert (a + t)[i] == a[i];
    assert forall k :: 0 <= k < i ==> (a + t)[k] == a[k];
    assert FirstBreak(a + t) >= i;
  }

  /** a ends in a break that t does not continue. */
  ghost predicate EndsLine(a: string, t: string) {
    a != "" ==> IsLineBreak(a[|a| - 1]) && !(a[|a| - 1] == '\r' && t != "" && t[0] == '\n')
  }

  lemma SplitNothing()
    ensures SplitLines("") == []
  {
  }

  /** The first line and what follows its break. */
  lemma SplitFirst(s: string, i: nat)
    requires i < |s| && FirstBreak(s) == i
    ensures SplitLines(s) == [s[..i]] + SplitLines(s[i + BreakWidth(s, i)..])
  {
  }

  lemma BreakWidthAppend(a: string, t: string, i: nat)
    requires i < |a|
    requires EndsLine(a, t)
    ensures BreakWidth(a + t, i) == BreakWidth(a, i)
  {
    hide IsLineBreak;
  }

  lemma RestEndsLine(a: string, t: string, i: nat)
    requires i < |a|
    requires EndsLine(a, t)
    ensures EndsLine(a[i + BreakWidth(a, i)..], t)
  {
    hide IsLineBreak, BreakWidth;
  }

  lemma {:induction false} SplitAppend(a: string, t: string)
    requires EndsLine(a, t)
    ensures SplitLines(a + t) == SplitLines(a) + SplitLines(t)
    decreases |a|
  {
    hide IsLineBreak, FirstBreak, HasLineBreak, SplitLines;
    if a == "" {
      assert a + t == t;
      SplitNothing();
    } else {
      var i := FirstBreak(a);
      assert HasLineBreak(a) by { BreakAt(a, |a| - 1); }
      FirstBreakAppend(a, t);
      BreakWidthAppend(a, t, i);
      var w := BreakWidth(a, i);
      assert (a + t)[..i] == a[..i];
      assert (a + t)[i + w..] == a[i + w..] + t;
      SplitFirst(a, i);
      SplitFirst(a + t, i);
      RestEndsLine(a, t, i);
      SplitAppend(a[i + w..], t);
    }
  }

  lemma UnbrokenLine(s: string)
    requires !HasLineBreak(s)
    ensures FirstBreak(s + "\n") == |s|
  {
    var t := s + "\n";
    assert forall j :: 0 <= j < |s| ==> t[j] == s[j];
    assert t[|s|] == '\n' && IsLineBreak(t[|s|]);
  }

  lemma SplitUnbroken(s: string)
    requires s != "" && !HasLineBreak(s)
    ensures SplitLines(s) == [s] && SplitLines(s + "\n") == [s]
  {
    hide IsLineBreak;
    UnbrokenLine(s);
    assert FirstBreak(s) == |s|;
    assert (s + "\n")[..|s|] == s;
  }

  /** Ending a line: a final newline adds no line, unless the text already ends
      in a break other than a carriage return. */
  lemma {:induction false} SplitNewline(s: string)
    requires s != ""
    ensures SplitLines(s + "\n") ==
      if IsLineBreak(s[|s| - 1]) && s[|s| - 1] != '\r' then SplitLines(s) + [""] else SplitLines(s)
    decreases |s|
  {
    hide IsLineBreak, FirstBreak, SplitLines;
    var t := s + "\n";
    NewlineBreaks();
    if IsLineBreak(s[|s| - 1]) && s[|s| - 1] != '\r' {
      SplitAppend(s, "\n");
      SingleNewline();
    } else if !HasLineBreak(s) {
      SplitUnbroken(s);
    } else {
      var i := FirstBreak(s);
      FirstBreakAppend(s, "\n");
      SplitFirst(s, i);
      SplitFirst(t, i);
      assert t[..i] == s[..i];
      if i + BreakWidth(s, i) < |s| {
        var rest := s[i + BreakWidth(s, i)..];
        assert BreakWidth(t, i) == BreakWidth(s, i);
        assert t[i + BreakWidth(s, i)..] == rest + "\n";
        assert rest[|rest| - 1] == s[|s| - 1];
        SplitNewline(rest);
      } else {
        assert s[i] == '\r' && i == |s| - 1;
        assert t[i + BreakWidth(t, i)..] == "" && s[i + BreakWidth(s, i)..] == "";
      }
    }
  }

  lemma SingleNewline()
    ensures SplitLines("\n") == [""]
  {
    assert "\n"[0] == '\n' && IsLineBreak('\n');
    assert FirstBreak("\n") == 0;
    assert "\n"[1..] == "" && "\n"[..0] == "";
  }

  /** A terminated line is one line when it has no break inside; otherwise its
      first line is what stands before the break. */
  lemma TerminatedLine(line: string)
    requires line != "" && !IsLineBreak(line[|line| - 1])
    ensures !HasLineBreak(line) ==> SplitLines(line + "\n") == [line]
    ensures HasLineBreak(line) ==>
      && FirstBreak(line) < |line|
      && SplitLines(line + "\n") != [] && SplitLines(line + "\n")[0] == line[..FirstBreak(line)]
  {
    hide IsLineBreak, SplitLines;
    if HasLineBreak(line) {
      FirstBreakAppend(line, "\n");
      SplitFirst(line + "\n", FirstBreak(line));
      assert (line + "\n")[..FirstBreak(line)] == line[..FirstBreak(line)];
    } else {
      SplitUnbroken(line);
    }
  }

  // ----- Append and verification agree

  /** The text ends in a way append can continue: a line feed, no break at all,
      or a lone carriage return. */
  ghost predicate WellEnded(content: Option<string>) {
    content.Some? && content.value != "" ==>
      var last := content.value[|content.value| - 1];
      last == '\n' || last == '\r' || !IsLineBreak(last)
  }

  lemma ExtendedIsAppend(content: Option<string>, line: string)
    ensures
      var text := if content == None then "" else content.value;
      Extended(content, line) == (text + Separator(content)) + (line + "\n")
  {
  }

  /** The lines after an append: the old ones, the new ones, and one empty line
      when the text did not end well. */
  lemma ExtendedLines(content: Option<string>, line: string)
    ensures
      var before := if content == None then [] else SplitLines(content.value);
      SplitLines(Extended(content, line))
        == before + (if WellEnded(content) then [] else [""]) + SplitLines(line + "\n")
  {
    hide SplitLines, IsLineBreak, Extended;
    NewlineBreaks();
    var text := if content == None then "" else content.value;
    var base := text + Separator(content);
    ExtendedIsAppend(content, line);
    if text == "" {
      assert base == "";
      SplitNothing();
      SplitAppend("", line + "\n");
    } else if text[|text| - 1] == '\n' {
      assert base == text;
      SplitAppend(text, line + "\n");
    } else {
      assert base == text + "\n" && base[|base| - 1] == '\n';
      SplitNewline(text);
      SplitAppend(base, line + "\n");
    }
  }

  lemma BodyOfNewEntry(lib: Library, es: seq<Entry>, fields: Entry, timestamp: string)
    requires ENTRY_HASH !in fields
    ensures
      var e := NewEntry(lib, es, fields, timestamp);
      ENTRY_HASH in e && e[ENTRY_HASH] == JString(lib.EntryHash(Body(e)))
  {
    hide Serialize, HeadHash;
    var body :=
      fields[SEQUENCE := JInt(|es| + 1)][TIMESTAMP := JString(timestamp)][PREVIOUS_HASH := JString(HeadHash(es))];
    assert ENTRY_HASH !in body;
    assert Body(NewEntry(lib, es, fields, timestamp)) == body;
  }

  lemma NewEntryIsLinked(lib: Library, es: seq<Entry>, fields: Entry, timestamp: string)
    requires lib.Sound() && Chain(lib, es) && ValidEvent(fields) && timestamp != ""
    ensures
      var e := NewEntry(lib, es, fields, timestamp);
      CheckLine(lib, Serialize(e), |es| + 1, HeadHash(es)) == Some(e)
  {
    hide Print, IsHash, HeadHash, Chain;
    var e := NewEntry(lib, es, fields, timestamp);
    BodyOfNewEntry(lib, es, fields, timestamp);
    HeadIsHash(lib, es);
    SerializedEnds(e);
    assert lib.loads(Serialize(e)) == Some(JObject(e));
    assert HasText(e, EVENT) && HasText(e, TIMESTAMP);
  }

  /** Verified lines are never empty and never stop short of an entry's text. */
  lemma VerifiedLine(lib: Library, lines: seq<string>, i: nat, e: Entry)
    requires VerifyLines(lib, lines).Some? && i < |lines|
    ensures lines[i] != "" && !(lines[i] < Serialize(e))
  {
    hide VerifyLines, Chain, Print;
    VerifiedIsChain(lib, lines);
    var f := VerifyLines(lib, lines).value[i];
    SerializedEnds(f);
    if lines[i] < Serialize(e) {
      var rest := Serialize(e)[|lines[i]|..];
      assert Serialize(f) + rest == Serialize(e) + "";
      SerializedIsWhole(f, e, rest);
    }
  }

  lemma SerializedIsWhole(f: Entry, e: Entry, rest: string)
    requires Serialize(f) + rest == Serialize(e)
    ensures rest == ""
  {
    hide PrintMembers, SortedKeys;
    var k, l := PrintMembers(JObject(f), SortedKeys(f.Keys), 0), PrintMembers(JObject(e), SortedKeys(e.Keys), 0);
    assert Serialize(f) + rest == ['{'] + (k + ("}" + rest));
    assert Serialize(e) == ['{'] + (l + ("}" + ""));
    CancelChar('{', k + ("}" + rest), l + ("}" + ""));
    MembersUnique(JObject(f), JObject(e), SortedKeys(f.Keys), SortedKeys(e.Keys), 0, rest, "");
  }

  /** Neither an empty line nor a broken entry's lines ever verify. */
  lemma BrokenLinesFail(lib: Library, before: seq<string>, e: Entry, after: seq<string>)
    requires after != [] && (after[0] == "" || after[0] < Serialize(e))
    ensures VerifyLines(lib, before + after) == None
  {
    hide VerifyLines, Serialize;
    if VerifyLines(lib, before + after).Some? {
      assert (before + after)[|before|] == after[0];
      VerifiedLine(lib, before + after, |before|, e);
    }
  }

  /** One append to a verified log: it reads back as the old entries and the new
      one when the text ended well and the event fields are free of U+0085, U+2028
      and U+2029; in every other case the log does not verify any more. */
  lemma AppendReadsBack(lib: Library, content: Option<string>, fields: Entry, timestamp: string)
    requires lib.Sound() && ValidEvent(fields) && IsTimestamp(timestamp)
    requires ReadBack(lib, content).Some?
    ensures
      var es := ReadBack(lib, content).value;
      var e := NewEntry(lib, es, fields, timestamp);
      && AppendStep(lib, content, fields, timestamp) == (Some(Extended(content, Serialize(e))), Appended(e))
      && ReadBack(lib, AppendStep(lib, content, fields, timestamp).0)
         == if WellEnded(content) && !Breaks(JObject(fields)) then Some(es + [e]) else None
  {
    hide SplitLines, NewEntry, CheckLine, VerifyLines, Extended, ValidEvent, WellEnded, HasLineBreak, HeadHash, Chain,
      IsLineBreak, Serialize, IsTimestamp, Breaks, FirstBreak;
    var lines := if content == None then [] else SplitLines(content.value);
    assert ReadBack(lib, content) == VerifyLines(lib, lines) by { NoLines(lib); }
    VerifiedIsChain(lib, lines);
    var es := ReadBack(lib, content).value;
    var e := NewEntry(lib, es, fields, timestamp);
    var line := Serialize(e);
    HeadIsHash(lib, es);
    EntryBreaks(lib, es, fields, timestamp);
    SerializedEnds(e);
    BraceIsNoBreak();
    TimestampNotEmpty(timestamp);
    ExtendedLines(content, line);
    TerminatedLine(line);
    var after := SplitLines(Extended(content, line));
    if !WellEnded(content) {
      assert after == lines + ([""] + SplitLines(line + "\n"));
      BrokenLinesFail(lib, lines, e, [""] + SplitLines(line + "\n"));
    } else if HasLineBreak(line) {
      assert after == lines + SplitLines(line + "\n");
      BrokenLinesFail(lib, lines, e, SplitLines(line + "\n"));
    } else {
      assert after == lines + [line];
      NewEntryIsLinked(lib, es, fields, timestamp);
      LinesReadBack(lib, lines, line);
    }
  }

  lemma BraceIsNoBreak()
    ensures !IsLineBreak('}')
  {
  }

  lemma TimestampNotEmpty(timestamp: string)
    requires IsTimestamp(timestamp)
    ensures timestamp != ""
  {
  }

  /** An accepted event that makes the log unverifiable: its name is U+2028. */
  lemma LineSeparatorDamages(lib: Library, timestamp: string)
    requires lib.Sound() && IsTimestamp(timestamp)
    ensures
      var fields: Entry := map[EVENT := JString("\U{2028}")];
      var (content, r) := AppendStep(lib, None, fields, timestamp);
      r.Appended? && ReadBack(lib, content) == None
  {
    hide AppendStep, IsTimestamp;
    var fields: Entry := map[EVENT := JString("\U{2028}")];
    assert fields[EVENT] == JString("\U{2028}") && "\U{2028}"[0] as int == 0x2028;
    assert TextBreaks("\U{2028}") && Breaks(JObject(fields));
    AppendReadsBack(lib, None, fields, timestamp);
  }

  // ----- Runs of appends

  datatype Request = Request(fields: Entry, timestamp: string)

  ghost function RunAppends(lib: Library, content: Option<string>, requests: seq<Request>): Option<string>
    decreases |requests|
  {
    if requests == [] then content
    else RunAppends(lib, AppendStep(lib, content, requests[0].fields, requests[0].timestamp).0, requests[1..])
  }

  /** The entries that a run of appends to the entries es writes. */
  ghost function Written(lib: Library, es: seq<Entry>, requests: seq<Request>): seq<Entry>
    decreases |requests|
  {
    if requests == [] then es
    else Written(lib, es + [NewEntry(lib, es, requests[0].fields, requests[0].timestamp)], requests[1..])
  }

  ghost predicate Acceptable(requests: seq<Request>) {
    forall i :: 0 <= i < |requests| ==> ValidEvent(requests[i].fields) && IsTimestamp(requests[i].timestamp)
  }

  /** No event field of any call holds U+0085, U+2028 or U+2029. */
  ghost predicate Clean(requests: seq<Request>) {
    forall i :: 0 <= i < |requests| ==> !Breaks(JObject(requests[i].fields))
  }

  /** A run of appends to a verified log reads back as exactly the written entries
      when the text ended well before it and all event fields are clean; in every
      other case the log ends up unverifiable. */
  lemma {:induction false} RunReadsBackExactly(lib: Library, content: Option<string>, requests: seq<Request>)
    requires lib.Sound() && Acceptable(requests) && requests != []
    requires ReadBack(lib, content).Some?
    ensures ReadBack(lib, RunAppends(lib, content, requests)) ==
      if WellEnded(content) && Clean(requests) then Some(Written(lib, ReadBack(lib, content).value, requests)) else None
    decreases |requests|
  {
    hide ReadBack, NewEntry, ValidEvent, IsTimestamp, WellEnded, Breaks, AppendStep;
    var es := ReadBack(lib, content).value;
    var e := NewEntry(lib, es, requests[0].fields, requests[0].timestamp);
    var next := AppendStep(lib, content, requests[0].fields, requests[0].timestamp).0;
    AppendReadsBack(lib, content, requests[0].fields, requests[0].timestamp);
    ExtendedEndsWell(content, Serialize(e));
    assert Clean(requests) <==> !Breaks(JObject(requests[0].fields)) && Clean(requests[1..]) by {
      assert requests == [requests[0]] + requests[1..];
    }
    if ReadBack(lib, next) == None {
      DamagedChainIsNotExtended(lib, next, requests[1..]);
    } else if |requests| > 1 {
      RunReadsBackExactly(lib, next, requests[1..]);
    }
  }

  /** The log of a clean run is a chain, and reads back the same when its final
      newline is lost. */
  lemma {:induction false} RunSurvivesLostNewline(lib: Library, content: Option<string>, requests: seq<Request>)
    requires lib.Sound() && Acceptable(requests) && requests != []
    requires ReadBack(lib, content).Some? && WellEnded(content) && Clean(requests)
    ensures
      var end := RunAppends(lib, content, requests);
      && end.Some? && end.value != "" && end.value[|end.value| - 1] == '\n'
      && ReadBack(lib, end).Some? && Chain(lib, ReadBack(lib, end).value)
      && ReadBack(lib, Some(end.value[..|end.value| - 1])) == ReadBack(lib, end)
    decreases |requests|
  {
    hide ReadBack, NewEntry, ValidEvent, IsTimestamp, WellEnded, Breaks, AppendStep, Chain, Serialize, HasLineBreak,
      HeadHash;
    var es := ReadBack(lib, content).value;
    var e := NewEntry(lib, es, requests[0].fields, requests[0].timestamp);
    var next := AppendStep(lib, content, requests[0].fields, requests[0].timestamp).0;
    AppendReadsBack(lib, content, requests[0].fields, requests[0].timestamp);
    ExtendedEndsWell(content, Serialize(e));
    if |requests| == 1 {
      assert RunAppends(lib, content, requests) == next;
      ReadBackIsChain(lib, content);
      ReadBackIsChain(lib, next);
      HeadIsHash(lib, es);
      EntryBreaks(lib, es, requests[0].fields, requests[0].timestamp);
      SerializedEnds(e);
      LostNewline(lib, content, Serialize(e));
    } else {
      RunSurvivesLostNewline(lib, next, requests[1..]);
    }
  }

  lemma ExtendedEndsWell(content: Option<string>, line: string)
    ensures WellEnded(Some(Extended(content, line)))
  {
  }

  lemma ReadBackIsChain(lib: Library, content: Option<string>)
    requires ReadBack(lib, content).Some?
    ensures Chain(lib, ReadBack(lib, content).value)
  {
    if content.Some? {
      VerifiedIsChain(lib, SplitLines(content.value));
    }
  }

  lemma LostNewline(lib: Library, content: Option<string>, line: string)
    requires line != "" && !HasLineBreak(line)
    ensures
      var text := Extended(content, line);
      text != "" && text[|text| - 1] == '\n'
      && ReadBack(lib, Some(text[..|text| - 1])) == ReadBack(lib, Some(text))
  {
    hide SplitLines, VerifyLines, HasLineBreak;
    var text := Extended(content, line);
    var shorter := text[..|text| - 1];
    assert text == shorter + "\n";
    assert shorter[|shorter| - 1] == line[|line| - 1];
    assert !IsLineBreak(line[|line| - 1]) by { NoBreakAt(line, |line| - 1); }
    SplitNewline(shorter);
  }

  lemma BreakAt(s: string, i: nat)
    requires i < |s| && IsLineBreak(s[i])
    ensures HasLineBreak(s)
  {
  }

  lemma NoBreakAt(s: string, i: nat)
    requires !HasLineBreak(s) && i < |s|
    ensures !IsLineBreak(s[i])
  {
  }

  /** No run of appends over a damaged chain changes the text. */
  lemma {:induction false} DamagedChainIsNotExtended(lib: Library, content: Option<string>, requests: seq<Request>)
    requires ReadBack(lib, content) == None
    ensures RunAppends(lib, content, requests) == content
    decreases |requests|
  {
    hide ReadBack;
    if requests != [] {
      DamagedChainIsNotExtended(lib, content, requests[1..]);
    }
  }
}
