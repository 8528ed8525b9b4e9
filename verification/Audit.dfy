/** The hash-chained audit log: canonical JSON lines linked by hashes. */
module Audit {
  import opened Wrappers
  import opened CanonicalJson

  type Entry = map<string, Json>

  function Zeros(n: nat): (s: string)
    ensures |s| == n && forall i :: 0 <= i < n ==> s[i] == '0'
  {
    if n == 0 then "" else Zeros(n - 1) + "0"
  }

  const GENESIS_HASH: string := Zeros(64)

  /** The canonical JSON text of an entry. */
  function Serialize(e: Entry): string {
    Print(JObject(e))
  }

  /** The JSON parser and SHA-256 in hexadecimal: foreign functions. */
  datatype Library = Library(loads: string -> Option<Json>, sha: string -> string)
  {
    /** What is used of them: the parser reads back what is printed, digests are
        64 hexadecimal digits. */
    ghost predicate Sound() {
      (forall e :: loads(Serialize(e)) == Some(JObject(e))) && (forall t :: IsHash(sha(t)))
    }

    function EntryHash(body: Entry): string {
      sha(Serialize(body))
    }
  }

  predicate IsHash(s: string) {
    |s| == 64 && forall i :: 0 <= i < |s| ==> '0' <= s[i] <= '9' || 'a' <= s[i] <= 'f'
  }

  // ----- Lines

  /** The characters at which a text is split into lines. */
  predicate IsLineBreak(c: char) {
    c as int in {0x0a, 0x0b, 0x0c, 0x0d, 0x1c, 0x1d, 0x1e, 0x85, 0x2028, 0x2029}
  }

  predicate HasLineBreak(s: string) {
    exists i :: 0 <= i < |s| && IsLineBreak(s[i])
  }

  function FirstBreak(s: string): (i: nat)
    ensures i <= |s| && (i < |s| ==> IsLineBreak(s[i]))
    ensures forall j :: 0 <= j < i ==> !IsLineBreak(s[j])
  {
    if s == "" || IsLineBreak(s[0]) then 0 else 1 + FirstBreak(s[1..])
  }

  /** Carriage return and line feed together are one break. */
  function BreakWidth(s: string, i: nat): (w: nat)
    requires i < |s|
    ensures 1 <= w && i + w <= |s|
  {
    if s[i] == '\r' && i + 1 < |s| && s[i + 1] == '\n' then 2 else 1
  }

  function SplitLines(s: string): seq<string> {
    if s == "" then []
    else
      var i := FirstBreak(s);
      if i == |s| then [s] else [s[..i]] + SplitLines(s[i + BreakWidth(s, i)..])
  }

  // ----- Verifying

  const SEQUENCE := "sequence"
  const TIMESTAMP := "timestamp"
  const PREVIOUS_HASH := "previous_hash"
  const ENTRY_HASH := "entry_hash"
  const EVENT := "event"

  predicate HasText(e: Entry, field: string) {
    field in e && e[field].JString? && e[field].text != ""
  }

  predicate HasHash(e: Entry, field: string) {
    field in e && e[field].JString? && IsHash(e[field].text)
  }

  function Body(e: Entry): Entry {
    e - {ENTRY_HASH}
  }

  /** The checks on one line, given its number and the hash before it. */
  function CheckLine(lib: Library, line: string, sequence: int, previous: string): Option<Entry> {
    if line == "" then None
    else
      var parsed := lib.loads(line);
      if parsed == None || !parsed.value.JObject? then None
      else
        var e := parsed.value.fields;
        if HasText(e, EVENT) && SEQUENCE in e && e[SEQUENCE] == JInt(sequence)
           && HasText(e, TIMESTAMP)
           && HasHash(e, PREVIOUS_HASH) && e[PREVIOUS_HASH].text == previous
           && HasHash(e, ENTRY_HASH) && e[ENTRY_HASH].text == lib.EntryHash(Body(e))
           && line == Serialize(e)
        then Some(e) else None
  }

  function VerifyFrom(lib: Library, lines: seq<string>, sequence: int, previous: string): Option<seq<Entry>> {
    if lines == [] then Some([])
    else
      match CheckLine(lib, lines[0], sequence, previous)
      case None => None
      case Some(e) =>
        match VerifyFrom(lib, lines[1..], sequence + 1, e[ENTRY_HASH].text)
        case None => None
        case Some(rest) => Some([e] + rest)
  }

  function VerifyLines(lib: Library, lines: seq<string>): Option<seq<Entry>> {
    VerifyFrom(lib, lines, 1, GENESIS_HASH)
  }

  /** The verified entries of the file; None for AuditIntegrityError. */
  function ReadBack(lib: Library, content: Option<string>): Option<seq<Entry>> {
    if content == None then Some([]) else VerifyLines(lib, SplitLines(content.value))
  }

  // ----- Appending

  predicate ValidEvent(fields: Entry) {
    && SEQUENCE !in fields && TIMESTAMP !in fields && PREVIOUS_HASH !in fields && ENTRY_HASH !in fields
    && HasText(fields, EVENT)
  }

  function HeadHash(es: seq<Entry>): string {
    if es == [] || ENTRY_HASH !in es[|es| - 1] || !es[|es| - 1][ENTRY_HASH].JString? then GENESIS_HASH
    else es[|es| - 1][ENTRY_HASH].text
  }

  function NewEntry(lib: Library, es: seq<Entry>, fields: Entry, timestamp: string): Entry {
    var body :=
      fields[SEQUENCE := JInt(|es| + 1)][TIMESTAMP := JString(timestamp)][PREVIOUS_HASH := JString(HeadHash(es))];
    body[ENTRY_HASH := JString(lib.EntryHash(body))]
  }

  function Separator(content: Option<string>): string {
    if content.Some? && content.value != "" && content.value[|content.value| - 1] != '\n' then "\n" else ""
  }

  function Extended(content: Option<string>, line: string): string {
    (if content == None then "" else content.value) + Separator(content) + line + "\n"
  }

  datatype AppendResult = Appended(entry: Entry) | InvalidEvent | DamagedChain

  function AppendStep(lib: Library, content: Option<string>, fields: Entry, timestamp: string)
    : (Option<string>, AppendResult)
  {
    if !ValidEvent(fields) then (content, InvalidEvent)
    else
      match ReadBack(lib, content)
      case None => (content, DamagedChain)
      case Some(es) =>
        var e := NewEntry(lib, es, fields, timestamp);
        (Some(Extended(content, Serialize(e))), Appended(e))
  }

  // ----- The log object

  class AuditLog {
    const lib: Library
    var content: Option<string>

    constructor (lib: Library)
      ensures this.lib == lib && content == None
    {
      this.lib := lib;
      content := None;
    }

    method ReadVerified() returns (r: Option<seq<Entry>>)
      ensures r == ReadBack(lib, content)
    {
      hide SplitLines, CheckLine;
      if content == None {
        return Some([]);
      }
      var lines := SplitLines(content.value);
      var entries: seq<Entry> := [];
      assert lines[0..] == lines;
      assert VerifyLines(lib, lines).Some? ==> [] + VerifyLines(lib, lines).value == VerifyLines(lib, lines).value;
      var expectedPrevious := GENESIS_HASH;
      for i := 0 to |lines|
        invariant |entries| == i
        invariant var rest := VerifyFrom(lib, lines[i..], i + 1, expectedPrevious);
          VerifyLines(lib, lines) == if rest == None then None else Some(entries + rest.value)
      {
        CheckedHasHash(lib, lines[i], i + 1, expectedPrevious);
        var e := CheckLine(lib, lines[i], i + 1, expectedPrevious);
        assert lines[i..][1..] == lines[i + 1..];
        if e == None {
          return None;
        }
        ghost var rest := VerifyFrom(lib, lines[i + 1..], i + 2, e.value[ENTRY_HASH].text);
        assert rest.Some? ==> entries + ([e.value] + rest.value) == (entries + [e.value]) + rest.value;
        entries := entries + [e.value];
        expectedPrevious := e.value[ENTRY_HASH].text;
      }
      assert lines[|lines|..] == [] && entries + [] == entries;
      r := Some(entries);
    }

    method Append(fields: Entry, timestamp: string) returns (r: AppendResult)
      modifies this
      ensures (content, r) == AppendStep(lib, old(content), fields, timestamp)
    {
      hide ReadBack;
      if !ValidEvent(fields) {
        return InvalidEvent;
      }
      var existing := ReadVerified();
      if existing == None {
        return DamagedChain;
      }
      var e := NewEntry(lib, existing.value, fields, timestamp);
      var serialized := Serialize(e);
      var text := if content == None then "" else content.value;
      assert text + "" == text;
      if text != "" && text[|text| - 1] != '\n' {
        text := text + "\n";
      }
      content := Some(text + serialized + "\n");
      r := Appended(e);
    }

    method Verify() returns (ok: bool)
      ensures ok <==> ReadBack(lib, content).Some?
    {
      var r := ReadVerified();
      ok := r.Some?;
    }
  }

  lemma CheckedHasHash(lib: Library, line: string, sequence: int, previous: string)
    ensures CheckLine(lib, line, sequence, previous).Some? ==>
      HasHash(CheckLine(lib, line, sequence, previous).value, ENTRY_HASH)
  {
  }
}
