/** Canonical JSON: keys in ascending order, no white space, and only what must be
    escaped is escaped. */
module CanonicalJson {
  import opened Text
  import opened Decimal

  datatype Json =
    | JNull
    | JBool(flag: bool)
    | JInt(number: int)
    | JString(text: string)
    | JArray(elements: seq<Json>)
    | JObject(fields: map<string, Json>)

  // ----- Sorted keys

  predicate IsLeast(keys: set<string>, k: string) {
    k in keys && forall j :: j in keys && j != k ==> Less(k, j)
  }

  lemma LeastIsUnique(keys: set<string>, k: string, l: string)
    requires IsLeast(keys, k) && IsLeast(keys, l)
    ensures k == l
  {
    if k != l {
      LessTransitive(k, l, k);
      LessIrreflexive(k);
    }
  }

  lemma {:induction false} LeastExists(keys: set<string>)
    requires keys != {}
    ensures exists k :: IsLeast(keys, k)
    decreases |keys|
  {
    var some :| some in keys;
    if keys == {some} {
      assert IsLeast(keys, some);
    } else {
      LeastExists(keys - {some});
      var l :| IsLeast(keys - {some}, l);
      LessTotal(some, l);
      if Less(l, some) {
        assert IsLeast(keys, l);
      } else {
        forall j | j in keys && j != some ensures Less(some, j) {
          if j != l {
            LessTransitive(some, l, j);
          }
        }
        assert IsLeast(keys, some);
      }
    }
  }

  lemma OneLeast(keys: set<string>)
    ensures forall k, l :: IsLeast(keys, k) && IsLeast(keys, l) ==> k == l
  {
    forall k, l | IsLeast(keys, k) && IsLeast(keys, l) ensures k == l {
      LeastIsUnique(keys, k, l);
    }
  }

  /** The keys in ascending order. */
  function SortedKeys(keys: set<string>): (r: seq<string>)
    ensures forall k :: k in r <==> k in keys
    decreases |keys|
  {
    if keys == {} then []
    else
      LeastExists(keys);
      OneLeast(keys);
      var k :| k in keys && IsLeast(keys, k);
      [k] + SortedKeys(keys - {k})
  }

  /** Sorting leaves no choice: the keys come out ascending, each once. */
  lemma {:induction false} SortedKeysAscending(keys: set<string>)
    ensures Ascending(SortedKeys(keys))
    decreases |keys|
  {
    if keys != {} {
      var r := SortedKeys(keys);
      SortedKeysAscending(keys - {r[0]});
    }
  }

  // ----- Printing

  function HexDigit(n: int): char
    requires 0 <= n < 16
  {
    if n < 10 then '0' + n as char else 'a' + (n - 10) as char
  }

  /** Quotation marks, backslashes and control characters are escaped; all other
      characters stand for themselves. */
  function Escape(c: char): (e: string)
    ensures e != ""
  {
    if c == '"' then "\\\""
    else if c == '\\' then "\\\\"
    else if c == '\n' then "\\n"
    else if c == '\r' then "\\r"
    else if c == '\t' then "\\t"
    else if c as int == 8 then "\\b"
    else if c as int == 12 then "\\f"
    else if c as int < 0x20 then "\\u00" + [HexDigit(c as int / 16), HexDigit(c as int % 16)]
    else [c]
  }

  function EscapeAll(s: string): string {
    if s == "" then "" else Escape(s[0]) + EscapeAll(s[1..])
  }

  function Quote(s: string): string {
    "\"" + EscapeAll(s) + "\""
  }

  function Print(j: Json): string
    decreases j, 1, 0
  {
    match j
    case JNull => "null"
    case JBool(flag) => if flag then "true" else "false"
    case JInt(number) => PrintInt(number)
    case JString(text) => Quote(text)
    case JArray(elements) => "[" + PrintItems(j, 0) + "]"
    case JObject(fields) => "{" + PrintMembers(j, SortedKeys(fields.Keys), 0) + "}"
  }

  function Comma(i: nat): string {
    if i == 0 then "" else ","
  }

  /** The elements from number i on. */
  function PrintItems(j: Json, i: nat): string
    requires j.JArray? && i <= |j.elements|
    decreases j, 0, |j.elements| - i
  {
    if i == |j.elements| then "" else Comma(i) + (Print(j.elements[i]) + PrintItems(j, i + 1))
  }

  /** The members with the keys from number i on. */
  function PrintMembers(j: Json, keys: seq<string>, i: nat): string
    requires j.JObject? && i <= |keys| && forall k :: k in keys ==> k in j.fields
    decreases j, 0, |keys| - i
  {
    if i == |keys| then ""
    else Comma(i) + (Quote(keys[i]) + (":" + (Print(j.fields[keys[i]]) + PrintMembers(j, keys, i + 1))))
  }
}
