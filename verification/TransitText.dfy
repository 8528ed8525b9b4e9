/** The self-describing ciphertext text of the Transit service: how it is
    printed, split and resolved to an owner, a key name and a version. */
module TransitText {
  import opened Wrappers
  import opened Text
  import opened Base64
  import opened Decimal

  // ----- Splitting

  /** The parts of s between the occurrences of c. */
  function Split(s: string, c: char): (parts: seq<string>)
    ensures |parts| > 0
  {
    if s == "" then [""]
    else if s[0] == c then [""] + Split(s[1..], c)
    else
      var rest := Split(s[1..], c);
      [[s[0]] + rest[0]] + rest[1..]
  }

  lemma {:induction false} SplitParts(s: string, c: char)
    ensures forall i :: 0 <= i < |Split(s, c)| ==> c !in Split(s, c)[i]
  {
    if s == "" {
      assert Split(s, c) == [s];
    } else {
      SplitParts(s[1..], c);
      var rest, parts := Split(s[1..], c), Split(s, c);
      forall i | 0 <= i < |parts| ensures c !in parts[i] {
        assert s[0] == c && i > 0 ==> parts[i] == rest[i - 1];
        assert s[0] != c ==> parts[i] == if i == 0 then [s[0]] + rest[0] else rest[i];
      }
    }
  }

  lemma {:induction false} SplitWhole(s: string, c: char)
    requires c !in s
    ensures Split(s, c) == [s]
  {
    if s != "" {
      SplitWhole(s[1..], c);
      assert s == [s[0]] + s[1..];
    }
  }

  lemma {:induction false} SplitHead(a: string, c: char, rest: string)
    requires c !in a
    ensures Split(a + [c] + rest, c) == [a] + Split(rest, c)
  {
    if a == "" {
      assert a + [c] + rest == [c] + rest;
    } else {
      SplitHead(a[1..], c, rest);
      assert (a + [c] + rest)[1..] == a[1..] + [c] + rest;
      assert a == [a[0]] + a[1..];
    }
  }

  /** A text with more than one part is its first part, the separator and what
      splits into the other parts. */
  lemma {:induction false} SplitRest(s: string, c: char)
    requires |Split(s, c)| >= 2
    ensures
      var parts := Split(s, c);
      && c !in parts[0] && |parts[0]| < |s|
      && s == parts[0] + [c] + s[|parts[0]| + 1..]
      && Split(s[|parts[0]| + 1..], c) == parts[1..]
  {
    if s[0] != c {
      var rest := Split(s[1..], c);
      SplitRest(s[1..], c);
      assert s[|rest[0]| + 2..] == s[1..][|rest[0]| + 1..];
      assert s == [s[0]] + s[1..];
    }
  }

  lemma {:induction false} SplitAtLeastTwo(s: string, c: char)
    requires c in s
    ensures |Split(s, c)| >= 2
  {
    if s[0] != c {
      SplitAtLeastTwo(s[1..], c);
    }
  }

  /** The position of the first c, or |s|. */
  function Find(s: string, c: char): (i: nat)
    ensures i <= |s| && (i < |s| ==> s[i] == c) && c !in s[..i]
  {
    if s == "" || s[0] == c then 0 else
      var i := 1 + Find(s[1..], c);
      assert s[..i] == [s[0]] + s[1..][..i - 1];
      i
  }

  lemma {:induction false} FindIsFirst(s: string, c: char, i: nat)
    requires i < |s| && s[i] == c
    ensures Find(s, c) <= i
  {
    if s[0] != c {
      FindIsFirst(s[1..], c, i - 1);
    }
  }

  lemma {:induction false} FindAfter(a: string, c: char, rest: string)
    requires c !in a
    ensures Find(a + [c] + rest, c) == |a|
  {
    if a != "" {
      FindAfter(a[1..], c, rest);
      assert (a + [c] + rest)[1..] == a[1..] + [c] + rest;
    }
  }

  // ----- Key references

  predicate ValidKeyName(name: string) {
    name != "" && Strip(name) == name && ':' !in name
  }

  /** The owner address before the first '/', when it is one. */
  function EmbeddedOwner(reference: string): Option<string> {
    if '/' in reference then CanonicalEmail(reference[..Find(reference, '/')]) else None
  }

  function ReferencedName(reference: string): string {
    if EmbeddedOwner(reference).Some? && Find(reference, '/') < |reference|
    then reference[Find(reference, '/') + 1..] else reference
  }

  datatype Resolved = Resolved(ownerEmail: string, keyName: string, qualified: bool)

  /** The key a reference denotes for a requester; None for INVALID_INPUT. */
  function ResolveKeyReference(requester: string, reference: string, keyOwner: Option<string>): Option<Resolved> {
    var embedded := EmbeddedOwner(reference);
    var explicit := if keyOwner == None then None else CanonicalEmail(keyOwner.value);
    if keyOwner.Some? && explicit == None then None
    else if embedded.Some? && explicit.Some? && embedded != explicit then None
    else Some(Resolved(
      if embedded.Some? then embedded.value else if explicit.Some? then explicit.value else requester,
      ReferencedName(reference),
      embedded.Some? || explicit.Some?))
  }

  lemma {:induction false} StripContains(s: string, c: char)
    ensures c in Strip(s) ==> c in s
  {
    StripLeftContains(s, c);
    StripRightContains(StripLeft(s), c);
  }

  lemma {:induction false} StripLeftContains(s: string, c: char)
    ensures c in StripLeft(s) ==> c in s
  {
    if s != "" && IsSpace(s[0]) {
      StripLeftContains(s[1..], c);
    }
  }

  lemma {:induction false} StripRightContains(s: string, c: char)
    ensures c in StripRight(s) ==> c in s
  {
    if s != "" && IsSpace(s[|s| - 1]) {
      StripRightContains(s[..|s| - 1], c);
    }
  }

  lemma LowerContains(s: string, c: char)
    requires !('a' <= c <= 'z')
    ensures c in Lower(s) ==> c in s
  {
    if c in Lower(s) {
      var i :| 0 <= i < |s| && Lower(s)[i] == c;
      assert s[i] == c;
    }
  }

  /** An owner read out of a reference has no '/'. */
  lemma EmbeddedOwnerHasNoSlash(reference: string)
    requires EmbeddedOwner(reference).Some?
    ensures '/' !in EmbeddedOwner(reference).value
  {
    var prefix := reference[..Find(reference, '/')];
    StripContains(prefix, '/');
    LowerContains(Strip(prefix), '/');
  }

  /** And no ':' unless the reference has one. */
  lemma EmbeddedOwnerHasNoSeparators(reference: string)
    requires EmbeddedOwner(reference).Some? && ':' !in reference
    ensures ':' !in EmbeddedOwner(reference).value && '/' !in EmbeddedOwner(reference).value
  {
    var prefix := reference[..Find(reference, '/')];
    EmbeddedOwnerHasNoSlash(reference);
    StripContains(prefix, ':');
    LowerContains(Strip(prefix), ':');
  }

  // ----- Which keys their owner can name

  /** A bare name denotes the caller's own key of that name exactly when the name
      does not itself start with an address and a slash. */
  lemma BareNameIsOwn(requester: string, name: string)
    ensures ResolveKeyReference(requester, name, None) == Some(Resolved(requester, name, false))
        <==> EmbeddedOwner(name) == None
  {
    hide EmbeddedOwner;
  }

  /** Naming the owner besides works under the same condition, unless the name
      starts with the owner's own address. */
  lemma OwnedNameIsOwn(owner: string, name: string)
    requires IsCanonicalEmail(owner)
    ensures ResolveKeyReference(owner, name, Some(owner)) == Some(Resolved(owner, name, true))
        <==> EmbeddedOwner(name) == None
  {
    hide IsCanonicalEmail, CanonicalEmail, EmbeddedOwner;
    CanonicalEmailFixed(owner);
    if EmbeddedOwner(name).Some? {
      NameIsShorter(name);
    }
  }

  lemma NameIsShorter(reference: string)
    requires EmbeddedOwner(reference).Some?
    ensures |ReferencedName(reference)| < |reference|
  {
    hide CanonicalEmail;
    var i :| 0 <= i < |reference| && reference[i] == '/';
    FindIsFirst(reference, '/', i);
  }

  /** The reference, for this requester, denotes the key (owner, name). */
  predicate Denotes(requester: string, reference: string, keyOwner: Option<string>, owner: string, name: string) {
    var r := ResolveKeyReference(requester, reference, keyOwner);
    r.Some? && r.value.ownerEmail == owner && r.value.keyName == name
  }

  /** Some reference denotes a key of its owner's, for himself, exactly when its
      name does not start with an address and a slash or the owner's address has
      no slash. The keys left over can be created and shared and never used. */
  lemma OwnKeyIsNameable(owner: string, name: string)
    requires IsCanonicalEmail(owner)
    ensures (exists reference, keyOwner :: Denotes(owner, reference, keyOwner, owner, name))
        <==> (EmbeddedOwner(name) == None || '/' !in owner)
  {
    hide IsCanonicalEmail, CanonicalEmail, EmbeddedOwner, ReferencedName;
    if EmbeddedOwner(name) == None {
      BareNameIsOwn(owner, name);
      assert Denotes(owner, name, None, owner, name);
    } else if '/' !in owner {
      QualifiedReference(owner, name);
      assert Denotes(owner, Identifier(owner, name, true), None, owner, name);
    }
    forall reference, keyOwner | Denotes(owner, reference, keyOwner, owner, name)
      ensures EmbeddedOwner(name) == None || '/' !in owner
    {
      if EmbeddedOwner(reference).Some? {
        EmbeddedOwnerHasNoSlash(reference);
      } else {
        UnqualifiedName(reference);
      }
    }
  }

  lemma UnqualifiedName(reference: string)
    requires EmbeddedOwner(reference) == None
    ensures ReferencedName(reference) == reference
  {
    hide EmbeddedOwner;
  }

  // ----- Ciphertext text

  function Identifier(ownerEmail: string, keyName: string, qualified: bool): string {
    if qualified then ownerEmail + "/" + keyName else keyName
  }

  function VersionText(version: int): string {
    "v" + PrintInt(version)
  }

  function Fields(identifier: string, version: int, encoded: string): string {
    if version == 1 then identifier + ":" + encoded
    else identifier + ":" + (VersionText(version) + ":" + encoded)
  }

  function PrintCiphertext(identifier: string, version: int, encoded: string): string {
    "vault" + ":" + Fields(identifier, version, encoded)
  }

  datatype Parsed = Parsed(reference: string, version: nat, encoded: string)

  function ParseVersion(text: string): Option<nat> {
    if text == "" || text[0] != 'v' || text == "v" || !AllDigits(text[1..]) then None
    else
      var n := ParseNat(text[1..]);
      if n < 1 || text != VersionText(n) then None else Some(n)
  }

  /** None for INVALID_CIPHERTEXT. */
  function ParseCiphertext(text: string): Option<Parsed> {
    var parts := Split(text, ':');
    if |parts| == 3 && parts[0] == "vault" then Some(Parsed(parts[1], 1, parts[2]))
    else if |parts| == 4 && parts[0] == "vault" then
      match ParseVersion(parts[2])
      case None => None
      case Some(n) => Some(Parsed(parts[1], n, parts[3]))
    else None
  }

  lemma ParseVersionText(version: nat)
    requires version >= 1
    ensures ParseVersion(VersionText(version)) == Some(version)
    ensures ':' !in VersionText(version)
  {
    ParsePrint(version);
    assert VersionText(version)[1..] == PrintNat(version);
    forall i | 0 <= i < |VersionText(version)| ensures VersionText(version)[i] != ':' {
      if i > 0 {
        assert VersionText(version)[i] == PrintNat(version)[i - 1];
      }
    }
  }

  lemma EncodedHasNoColon(b: Bytes)
    ensures ':' !in Encode(b)
  {
    var s := Chars(Sextets(b));
    forall i | 0 <= i < |Encode(b)| ensures Encode(b)[i] != ':' {
      if i < |s| {
        NoColonInAlphabet(Sextets(b)[i]);
      }
    }
  }

  lemma NoColonInAlphabet(v: Sextet)
    ensures ToChar(v) != ':'
  {
    FromToChar(v);
  }

  lemma SplitFields(identifier: string, version: int, encoded: string)
    requires ':' !in identifier && ':' !in encoded && version >= 1
    ensures Split(Fields(identifier, version, encoded), ':')
         == if version == 1 then [identifier, encoded] else [identifier, VersionText(version), encoded]
  {
    hide ParseVersion, VersionText, Split;
    SplitWhole(encoded, ':');
    if version == 1 {
      SplitHead(identifier, ':', encoded);
    } else {
      ParseVersionText(version);
      SplitHead(identifier, ':', VersionText(version) + ":" + encoded);
      SplitHead(VersionText(version), ':', encoded);
    }
  }

  /** Printed text without a colon in its identifier splits into its fields. */
  lemma ParsePrinted(identifier: string, version: int, encoded: string)
    requires ':' !in identifier && ':' !in encoded && version >= 1
    ensures ParseCiphertext(PrintCiphertext(identifier, version, encoded))
         == Some(Parsed(identifier, version, encoded))
  {
    hide ParseVersion, VersionText, Split, Fields;
    SplitFields(identifier, version, encoded);
    SplitHead("vault", ':', Fields(identifier, version, encoded));
    ParseVersionText(version);
  }

  lemma ParsedReferenceHasNoColon(text: string)
    requires ParseCiphertext(text).Some?
    ensures ':' !in ParseCiphertext(text).value.reference
  {
    SplitParts(text, ':');
  }

  /** A reference of the form owner/name denotes that owner and name when the
      owner has no '/'. */
  lemma QualifiedReference(ownerEmail: string, keyName: string)
    requires IsCanonicalEmail(ownerEmail) && '/' !in ownerEmail
    ensures EmbeddedOwner(Identifier(ownerEmail, keyName, true)) == Some(ownerEmail)
    ensures ReferencedName(Identifier(ownerEmail, keyName, true)) == keyName
  {
    var reference := ownerEmail + "/" + keyName;
    FindAfter(ownerEmail, '/', keyName);
    assert reference[|ownerEmail|] == '/';
    assert reference[..|ownerEmail|] == ownerEmail;
    CanonicalEmailFixed(ownerEmail);
    assert reference[|ownerEmail| + 1..] == keyName;
  }

  /** The printed text is read back as the same owner, name, version and payload. */
  ghost predicate ReadsBack(text: string, ownerEmail: string, keyName: string, version: nat, encoded: string) {
    && ParseCiphertext(text).Some?
    && var p := ParseCiphertext(text).value;
    && p.version == version && p.encoded == encoded
    && EmbeddedOwner(p.reference) == Some(ownerEmail) && ReferencedName(p.reference) == keyName
  }

  /** A qualified text is read back exactly when the owner's address contains
      neither ':' nor '/'. */
  lemma QualifiedTextReadsBack(ownerEmail: string, keyName: string, version: nat, payload: Bytes)
    requires IsCanonicalEmail(ownerEmail) && ValidKeyName(keyName) && version >= 1
    ensures
      var text := PrintCiphertext(Identifier(ownerEmail, keyName, true), version, Encode(payload));
      ReadsBack(text, ownerEmail, keyName, version, Encode(payload)) <==> (':' !in ownerEmail && '/' !in ownerEmail)
  {
    hide ParseCiphertext, PrintCiphertext, IsEmail, Encode, EmbeddedOwner, ReferencedName;
    var text := PrintCiphertext(Identifier(ownerEmail, keyName, true), version, Encode(payload));
    if ':' !in ownerEmail && '/' !in ownerEmail {
      EncodedHasNoColon(payload);
      QualifiedReference(ownerEmail, keyName);
      ParsePrinted(Identifier(ownerEmail, keyName, true), version, Encode(payload));
    }
    if ReadsBack(text, ownerEmail, keyName, version, Encode(payload)) {
      ParsedReferenceHasNoColon(text);
      EmbeddedOwnerHasNoSeparators(ParseCiphertext(text).value.reference);
    }
  }

  lemma XyzIsAddress()
    ensures IsCanonicalEmail("x@y.z")
  {
    var owner := "x@y.z";
    assert owner[1] == '@' && owner[3] == '.';
    assert IsEmail(owner);
    LowerFixed(owner);
  }

  /** A valid key name that starts with an address and a slash. */
  lemma AddressInName()
    ensures ValidKeyName("x@y.z/k") && EmbeddedOwner("x@y.z/k") == Some("x@y.z")
  {
    hide IsCanonicalEmail, EmbeddedOwner, Strip;
    XyzIsAddress();
    StripIsIdentity("x@y.z/k");
    QualifiedReference("x@y.z", "k");
    assert Identifier("x@y.z", "k", true) == "x@y.z/k";
  }

  /** The address pattern admits a '/'. */
  lemma SlashIsAdmitted()
    ensures IsCanonicalEmail("a/b@c.d")
  {
    var owner := "a/b@c.d";
    assert owner[3] == '@' && owner[5] == '.';
    assert IsEmail(owner);
    LowerFixed(owner);
  }

  // ----- Who can get back to the key of a printed text

  /** reader, possibly with an explicit owner argument, names the owner under
      which the text was issued, and that owner's address survives the text. */
  predicate NamesOwner(r: Resolved, reader: string, readerOwner: Option<string>) {
    if r.qualified
    then ':' !in r.ownerEmail && '/' !in r.ownerEmail
         && (readerOwner == None || CanonicalEmail(readerOwner.value) == Some(r.ownerEmail))
    else (if readerOwner == None then reader == r.ownerEmail
          else CanonicalEmail(readerOwner.value) == Some(r.ownerEmail))
  }

  lemma QualifiedOwnerIsCanonical(requester: string, reference: string, keyOwner: Option<string>)
    requires ResolveKeyReference(requester, reference, keyOwner).Some?
    requires ResolveKeyReference(requester, reference, keyOwner).value.qualified
    ensures IsCanonicalEmail(ResolveKeyReference(requester, reference, keyOwner).value.ownerEmail)
  {
    hide CanonicalEmail, IsCanonicalEmail, Find;
    if EmbeddedOwner(reference).Some? {
      CanonicalEmailIsCanonical(reference[..Find(reference, '/')]);
    } else {
      CanonicalEmailIsCanonical(keyOwner.value);
    }
  }

  lemma SlashIsNoVersion(text: string)
    requires '/' in text
    ensures ParseVersion(text) == None
  {
    hide VersionText, ParseNat;
    if text[0] == 'v' {
      var i :| 0 <= i < |text| && text[i] == '/';
      assert text[1..][i - 1] == '/';
    }
  }

  lemma SlashBeforeColon(x: string, tail: string)
    requires '/' in x
    ensures
      var parts := Split(x + ":" + tail, ':');
      |parts| >= 3 || (|parts| == 2 && '/' in parts[0])
  {
    hide Split;
    if ':' in x {
      var j := Find(x, ':');
      var more := x[j + 1..] + ":" + tail;
      assert x + ":" + tail == x[..j] + ":" + more;
      SplitHead(x[..j], ':', more);
      assert more[|x[j + 1..]|] == ':';
      SplitAtLeastTwo(more, ':');
    } else {
      SplitHead(x, ':', tail);
    }
  }

  lemma FieldsAfterColon(first: string, second: string, keyName: string, version: int, encoded: string)
    ensures
      var tail := if version == 1 then encoded else VersionText(version) + ":" + encoded;
      PrintCiphertext(Identifier(first + ":" + second, keyName, true), version, encoded)
        == "vault" + ":" + (first + ":" + ((second + "/" + keyName) + ":" + tail))
  {
    hide VersionText;
  }

  lemma TooManyParts(text: string)
    requires
      var parts := Split(text, ':');
      |parts| >= 5 || (|parts| == 4 && '/' in parts[2])
    ensures ParseCiphertext(text) == None
  {
    hide Split, ParseVersion;
    if |Split(text, ':')| == 4 {
      SlashIsNoVersion(Split(text, ':')[2]);
    }
  }

  /** The text has more colons than fields, or a slash where the version is. */
  lemma ColonDoesNotParse(ownerEmail: string, keyName: string, version: int, encoded: string)
    requires ':' in ownerEmail
    ensures ParseCiphertext(PrintCiphertext(Identifier(ownerEmail, keyName, true), version, encoded)) == None
  {
    hide Split, ParseCiphertext, PrintCiphertext, Identifier, VersionText;
    var i := Find(ownerEmail, ':');
    var first, second := ownerEmail[..i], ownerEmail[i + 1..];
    assert ownerEmail == first + ":" + second;
    FieldsAfterColon(first, second, keyName, version, encoded);
    var tail := if version == 1 then encoded else VersionText(version) + ":" + encoded;
    var x := second + "/" + keyName;
    assert x[|second|] == '/';
    SlashBeforeColon(x, tail);
    SplitHead(first, ':', x + ":" + tail);
    SplitHead("vault", ':', first + ":" + (x + ":" + tail));
    TooManyParts("vault" + ":" + (first + ":" + (x + ":" + tail)));
  }

  /** Printed text parses to what was printed unless its identifier has a colon,
      and then not at all. */
  lemma PrintedParses(r: Resolved, version: int, payload: Bytes)
    requires ValidKeyName(r.keyName) && version >= 1
    ensures
      var identifier := Identifier(r.ownerEmail, r.keyName, r.qualified);
      ParseCiphertext(PrintCiphertext(identifier, version, Encode(payload)))
        == if r.qualified && ':' in r.ownerEmail then None else Some(Parsed(identifier, version, Encode(payload)))
  {
    hide ParseCiphertext, PrintCiphertext, Encode;
    EncodedHasNoColon(payload);
    if r.qualified && ':' in r.ownerEmail {
      ColonDoesNotParse(r.ownerEmail, r.keyName, version, Encode(payload));
    } else {
      ParsePrinted(Identifier(r.ownerEmail, r.keyName, r.qualified), version, Encode(payload));
    }
  }

  /** With a '/' in the owner the name read back is always a longer one. */
  lemma SlashGivesLongerName(ownerEmail: string, keyName: string)
    requires '/' in ownerEmail
    ensures |ReferencedName(Identifier(ownerEmail, keyName, true))| > |keyName|
  {
    hide CanonicalEmail;
    var reference := Identifier(ownerEmail, keyName, true);
    var i :| 0 <= i < |ownerEmail| && ownerEmail[i] == '/';
    assert reference[i] == '/';
    FindIsFirst(reference, '/', i);
  }

  /** The identifier that encryption prints resolves to the same owner and key
      exactly when the reader names the owner. */
  lemma PrintedIdentifierResolves(
    requester: string, reference: string, keyOwner: Option<string>, reader: string, readerOwner: Option<string>)
    requires ResolveKeyReference(requester, reference, keyOwner).Some?
    requires
      var r := ResolveKeyReference(requester, reference, keyOwner).value;
      r.qualified ==> ':' !in r.ownerEmail
    ensures
      var r := ResolveKeyReference(requester, reference, keyOwner).value;
      var again := ResolveKeyReference(reader, Identifier(r.ownerEmail, r.keyName, r.qualified), readerOwner);
      (again.Some? && again.value.ownerEmail == r.ownerEmail && again.value.keyName == r.keyName)
        <==> NamesOwner(r, reader, readerOwner)
  {
    hide CanonicalEmail, IsCanonicalEmail;
    var r := ResolveKeyReference(requester, reference, keyOwner).value;
    if r.qualified {
      QualifiedOwnerIsCanonical(requester, reference, keyOwner);
      if '/' in r.ownerEmail {
        SlashGivesLongerName(r.ownerEmail, r.keyName);
      } else {
        QualifiedReference(r.ownerEmail, r.keyName);
      }
    } else {
      assert EmbeddedOwner(reference) == None && r.keyName == reference;
    }
  }

  /** Reading the text leads to the owner, key name, version and payload. */
  predicate LeadsBack(
    text: string, r: Resolved, version: int, encoded: string, reader: string, readerOwner: Option<string>)
  {
    && ParseCiphertext(text).Some?
    && var p := ParseCiphertext(text).value;
    && p.version == version && p.encoded == encoded
    && var again := ResolveKeyReference(reader, p.reference, readerOwner);
    && again.Some? && again.value.ownerEmail == r.ownerEmail && again.value.keyName == r.keyName
  }

  /** A printed text leads a reader back to its key exactly when the reader names
      the owner, for every reference that encryption resolved, every version and
      every payload. */
  lemma PrintedTextLeadsBack(
    requester: string, reference: string, keyOwner: Option<string>, version: nat, payload: Bytes,
    reader: string, readerOwner: Option<string>)
    requires ResolveKeyReference(requester, reference, keyOwner).Some? && version >= 1
    requires ValidKeyName(ResolveKeyReference(requester, reference, keyOwner).value.keyName)
    ensures
      var r := ResolveKeyReference(requester, reference, keyOwner).value;
      var text := PrintCiphertext(Identifier(r.ownerEmail, r.keyName, r.qualified), version, Encode(payload));
      LeadsBack(text, r, version, Encode(payload), reader, readerOwner) <==> NamesOwner(r, reader, readerOwner)
  {
    hide ParseCiphertext, PrintCiphertext, Encode, ResolveKeyReference, ValidKeyName;
    var r := ResolveKeyReference(requester, reference, keyOwner).value;
    PrintedParses(r, version, payload);
    if !(r.qualified && ':' in r.ownerEmail) {
      PrintedIdentifierResolves(requester, reference, keyOwner, reader, readerOwner);
    }
  }

  /** Some reference, and some way of reading the text printed for it, lead the
      owner of a key back to it exactly when its name does not start with an
      address and a slash or the owner's address has neither separator. */
  lemma OwnKeyIsUsable(owner: string, name: string)
    requires IsCanonicalEmail(owner)
    ensures (exists reference, keyOwner, readerOwner :: UsedWith(owner, name, reference, keyOwner, readerOwner))
        <==> (EmbeddedOwner(name) == None || (':' !in owner && '/' !in owner))
  {
    hide IsCanonicalEmail, CanonicalEmail, EmbeddedOwner, ReferencedName;
    if EmbeddedOwner(name) == None {
      BareNameIsOwn(owner, name);
      assert UsedWith(owner, name, name, None, None);
    } else if ':' !in owner && '/' !in owner {
      QualifiedReference(owner, name);
      assert UsedWith(owner, name, Identifier(owner, name, true), None, None);
    }
    forall reference, keyOwner, readerOwner | UsedWith(owner, name, reference, keyOwner, readerOwner)
      ensures EmbeddedOwner(name) == None || (':' !in owner && '/' !in owner)
    {
      var r := ResolveKeyReference(owner, reference, keyOwner).value;
      if !r.qualified {
        UnqualifiedName(reference);
      }
    }
  }

  predicate UsedWith(
    owner: string, name: string, reference: string, keyOwner: Option<string>, readerOwner: Option<string>)
  {
    && Denotes(owner, reference, keyOwner, owner, name)
    && NamesOwner(ResolveKeyReference(owner, reference, keyOwner).value, owner, readerOwner)
  }

  // ----- Associated data of ciphertexts

  function CiphertextAad(keyName: string, version: int): string {
    "mini-vault:transit:v1:" + keyName + (if version > 1 then ":" + VersionText(version) else "")
  }

  /** Different keys or versions never share associated data, because names have
      no colon. */
  lemma CiphertextAadIsInjective(name: string, version: nat, otherName: string, otherVersion: nat)
    requires ':' !in name && ':' !in otherName && version >= 1 && otherVersion >= 1
    ensures CiphertextAad(name, version) == CiphertextAad(otherName, otherVersion)
        <==> name == otherName && version == otherVersion
  {
    hide VersionText, ParseVersion, Split;
    AadTail(name, version);
    AadTail(otherName, otherVersion);
    var prefix := "mini-vault:transit:v1:";
    var tail := name + (if version > 1 then ":" + VersionText(version) else "");
    var otherTail := otherName + (if otherVersion > 1 then ":" + VersionText(otherVersion) else "");
    assert CiphertextAad(name, version)[|prefix|..] == tail;
    assert CiphertextAad(otherName, otherVersion)[|prefix|..] == otherTail;
    if tail == otherTail {
      assert Split(tail, ':')[0] == name && Split(otherTail, ':')[0] == otherName;
      if version > 1 && otherVersion > 1 {
        ParseVersionText(version);
        ParseVersionText(otherVersion);
      }
    }
  }

  lemma AadTail(name: string, version: nat)
    requires ':' !in name && version >= 1
    ensures Split(name + (if version > 1 then ":" + VersionText(version) else ""), ':')
         == if version > 1 then [name, VersionText(version)] else [name]
  {
    hide VersionText, ParseVersion, Split;
    if version > 1 {
      ParseVersionText(version);
      SplitHead(name, ':', VersionText(version));
      SplitWhole(VersionText(version), ':');
      assert name + (":" + VersionText(version)) == name + ":" + VersionText(version);
    } else {
      assert name + "" == name;
      SplitWhole(name, ':');
    }
  }
}
