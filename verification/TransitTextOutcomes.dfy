/** Exactly which texts the Transit service reads and prints: key names, key
    references, ciphertexts and associated data, character by character. */
module TransitTextOutcomes {
  import opened Wrappers
  import opened Text
  import opened Decimal
  import opened TransitText

  // ----- Key names

  /** A key name has no white space at its ends and no colon. */
  lemma NamesExactly(name: string)
    ensures ValidKeyName(name) <==>
      name != "" && !IsSpace(name[0]) && !IsSpace(name[|name| - 1]) && ':' !in name
  {
    hide IsSpace, Strip;
    StripsExactly(name, name);
    assert name == "" + name + "";
    assert Blank("");
    if Strip(name) == name && name != "" {
      NothingTrimmed(name);
    }
    if name != "" && !IsSpace(name[0]) && !IsSpace(name[|name| - 1]) {
      StripIsIdentity(name);
    }
  }

  lemma NothingTrimmed(name: string)
    requires IsTrimmed(name, name) && name != ""
    ensures !IsSpace(name[0]) && !IsSpace(name[|name| - 1])
  {
  }

  // ----- References

  /** The reference starts with an address and a slash. */
  ghost predicate StartsWithOwner(reference: string, prefix: string, owner: string, name: string) {
    reference == prefix + "/" + name && '/' !in prefix && CanonicalEmail(prefix) == Some(owner)
  }

  lemma EmbeddedExactly(reference: string, prefix: string, owner: string, name: string)
    requires StartsWithOwner(reference, prefix, owner, name)
    ensures EmbeddedOwner(reference) == Some(owner) && ReferencedName(reference) == name
  {
    hide CanonicalEmail;
    FindAfter(prefix, '/', name);
    assert reference == prefix + ['/'] + name;
    assert reference[|prefix|] == '/';
    assert reference[..|prefix|] == prefix && reference[|prefix| + 1..] == name;
  }

  lemma CutAt(s: string, i: nat)
    requires i < |s|
    ensures s == s[..i] + [s[i]] + s[i + 1..]
  {
  }

  lemma EmbeddedSplits(reference: string)
    requires EmbeddedOwner(reference).Some?
    ensures
      var i := Find(reference, '/');
      && i < |reference|
      && StartsWithOwner(reference, reference[..i], EmbeddedOwner(reference).value, ReferencedName(reference))
  {
    hide CanonicalEmail, Find;
    var k :| 0 <= k < |reference| && reference[k] == '/';
    FindIsFirst(reference, '/', k);
    CutAt(reference, Find(reference, '/'));
  }

  /** What a reference denotes: owner and name where it starts with an address and
      a slash, a name of the given owner or else of the caller where it does not;
      no key when the given owner is no address or another one. */
  lemma ReferencesExactly(requester: string, reference: string, keyOwner: Option<string>, r: Resolved)
    ensures ResolveKeyReference(requester, reference, keyOwner) == Some(r) <==>
      if exists prefix, owner, name :: StartsWithOwner(reference, prefix, owner, name)
      then
        && (exists prefix :: StartsWithOwner(reference, prefix, r.ownerEmail, r.keyName))
        && r.qualified
        && (keyOwner.Some? ==> CanonicalEmail(keyOwner.value) == Some(r.ownerEmail))
      else
        && r.keyName == reference
        && (r.qualified <==> keyOwner.Some?)
        && (if keyOwner.Some? then CanonicalEmail(keyOwner.value) == Some(r.ownerEmail) else r.ownerEmail == requester)
  {
    hide CanonicalEmail, EmbeddedOwner, ReferencedName, StartsWithOwner;
    if EmbeddedOwner(reference).Some? {
      EmbeddedSplits(reference);
    } else {
      UnqualifiedName(reference);
    }
    forall prefix, owner, name | StartsWithOwner(reference, prefix, owner, name)
      ensures EmbeddedOwner(reference) == Some(owner) && ReferencedName(reference) == name
    {
      EmbeddedExactly(reference, prefix, owner, name);
    }
  }

  // ----- Ciphertexts

  /** The two forms of a ciphertext. */
  ghost predicate IsCiphertext(text: string, reference: string, version: nat, encoded: string) {
    && version >= 1 && ':' !in reference && ':' !in encoded
    && (|| (version == 1 && text == "vault:" + reference + ":" + encoded)
        || text == "vault:" + reference + ":v" + PrintNat(version) + ":" + encoded)
  }

  lemma {:induction false} SplitJoins(s: string, c: char)
    ensures |Split(s, c)| == 1 ==> s == Split(s, c)[0]
    ensures |Split(s, c)| == 2 ==> s == Split(s, c)[0] + [c] + Split(s, c)[1]
    ensures |Split(s, c)| == 3 ==> s == Split(s, c)[0] + [c] + Split(s, c)[1] + [c] + Split(s, c)[2]
    ensures |Split(s, c)| == 4 ==>
      s == Split(s, c)[0] + [c] + Split(s, c)[1] + [c] + Split(s, c)[2] + [c] + Split(s, c)[3]
    decreases |s|
  {
    hide Split;
    if |Split(s, c)| >= 2 {
      SplitRest(s, c);
      SplitJoins(s[|Split(s, c)[0]| + 1..], c);
    } else {
      OnePart(s, c);
    }
  }

  lemma OnePart(s: string, c: char)
    requires |Split(s, c)| == 1
    ensures s == Split(s, c)[0]
  {
    if c in s {
      SplitAtLeastTwo(s, c);
    } else {
      SplitWhole(s, c);
    }
  }

  lemma VersionsExactly(text: string, version: nat)
    ensures ParseVersion(text) == Some(version) <==> version >= 1 && text == "v" + PrintNat(version)
  {
    hide PrintNat, ParseNat;
    if version >= 1 {
      ParseVersionText(version);
    }
  }

  lemma JoinedForm(reference: string, middle: string, encoded: string)
    ensures "vault" + ":" + reference + ":" + encoded == "vault:" + reference + ":" + encoded
    ensures "vault" + ":" + reference + ":" + middle + ":" + encoded
         == "vault:" + reference + ":" + middle + ":" + encoded
  {
    assert "vault" + ":" == "vault:";
  }

  lemma VersionJoined(reference: string, version: nat, encoded: string)
    ensures "vault:" + reference + ":" + ("v" + PrintNat(version)) + ":" + encoded
         == "vault:" + reference + ":v" + PrintNat(version) + ":" + encoded
  {
    hide PrintNat;
    assert ":" + ("v" + PrintNat(version)) == ":v" + PrintNat(version);
    assert "vault:" + reference + ":" + ("v" + PrintNat(version))
      == "vault:" + reference + (":" + ("v" + PrintNat(version)));
    assert "vault:" + reference + ":v" + PrintNat(version) == "vault:" + reference + (":v" + PrintNat(version));
  }

  /** Exactly the two forms are read. */
  lemma CiphertextsExactly(text: string, reference: string, version: nat, encoded: string)
    ensures ParseCiphertext(text) == Some(Parsed(reference, version, encoded))
        <==> IsCiphertext(text, reference, version, encoded)
  {
    hide Split, ParseVersion, PrintNat;
    if ParseCiphertext(text) == Some(Parsed(reference, version, encoded)) {
      var parts := Split(text, ':');
      SplitParts(text, ':');
      SplitJoins(text, ':');
      JoinedForm(reference, parts[2], encoded);
      if |parts| == 4 {
        VersionsExactly(parts[2], version);
        VersionJoined(reference, version, encoded);
      }
    }
    if IsCiphertext(text, reference, version, encoded) {
      IsRead(text, reference, version, encoded);
    }
  }

  lemma IsRead(text: string, reference: string, version: nat, encoded: string)
    requires IsCiphertext(text, reference, version, encoded)
    ensures ParseCiphertext(text) == Some(Parsed(reference, version, encoded))
  {
    hide Split, ParseVersion, PrintNat;
    SplitWhole(encoded, ':');
    if version == 1 && text == "vault:" + reference + ":" + encoded {
      SplitHead(reference, ':', encoded);
      assert text == "vault" + [':'] + (reference + [':'] + encoded);
      SplitHead("vault", ':', reference + [':'] + encoded);
    } else {
      var middle := "v" + PrintNat(version);
      ParseVersionText(version);
      SplitHead(middle, ':', encoded);
      SplitHead(reference, ':', middle + [':'] + encoded);
      VersionJoined(reference, version, encoded);
      assert text == "vault" + [':'] + (reference + [':'] + (middle + [':'] + encoded));
      SplitHead("vault", ':', reference + [':'] + (middle + [':'] + encoded));
    }
  }

  /** What is printed: the owner where the key was named with one, and the version
      where it is not the first. */
  lemma PrintsExactly(owner: string, name: string, qualified: bool, version: nat, encoded: string)
    requires version >= 1
    ensures PrintCiphertext(Identifier(owner, name, qualified), version, encoded)
      == "vault:" + (if qualified then owner + "/" + name else name)
         + (if version == 1 then ":" else ":v" + PrintNat(version) + ":") + encoded
  {
    hide PrintNat;
    var identifier := Identifier(owner, name, qualified);
    if version == 1 {
      assert "vault" + ":" + (identifier + ":" + encoded) == "vault:" + identifier + ":" + encoded;
    } else {
      var v := "v" + PrintNat(version);
      assert ":v" + PrintNat(version) + ":" == ":" + v + ":";
      assert "vault" + ":" + (identifier + ":" + (v + ":" + encoded))
        == "vault:" + identifier + (":" + v + ":") + encoded;
    }
  }

  /** The associated data of a ciphertext. */
  lemma AadsExactly(name: string, version: nat)
    requires version >= 1
    ensures CiphertextAad(name, version)
      == "mini-vault:transit:v1:" + name + (if version == 1 then "" else ":v" + PrintNat(version))
  {
    hide PrintNat;
    assert ":" + ("v" + PrintNat(version)) == ":v" + PrintNat(version);
  }
}
