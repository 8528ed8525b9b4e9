/** Exactly what the calls of the policy repository accept, change and answer,
    with the permissions and the conditions written out. */
module PolicyOutcomes {
  import opened Wrappers
  import opened Text
  import opened Policies
  import opened PolicyTheorems

  /** The permissions there are. */
  ghost predicate Exists(t: ResourceType, permission: string) {
    match t
    case KvSecret => permission == "READ" || permission == "WRITE" || permission == "DELETE"
    case TransitKey =>
      permission == "ENCRYPT" || permission == "DECRYPT" || permission == "SIGN" || permission == "VERIFY"
  }

  /** One of the texts is this permission, in any case and with white space around. */
  ghost predicate Mentions(texts: seq<string>, permission: string) {
    exists text :: text in texts && Upper(Strip(text)) == permission
  }

  /** At least one text, and each is a permission. */
  ghost predicate Legible(t: ResourceType, texts: seq<string>) {
    texts != [] && forall text :: text in texts ==> Exists(t, Upper(Strip(text)))
  }

  /** A lower-case address. */
  ghost predicate Addressable(s: string) {
    IsEmail(s) && forall i :: 0 <= i < |s| ==> !('A' <= s[i] <= 'Z')
  }

  /** A resource can be shared with another address than its owner's. */
  ghost predicate Shareable(key: Key, who: string) {
    Addressable(key.ownerEmail) && key.resourceId != "" && Addressable(who) && who != key.ownerEmail
  }

  lemma AddressableIsCanonical(s: string)
    ensures Addressable(s) <==> IsCanonicalEmail(s)
  {
    hide IsEmail, Lower;
    LowerFixed(s);
  }

  lemma ShareableIsTarget(key: Key, who: string)
    ensures Shareable(key, who) <==> ValidTarget(key, who)
  {
    hide Addressable, IsCanonicalEmail;
    AddressableIsCanonical(key.ownerEmail);
    AddressableIsCanonical(who);
  }

  lemma AllowedExists(t: ResourceType, permission: string)
    ensures permission in Allowed(t) <==> Exists(t, permission)
  {
  }

  /** Texts are accepted exactly when each stands for an allowed permission. */
  lemma AcceptsExactly(texts: seq<string>, allowed: set<string>)
    requires "" !in allowed
    ensures NormalizePermissions(texts, allowed).Success? <==>
      texts != [] && forall text :: text in texts ==> Upper(Strip(text)) in allowed
  {
    hide SortUnique, Strip, Upper;
    forall i | 0 <= i < |texts|
      ensures texts[i] in texts && Cleaned(texts)[i] == Upper(Strip(texts[i]))
      ensures Upper(Strip(texts[i])) in allowed ==> Strip(texts[i]) != ""
    {
      UpperOfEmpty(Strip(texts[i]));
    }
    if NormalizePermissions(texts, allowed).Success? {
      forall text | text in texts ensures Upper(Strip(text)) in allowed {
        var i :| 0 <= i < |texts| && texts[i] == text;
        assert Cleaned(texts)[i] in allowed;
      }
    }
  }

  lemma UpperOfEmpty(s: string)
    ensures Upper(s) == "" <==> s == ""
  {
    assert |Upper(s)| == |s|;
  }

  /** And they stand for the permissions they mention, each once and in
      alphabetical order. */
  lemma NormalizesTo(texts: seq<string>, allowed: set<string>)
    requires NormalizePermissions(texts, allowed).Success?
    ensures
      var r := NormalizePermissions(texts, allowed).value;
      && (forall i, j :: 0 <= i < j < |r| ==> Less(r[i], r[j]))
      && forall p :: p in r <==> Mentions(texts, p)
  {
    hide Less, SortUnique, Strip, Upper, NormalizePermissions;
    NormalizedIsValid(texts, allowed);
    var r := NormalizePermissions(texts, allowed).value;
    forall p ensures p in r <==> Mentions(texts, p) {
      if p in r {
        var i :| 0 <= i < |texts| && p == Upper(Strip(texts[i]));
        assert texts[i] in texts;
      }
      if Mentions(texts, p) {
        var text :| text in texts && Upper(Strip(text)) == p;
        var i :| 0 <= i < |texts| && texts[i] == text;
      }
    }
  }

  lemma LegibleIsAllowed(t: ResourceType, texts: seq<string>)
    ensures NormalizePermissions(texts, Allowed(t)).Success? <==> Legible(t, texts)
  {
    hide Strip, Upper, Exists, NormalizePermissions;
    AcceptsExactly(texts, Allowed(t));
    forall p ensures p in Allowed(t) <==> Exists(t, p) {
      AllowedExists(t, p);
    }
  }

  // ----- Calls

  /** A grant adds the mentioned permissions and answers the whole new list; it is
      refused, and changes nothing, exactly when the target or a text is bad. */
  lemma GrantsExactly(doc: Document, key: Key, who: string, texts: seq<string>, t: Tuple)
    requires Canonical(doc)
    ensures
      var (after, r) := GrantStep(doc, key, who, texts);
      if Shareable(key, who) && Legible(key.resourceType, texts)
      then
        && (t in Relation(after) <==>
              t in Relation(doc) || (t.key == key && t.who == who && Mentions(texts, t.permission)))
        && r.Success?
        && (forall i, j :: 0 <= i < j < |r.value| ==> Less(r.value[i], r.value[j]))
        && forall p :: p in r.value <==> Tuple(key, who, p) in Relation(after)
      else after == doc && r == InvalidInput
  {
    hide Canonical, Relation, Shareable, Legible, Mentions, ValidTarget, NormalizePermissions, GrantDocument,
      SortUnique, Less, ValidStore, PermissionsOf;
    ShareableIsTarget(key, who);
    LegibleIsAllowed(key.resourceType, texts);
    GrantStepRefines(doc, key, who, texts);
    var (after, r) := GrantStep(doc, key, who, texts);
    if r.Success? {
      NormalizesTo(texts, Allowed(key.resourceType));
      forall p ensures p in r.value <==> Tuple(key, who, p) in Relation(after) {
        GrantReplyIsNewList(doc, key, who, texts, p);
      }
      SortUniqueAscending(
        PermissionsOf(doc, key, who) + NormalizePermissions(texts, Allowed(key.resourceType)).value);
    }
  }

  /** A revocation takes away the mentioned permissions, or all of the principal's,
      and answers the list of what is left; it is refused, and changes nothing,
      exactly when the target or a text is bad. */
  lemma RevokesExactly(doc: Document, key: Key, who: string, texts: Option<seq<string>>, t: Tuple)
    requires Canonical(doc)
    ensures
      var (after, r) := RevokeStep(doc, key, who, texts);
      if Shareable(key, who) && (texts == None || Legible(key.resourceType, texts.value))
      then
        && (t in Relation(after) <==>
              && t in Relation(doc)
              && !(t.key == key && t.who == who && (texts == None || Mentions(texts.value, t.permission))))
        && r.Success?
        && (forall i, j :: 0 <= i < j < |r.value| ==> Less(r.value[i], r.value[j]))
        && forall p :: p in r.value <==> Tuple(key, who, p) in Relation(after)
      else after == doc && r == InvalidInput
  {
    hide Canonical, Relation, Shareable, Legible, Mentions, ValidTarget, NormalizePermissions, RevokeDocument,
      SortUnique, Less, ValidStore, PermissionsOf, GrantsOf, Remaining, Minus;
    ShareableIsTarget(key, who);
    if texts.Some? {
      LegibleIsAllowed(key.resourceType, texts.value);
    }
    RevokeStepRefines(doc, key, who, texts);
    var (after, r) := RevokeStep(doc, key, who, texts);
    if r.Success? {
      if texts.Some? {
        NormalizesTo(texts.value, Allowed(key.resourceType));
      }
      forall p ensures p in r.value <==> Tuple(key, who, p) in Relation(after) {
        RevokeReplyIsNewList(doc, key, who, texts, p);
      }
      var removed := if texts == None then None
                     else Some(NormalizePermissions(texts.value, Allowed(key.resourceType)).value);
      RemainingElements(PermissionsOf(doc, key, who), removed, "");
    }
  }

  /** An access check answers whether the relation has the tuple. */
  lemma AllowsExactly(doc: Document, key: Key, who: string, text: string)
    requires Canonical(doc)
    ensures AllowsIn(doc, key, who, text) ==
      if Exists(key.resourceType, Upper(Strip(text)))
      then Success(Tuple(key, who, Upper(Strip(text))) in Relation(doc))
      else InvalidInput
  {
    hide Strip, Upper, Exists, NormalizePermissions, Relation, ValidStore, Sorted;
    LegibleIsAllowed(key.resourceType, [text]);
    assert text in [text];
    AllowsIsMembership(doc, key, who, text);
  }

  // ----- Documents

  /** A document is in the form that is written exactly when its policies come in
      the order of type, owner and resource, and each is non-empty, shared with
      other addresses than the owner's only, and each list names permissions
      there are, in alphabetical order. */
  lemma CanonicalExactly(doc: Document)
    ensures Canonical(doc) <==>
      && (forall i, j :: 0 <= i < j < |doc| ==> ComesBefore(doc[i].key, doc[j].key))
      && forall i :: 0 <= i < |doc| ==> WellFormed(doc[i])
  {
    hide KeyLess, ComesBefore, WellFormed, ValidPolicy;
    forall i, j | 0 <= i < j < |doc| ensures KeyLess(doc[i].key, doc[j].key) <==> ComesBefore(doc[i].key, doc[j].key) {
      KeyLessExactly(doc[i].key, doc[j].key);
    }
    forall i | 0 <= i < |doc| ensures ValidPolicy(doc[i]) <==> WellFormed(doc[i]) {
      ValidPolicyExactly(doc[i]);
    }
    if forall i, j :: 0 <= i < j < |doc| ==> ComesBefore(doc[i].key, doc[j].key) {
      SortedIsDistinct(doc);
    }
  }

  /** "KV_SECRET" comes before "TRANSIT_KEY"; then owner and resource decide. */
  ghost predicate ComesBefore(a: Key, b: Key) {
    var x := if a.resourceType.KvSecret? then "KV_SECRET" else "TRANSIT_KEY";
    var y := if b.resourceType.KvSecret? then "KV_SECRET" else "TRANSIT_KEY";
    || Less(x, y)
    || (x == y && Less(a.ownerEmail, b.ownerEmail))
    || (x == y && a.ownerEmail == b.ownerEmail && Less(a.resourceId, b.resourceId))
  }

  lemma KeyLessExactly(a: Key, b: Key)
    ensures KeyLess(a, b) <==> ComesBefore(a, b)
  {
    assert Less("KV_SECRET", "TRANSIT_KEY") && !Less("TRANSIT_KEY", "KV_SECRET");
    LessIrreflexive("KV_SECRET");
    LessIrreflexive("TRANSIT_KEY");
    assert "KV_SECRET"[0] != "TRANSIT_KEY"[0];
  }

  ghost predicate WellFormed(p: Policy) {
    && Addressable(p.key.ownerEmail) && p.key.resourceId != ""
    && p.grants != map[]
    && forall who :: who in p.grants ==>
         && Addressable(who) && who != p.key.ownerEmail
         && p.grants[who] != []
         && (forall i, j :: 0 <= i < j < |p.grants[who]| ==> Less(p.grants[who][i], p.grants[who][j]))
         && forall permission :: permission in p.grants[who] ==> Exists(p.key.resourceType, permission)
  }

  lemma ValidPolicyExactly(p: Policy)
    ensures ValidPolicy(p) <==> WellFormed(p)
  {
    hide Addressable, IsCanonicalEmail, Less, Allowed, Exists;
    AddressableIsCanonical(p.key.ownerEmail);
    forall who | who in p.grants
      ensures Addressable(who) <==> IsCanonicalEmail(who)
    {
      AddressableIsCanonical(who);
    }
    forall permission ensures permission in Allowed(p.key.resourceType) <==> Exists(p.key.resourceType, permission) {
      AllowedExists(p.key.resourceType, permission);
    }
  }

  /** What a canonical document grants: permissions there are, of addresses other
      than the owner's. */
  lemma RelationIsWellFormed(doc: Document, t: Tuple)
    requires Canonical(doc) && t in Relation(doc)
    ensures Shareable(t.key, t.who) && Exists(t.key.resourceType, t.permission)
  {
    hide KeyLess, ComesBefore, Addressable, Less, Exists, Canonical;
    CanonicalExactly(doc);
    var i := IndexOf(doc, t.key);
    assert WellFormed(doc[i]);
  }
}
