/** The policy document refines a relation of single grants, and is its only
    canonical form. */
module PolicyTheorems {
  import opened Wrappers
  import opened Text
  import opened Policies

  /** One permission of one principal on one resource. */
  datatype Tuple = Tuple(key: Key, who: string, permission: string)

  /** The relation a document stands for. */
  ghost function Relation(doc: Document): iset<Tuple> {
    iset t: Tuple | t.permission in PermissionsOf(doc, t.key, t.who)
  }

  /** A valid document in ascending order: the form the repository writes. */
  ghost predicate Canonical(doc: Document) {
    ValidStore(doc) && Sorted(doc)
  }

  lemma SortedIsDistinct(doc: Document)
    requires Sorted(doc)
    ensures DistinctKeys(doc)
  {
    forall i, j | 0 <= i < j < |doc| ensures doc[i].key != doc[j].key {
      KeyLessIrreflexive(doc[i].key);
    }
  }

  // ----- Looking up policies

  lemma GrantsOfMember(doc: Document, p: Policy)
    requires DistinctKeys(doc) && p in doc
    ensures GrantsOf(doc, p.key) == p.grants
  {
    var j :| 0 <= j < |doc| && doc[j] == p;
    var i := IndexOf(doc, p.key);
    assert i <= j && doc[i].key == doc[j].key;
  }

  lemma GrantsOfAbsent(doc: Document, key: Key)
    requires forall p :: p in doc ==> p.key != key
    ensures GrantsOf(doc, key) == map[]
  {
    forall j | 0 <= j < |doc| ensures doc[j].key != key {
      assert doc[j] in doc;
    }
  }

  /** Look-up depends only on the policies in the document, not on their order. */
  lemma SamePoliciesSameGrants(doc: Document, other: Document, key: Key)
    requires DistinctKeys(doc) && DistinctKeys(other)
    requires forall p :: p in doc <==> p in other
    ensures GrantsOf(doc, key) == GrantsOf(other, key)
  {
    var i := IndexOf(doc, key);
    if i < |doc| {
      GrantsOfMember(doc, doc[i]);
      GrantsOfMember(other, doc[i]);
    } else {
      GrantsOfAbsent(doc, key);
      GrantsOfAbsent(other, key);
    }
  }

  // ----- Granting

  lemma SetGrantLookup(doc: Document, key: Key, who: string, permissions: seq<string>, other: Key)
    requires DistinctKeys(doc)
    ensures DistinctKeys(SetGrant(doc, key, who, permissions))
    ensures GrantsOf(SetGrant(doc, key, who, permissions), other)
         == if other == key then GrantsOf(doc, key)[who := permissions] else GrantsOf(doc, other)
  {
    var after := SetGrant(doc, key, who, permissions);
    var i := IndexOf(doc, key);
    assert after[i].key == key;
    assert forall j :: 0 <= j < |doc| ==> after[j].key == doc[j].key;
    if other == key {
      GrantsOfMember(after, after[i]);
    } else {
      var j := IndexOf(doc, other);
      if j < |doc| {
        assert after[j] == doc[j];
        GrantsOfMember(after, after[j]);
      } else {
        GrantsOfAbsent(after, other);
      }
    }
  }

  lemma SetGrantValid(doc: Document, key: Key, who: string, permissions: seq<string>)
    requires ValidStore(doc) && ValidTarget(key, who)
    requires ValidPermissions(permissions, Allowed(key.resourceType))
    ensures ValidStore(SetGrant(doc, key, who, permissions))
  {
    hide IsCanonicalEmail, ValidPermissions;
    var after := SetGrant(doc, key, who, permissions);
    SetGrantLookup(doc, key, who, permissions, key);
    forall i | 0 <= i < |after| ensures ValidPolicy(after[i]) {
      if i < |doc| {
        assert ValidPolicy(doc[i]);
      }
      if after[i].key == key {
        assert who in after[i].grants;
      }
    }
  }

  lemma SortPoliciesCanonical(doc: Document)
    requires ValidStore(doc)
    ensures Canonical(SortPolicies(doc))
    ensures forall key :: GrantsOf(SortPolicies(doc), key) == GrantsOf(doc, key)
  {
    hide ValidPolicy, SortPolicies, KeyLess, GrantsOf;
    var after := SortPolicies(doc);
    SortPoliciesSorted(doc);
    SortedIsDistinct(after);
    forall p ensures p in after <==> p in doc {
      SortPoliciesElements(doc, p);
    }
    forall i | 0 <= i < |after| ensures ValidPolicy(after[i]) {
      assert after[i] in doc;
    }
    forall key ensures GrantsOf(after, key) == GrantsOf(doc, key) {
      SamePoliciesSameGrants(after, doc, key);
    }
  }

  lemma UnionValid(current: seq<string>, added: seq<string>, allowed: set<string>)
    requires current == [] || ValidPermissions(current, allowed)
    requires ValidPermissions(added, allowed)
    ensures ValidPermissions(SortUnique(current + added), allowed)
  {
    var r := SortUnique(current + added);
    SortUniqueAscending(current + added);
    SortUniqueElements(current + added, added[0]);
    forall p | p in r ensures p in allowed {
      SortUniqueElements(current + added, p);
    }
  }

  lemma CurrentValid(doc: Document, key: Key, who: string)
    requires ValidStore(doc)
    ensures PermissionsOf(doc, key, who) == []
         || ValidPermissions(PermissionsOf(doc, key, who), Allowed(key.resourceType))
  {
    var i := IndexOf(doc, key);
    assert i < |doc| ==> ValidPolicy(doc[i]);
  }

  /** Granting adds exactly the named permissions and keeps the canonical form. */
  lemma GrantRefines(doc: Document, key: Key, who: string, added: seq<string>)
    requires Canonical(doc) && ValidTarget(key, who) && ValidPermissions(added, Allowed(key.resourceType))
    ensures Canonical(GrantDocument(doc, key, who, added))
    ensures Relation(GrantDocument(doc, key, who, added))
         == Relation(doc) + iset t: Tuple | t.key == key && t.who == who && t.permission in added
  {
    hide ValidPermissions, ValidTarget, ValidPolicy, SortPolicies, SortUnique, Sorted;
    var current := PermissionsOf(doc, key, who);
    var updated := SortUnique(current + added);
    CurrentValid(doc, key, who);
    UnionValid(current, added, Allowed(key.resourceType));
    SetGrantValid(doc, key, who, updated);
    SortPoliciesCanonical(SetGrant(doc, key, who, updated));
    forall t: Tuple
      ensures t in Relation(GrantDocument(doc, key, who, added))
          <==> t in Relation(doc) || (t.key == key && t.who == who && t.permission in added)
    {
      SetGrantLookup(doc, key, who, updated, t.key);
      SortUniqueElements(current + added, t.permission);
    }
  }

  // ----- Revoking

  lemma {:induction false} MinusElements(permissions: seq<string>, removed: seq<string>, p: string)
    ensures p in Minus(permissions, removed) <==> p in permissions && p !in removed
  {
    if permissions != [] {
      MinusElements(permissions[1..], removed, p);
      assert permissions == [permissions[0]] + permissions[1..];
    }
  }

  lemma RemainingElements(current: seq<string>, removed: Option<seq<string>>, p: string)
    ensures p in Remaining(current, removed) <==> removed.Some? && p in current && p !in removed.value
    ensures Ascending(Remaining(current, removed))
  {
    if removed.Some? {
      MinusElements(current, removed.value, p);
      SortUniqueElements(Minus(current, removed.value), p);
      SortUniqueAscending(Minus(current, removed.value));
    }
  }

  /** Replacing one policy's grants in place. */
  lemma UpdateLookup(doc: Document, i: nat, grants: map<string, seq<string>>, other: Key)
    requires DistinctKeys(doc) && i < |doc|
    ensures GrantsOf(doc[i := Policy(doc[i].key, grants)], other)
         == if other == doc[i].key then grants else GrantsOf(doc, other)
  {
    var after := doc[i := Policy(doc[i].key, grants)];
    assert forall j :: 0 <= j < |doc| ==> after[j].key == doc[j].key;
    assert DistinctKeys(after);
    if other == doc[i].key {
      GrantsOfMember(after, after[i]);
    } else {
      var j := IndexOf(doc, other);
      if j < |doc| {
        assert after[j] == doc[j];
        GrantsOfMember(after, after[j]);
      } else {
        GrantsOfAbsent(after, other);
      }
    }
  }

  lemma RemoveLookup(doc: Document, i: nat, other: Key)
    requires DistinctKeys(doc) && i < |doc|
    ensures DistinctKeys(doc[..i] + doc[i + 1..])
    ensures GrantsOf(doc[..i] + doc[i + 1..], other) == if other == doc[i].key then map[] else GrantsOf(doc, other)
  {
    var after := doc[..i] + doc[i + 1..];
    assert forall j :: 0 <= j < |after| ==> after[j] == if j < i then doc[j] else doc[j + 1];
    if other == doc[i].key {
      GrantsOfAbsent(after, other);
    } else {
      var j := IndexOf(doc, other);
      if j < |doc| {
        assert doc[j] == if j < i then after[j] else after[j - 1];
        GrantsOfMember(after, doc[j]);
      } else {
        GrantsOfAbsent(after, other);
      }
    }
  }

  lemma RemoveCanonical(doc: Document, i: nat)
    requires Canonical(doc) && i < |doc|
    ensures Canonical(doc[..i] + doc[i + 1..])
  {
    hide ValidPolicy, KeyLess;
    var after := doc[..i] + doc[i + 1..];
    assert forall j :: 0 <= j < |after| ==> after[j] == if j < i then doc[j] else doc[j + 1];
    SortedIsDistinct(after);
  }

  lemma UpdateCanonical(doc: Document, i: nat, grants: map<string, seq<string>>)
    requires Canonical(doc) && i < |doc| && ValidPolicy(Policy(doc[i].key, grants))
    ensures Canonical(doc[i := Policy(doc[i].key, grants)])
  {
    hide ValidPolicy, KeyLess;
    SortedIsDistinct(doc[i := Policy(doc[i].key, grants)]);
  }

  /** The grants of every resource after a revocation. */
  lemma RevokeLookup(doc: Document, key: Key, who: string, removed: Option<seq<string>>, other: Key)
    requires DistinctKeys(doc)
    ensures
      var before := GrantsOf(doc, key);
      GrantsOf(RevokeDocument(doc, key, who, removed), other) ==
        if other != key || who !in before then GrantsOf(doc, other)
        else
          var remaining := Remaining(before[who], removed);
          if remaining != [] then before[who := remaining] else before - {who}
  {
    hide Remaining, DistinctKeys;
    var i := IndexOf(doc, key);
    if i < |doc| && who in doc[i].grants {
      var remaining := Remaining(doc[i].grants[who], removed);
      if remaining != [] {
        UpdateLookup(doc, i, doc[i].grants[who := remaining], other);
      } else if doc[i].grants - {who} == map[] {
        RemoveLookup(doc, i, other);
      } else {
        UpdateLookup(doc, i, doc[i].grants - {who}, other);
      }
    }
  }

  lemma RevokeCanonical(doc: Document, key: Key, who: string, removed: Option<seq<string>>)
    requires Canonical(doc)
    ensures Canonical(RevokeDocument(doc, key, who, removed))
  {
    hide IsCanonicalEmail, Remaining, Sorted, Canonical;
    var i := IndexOf(doc, key);
    CanonicalParts(doc);
    if i < |doc| && who in doc[i].grants {
      var current := doc[i].grants[who];
      assert ValidPolicy(doc[i]);
      var remaining := Remaining(current, removed);
      forall p ensures p in remaining ==> p in current {
        RemainingElements(current, removed, p);
      }
      RemainingElements(current, removed, "");
      if remaining != [] {
        UpdateCanonical(doc, i, doc[i].grants[who := remaining]);
      } else if doc[i].grants - {who} == map[] {
        RemoveCanonical(doc, i);
      } else {
        UpdateCanonical(doc, i, doc[i].grants - {who});
      }
    }
  }

  /** Revoking removes exactly the named permissions, or all of them, and keeps
      the canonical form; a policy without grants disappears. */
  lemma RevokeRefines(doc: Document, key: Key, who: string, removed: Option<seq<string>>)
    requires Canonical(doc)
    ensures Canonical(RevokeDocument(doc, key, who, removed))
    ensures Relation(RevokeDocument(doc, key, who, removed))
         == Relation(doc) - iset t: Tuple |
              t.key == key && t.who == who && (removed == None || t.permission in removed.value)
  {
    hide RevokeDocument, Remaining, Canonical, ValidPolicy, GrantsOf;
    RevokeCanonical(doc, key, who, removed);
    CanonicalParts(doc);
    forall t: Tuple
      ensures t in Relation(RevokeDocument(doc, key, who, removed))
          <==> t in Relation(doc)
               && !(t.key == key && t.who == who && (removed == None || t.permission in removed.value))
    {
      RevokeLookup(doc, key, who, removed, t.key);
      RemainingElements(PermissionsOf(doc, key, who), removed, t.permission);
    }
  }

  lemma CanonicalParts(doc: Document)
    requires Canonical(doc)
    ensures ValidStore(doc) && Sorted(doc)
  {
  }

  // ----- Deleting a resource

  lemma {:induction false} WithoutKeyElements(doc: Document, key: Key, p: Policy)
    ensures p in WithoutKey(doc, key) <==> p in doc && p.key != key
  {
    if doc != [] {
      WithoutKeyElements(doc[1..], key, p);
      assert doc == [doc[0]] + doc[1..];
    }
  }

  lemma {:induction false} WithoutKeyCanonical(doc: Document, key: Key)
    requires Canonical(doc)
    ensures Canonical(WithoutKey(doc, key))
    ensures |WithoutKey(doc, key)| <= |doc|
    ensures |WithoutKey(doc, key)| == |doc| ==> WithoutKey(doc, key) == doc
  {
    hide ValidPolicy, KeyLess;
    if doc != [] {
      var rest := WithoutKey(doc[1..], key);
      WithoutKeyCanonical(doc[1..], key);
      assert doc == [doc[0]] + doc[1..];
      if doc[0].key != key {
        forall p | p in rest ensures KeyLess(doc[0].key, p.key) {
          WithoutKeyElements(doc[1..], key, p);
        }
        assert Sorted([doc[0]] + rest);
        SortedIsDistinct([doc[0]] + rest);
      }
    }
  }

  /** Deleting a resource removes exactly its tuples. */
  lemma DeleteRefines(doc: Document, key: Key)
    requires Canonical(doc)
    ensures Canonical(WithoutKey(doc, key))
    ensures Relation(WithoutKey(doc, key)) == Relation(doc) - iset t: Tuple | t.key == key
  {
    hide ValidPolicy, WithoutKey, KeyLess;
    var after := WithoutKey(doc, key);
    WithoutKeyCanonical(doc, key);
    forall p ensures p in after <==> p in doc && p.key != key {
      WithoutKeyElements(doc, key, p);
    }
    forall t: Tuple ensures t in Relation(after) <==> t in Relation(doc) && t.key != key {
      if t.key == key {
        GrantsOfAbsent(after, key);
      } else {
        var i := IndexOf(doc, t.key);
        if i < |doc| {
          GrantsOfMember(after, doc[i]);
        } else {
          GrantsOfAbsent(after, t.key);
        }
      }
    }
  }

  // ----- Runs

  datatype Op =
    | Grant(key: Key, who: string, permissions: seq<string>)
    | Revoke(key: Key, who: string, revoked: Option<seq<string>>)
    | Delete(key: Key)

  /** What the repository's methods do to the document. */
  ghost function DocumentStep(doc: Document, op: Op): Document {
    match op
    case Grant(key, who, permissions) => GrantStep(doc, key, who, permissions).0
    case Revoke(key, who, revoked) => RevokeStep(doc, key, who, revoked).0
    case Delete(key) => DeleteStep(doc, key).0
  }

  /** The arguments are accepted, whatever the store. */
  predicate Accepted(op: Op) {
    match op
    case Grant(key, who, permissions) =>
      ValidTarget(key, who) && NormalizePermissions(permissions, Allowed(key.resourceType)).Success?
    case Revoke(key, who, revoked) =>
      ValidTarget(key, who)
      && (revoked == None || NormalizePermissions(revoked.value, Allowed(key.resourceType)).Success?)
    case Delete(_) => true
  }

  /** What the same call means for the relation. */
  ghost function RelationStep(r: iset<Tuple>, op: Op): iset<Tuple> {
    if !Accepted(op) then r
    else
      match op
      case Grant(key, who, permissions) =>
        var added := NormalizePermissions(permissions, Allowed(key.resourceType)).value;
        r + iset t: Tuple | t.key == key && t.who == who && t.permission in added
      case Revoke(key, who, revoked) =>
        r - iset t: Tuple | t.key == key && t.who == who
              && (revoked == None
                  || t.permission in NormalizePermissions(revoked.value, Allowed(key.resourceType)).value)
      case Delete(key) => r - iset t: Tuple | t.key == key
  }

  lemma GrantStepRefines(doc: Document, key: Key, who: string, permissions: seq<string>)
    requires Canonical(doc)
    ensures Canonical(GrantStep(doc, key, who, permissions).0)
    ensures Relation(GrantStep(doc, key, who, permissions).0)
         == RelationStep(Relation(doc), Grant(key, who, permissions))
    ensures GrantStep(doc, key, who, permissions).1.Success? <==> Accepted(Grant(key, who, permissions))
  {
    hide Relation, GrantDocument, NormalizePermissions, ValidTarget, ValidPermissions, Sorted, SortUnique;
    if Accepted(Grant(key, who, permissions)) {
      NormalizedIsValid(permissions, Allowed(key.resourceType));
      GrantRefines(doc, key, who, NormalizePermissions(permissions, Allowed(key.resourceType)).value);
    }
  }

  lemma RevokeStepRefines(doc: Document, key: Key, who: string, revoked: Option<seq<string>>)
    requires Canonical(doc)
    ensures Canonical(RevokeStep(doc, key, who, revoked).0)
    ensures Relation(RevokeStep(doc, key, who, revoked).0)
         == RelationStep(Relation(doc), Revoke(key, who, revoked))
    ensures RevokeStep(doc, key, who, revoked).1.Success? <==> Accepted(Revoke(key, who, revoked))
  {
    hide NormalizePermissions, ValidTarget, Sorted, Remaining;
    if Accepted(Revoke(key, who, revoked)) {
      var removed := if revoked == None then None
                     else Some(NormalizePermissions(revoked.value, Allowed(key.resourceType)).value);
      RevokeRefines(doc, key, who, removed);
    }
  }

  lemma DeleteStepRefines(doc: Document, key: Key)
    requires Canonical(doc)
    ensures Canonical(DeleteStep(doc, key).0)
    ensures Relation(DeleteStep(doc, key).0) == RelationStep(Relation(doc), Delete(key))
    ensures DeleteStep(doc, key).1.Success?
  {
    hide Relation, WithoutKey, Sorted;
    DeleteRefines(doc, key);
    WithoutKeyCanonical(doc, key);
  }

  /** What a grant returns is the principal's new permission list. */
  lemma GrantReplyIsNewList(doc: Document, key: Key, who: string, permissions: seq<string>, p: string)
    requires Canonical(doc) && GrantStep(doc, key, who, permissions).1.Success?
    ensures p in GrantStep(doc, key, who, permissions).1.value
        <==> Tuple(key, who, p) in Relation(GrantStep(doc, key, who, permissions).0)
  {
    hide GrantDocument, NormalizePermissions, ValidTarget, Canonical, ValidStore, SortUnique, PermissionsOf;
    GrantStepRefines(doc, key, who, permissions);
    var normalized := NormalizePermissions(permissions, Allowed(key.resourceType)).value;
    SortUniqueElements(PermissionsOf(doc, key, who) + normalized, p);
    assert p in PermissionsOf(doc, key, who) <==> Tuple(key, who, p) in Relation(doc);
  }

  /** What a revocation returns is what the principal keeps. */
  lemma RevokeReplyIsNewList(doc: Document, key: Key, who: string, revoked: Option<seq<string>>, p: string)
    requires Canonical(doc) && RevokeStep(doc, key, who, revoked).1.Success?
    ensures p in RevokeStep(doc, key, who, revoked).1.value
        <==> Tuple(key, who, p) in Relation(RevokeStep(doc, key, who, revoked).0)
  {
    hide RevokeDocument, NormalizePermissions, ValidTarget, Canonical, ValidStore, Remaining;
    RevokeStepRefines(doc, key, who, revoked);
    var removed := if revoked == None then None
                   else Some(NormalizePermissions(revoked.value, Allowed(key.resourceType)).value);
    RemainingElements(PermissionsOf(doc, key, who), removed, p);
    assert p in PermissionsOf(doc, key, who) <==> Tuple(key, who, p) in Relation(doc);
  }

  ghost function RunDocument(doc: Document, ops: seq<Op>): Document
    decreases |ops|
  {
    if ops == [] then doc else RunDocument(DocumentStep(doc, ops[0]), ops[1..])
  }

  ghost function RunRelation(r: iset<Tuple>, ops: seq<Op>): iset<Tuple>
    decreases |ops|
  {
    if ops == [] then r else RunRelation(RelationStep(r, ops[0]), ops[1..])
  }

  /** Every run of the repository refines the run on relations; the validator
      accepts every document on the way, so a call succeeds exactly when its
      arguments are acceptable. */
  lemma {:induction false} RunRefines(doc: Document, ops: seq<Op>)
    requires Canonical(doc)
    ensures Canonical(RunDocument(doc, ops))
    ensures Relation(RunDocument(doc, ops)) == RunRelation(Relation(doc), ops)
    decreases |ops|
  {
    hide Canonical, Relation, RelationStep, GrantStep, RevokeStep, DeleteStep;
    if ops != [] {
      match ops[0] {
        case Grant(key, who, permissions) => GrantStepRefines(doc, key, who, permissions);
        case Revoke(key, who, revoked) => RevokeStepRefines(doc, key, who, revoked);
        case Delete(key) => DeleteStepRefines(doc, key);
      }
      RunRefines(DocumentStep(doc, ops[0]), ops[1..]);
    }
  }

  // ----- The canonical form

  lemma CanonicalPolicyFromRelation(doc: Document, other: Document, p: Policy)
    requires Canonical(doc) && Canonical(other) && Relation(doc) == Relation(other) && p in doc
    ensures p in other
  {
    hide IsCanonicalEmail, Sorted;
    var key := p.key;
    GrantsOfMember(doc, p);
    assert ValidPolicy(p);
    forall who, permission
      ensures permission in PermissionsOf(doc, key, who) <==> permission in PermissionsOf(other, key, who)
    {
      assert Tuple(key, who, permission) in Relation(doc) <==> Tuple(key, who, permission) in Relation(other);
    }
    forall who ensures PermissionsOf(doc, key, who) == PermissionsOf(other, key, who) {
      CurrentValid(doc, key, who);
      CurrentValid(other, key, who);
      AscendingIsCanonical(PermissionsOf(doc, key, who), PermissionsOf(other, key, who));
    }
    var someone :| someone in p.grants;
    assert PermissionsOf(doc, key, someone) != [];
    var i := IndexOf(other, key);
    assert i < |other| && ValidPolicy(other[i]);
    var q := other[i];
    assert q.key == key && q.grants == GrantsOf(other, key);
    forall who ensures who in p.grants <==> who in q.grants {
      assert who in p.grants <==> PermissionsOf(doc, key, who) != [];
      assert who in q.grants <==> PermissionsOf(other, key, who) != [];
    }
    assert p.grants == q.grants by {
      forall who | who in p.grants ensures p.grants[who] == q.grants[who] {
        assert PermissionsOf(doc, key, who) == PermissionsOf(other, key, who);
      }
    }
  }

  lemma SortedTail(doc: Document, p: Policy)
    requires Sorted(doc) && doc != []
    ensures p in doc[1..] <==> p in doc && p != doc[0]
  {
    KeyLessIrreflexive(doc[0].key);
    assert doc == [doc[0]] + doc[1..];
  }

  lemma {:induction false} SortedIsCanonical(doc: Document, other: Document)
    requires Sorted(doc) && Sorted(other)
    requires forall p :: p in doc <==> p in other
    ensures doc == other
  {
    hide KeyLess;
    assert other != [] ==> other[0] in doc;
    if doc != [] {
      assert doc[0] in other;
      if doc[0] != other[0] {
        KeyLessTransitive(doc[0].key, other[0].key, doc[0].key);
        KeyLessIrreflexive(doc[0].key);
      }
      forall p ensures p in doc[1..] <==> p in other[1..] {
        SortedTail(doc, p);
        SortedTail(other, p);
      }
      SortedIsCanonical(doc[1..], other[1..]);
      assert doc == [doc[0]] + doc[1..] && other == [other[0]] + other[1..];
    }
  }

  /** A relation has at most one canonical document. */
  lemma DocumentIsDetermined(doc: Document, other: Document)
    requires Canonical(doc) && Canonical(other) && Relation(doc) == Relation(other)
    ensures doc == other
  {
    hide Relation, ValidStore, Sorted;
    forall p ensures p in doc <==> p in other {
      if p in doc {
        CanonicalPolicyFromRelation(doc, other, p);
      }
      if p in other {
        CanonicalPolicyFromRelation(other, doc, p);
      }
    }
    SortedIsCanonical(doc, other);
  }

  /** From an empty store, the document depends only on the resulting set of
      grants, not on the calls that led there or their order. */
  lemma OrderDoesNotMatter(ops: seq<Op>, others: seq<Op>)
    requires RunRelation(iset{}, ops) == RunRelation(iset{}, others)
    ensures RunDocument([], ops) == RunDocument([], others)
  {
    assert Relation([]) == iset{};
    RunRefines([], ops);
    RunRefines([], others);
    DocumentIsDetermined(RunDocument([], ops), RunDocument([], others));
  }

  // ----- Reading

  /** The list of what is shared with someone is the transpose of the access
      lists: an entry for each resource in whose list the principal occurs. */
  lemma {:induction false} ListSharedIsTranspose(doc: Document, t: ResourceType, who: string, entry: SharedEntry)
    requires DistinctKeys(doc)
    ensures entry in ListShared(doc, t, who) <==>
      var grants := GrantsOf(doc, Key(t, entry.ownerEmail, entry.resourceId));
      who in grants && grants[who] == entry.permissions
  {
    var key := Key(t, entry.ownerEmail, entry.resourceId);
    if doc != [] {
      ListSharedIsTranspose(doc[1..], t, who, entry);
      if doc[0].key == key {
        GrantsOfAbsent(doc[1..], key);
      } else {
        assert GrantsOf(doc, key) == GrantsOf(doc[1..], key);
      }
    }
  }

  function EntryKey(t: ResourceType, e: SharedEntry): Key {
    Key(t, e.ownerEmail, e.resourceId)
  }

  lemma EntryHasPolicy(doc: Document, t: ResourceType, who: string, e: SharedEntry)
    requires DistinctKeys(doc) && e in ListShared(doc, t, who)
    ensures exists i :: 0 <= i < |doc| && doc[i].key == EntryKey(t, e)
  {
    hide ListShared;
    ListSharedIsTranspose(doc, t, who, e);
    assert IndexOf(doc, EntryKey(t, e)) < |doc|;
  }

  ghost predicate EntriesAscend(t: ResourceType, entries: seq<SharedEntry>) {
    forall i, j :: 0 <= i < j < |entries| ==> KeyLess(EntryKey(t, entries[i]), EntryKey(t, entries[j]))
  }

  lemma PrependEntry(t: ResourceType, first: SharedEntry, rest: seq<SharedEntry>)
    requires EntriesAscend(t, rest)
    requires forall e :: e in rest ==> KeyLess(EntryKey(t, first), EntryKey(t, e))
    ensures EntriesAscend(t, [first] + rest)
  {
    hide KeyLess;
  }

  /** Each entry is listed once, in the order of the document. */
  lemma {:induction false} ListSharedInOrder(doc: Document, t: ResourceType, who: string)
    requires Sorted(doc)
    ensures EntriesAscend(t, ListShared(doc, t, who))
  {
    hide KeyLess, EntriesAscend;
    if doc == [] {
      NoEntries(t);
    } else {
      var rest := ListShared(doc[1..], t, who);
      ListSharedInOrder(doc[1..], t, who);
      SortedIsDistinct(doc[1..]);
      forall e | e in rest ensures KeyLess(doc[0].key, EntryKey(t, e)) {
        EntryHasPolicy(doc[1..], t, who, e);
        var i :| 0 <= i < |doc[1..]| && doc[1..][i].key == EntryKey(t, e);
        assert doc[i + 1].key == EntryKey(t, e);
      }
      assert [] + rest == rest;
      if doc[0].key.resourceType == t && who in doc[0].grants {
        var first := SharedEntry(doc[0].key.ownerEmail, doc[0].key.resourceId, doc[0].grants[who]);
        assert EntryKey(t, first) == doc[0].key;
        PrependEntry(t, first, rest);
      }
    }
  }

  lemma NoEntries(t: ResourceType)
    ensures EntriesAscend(t, [])
  {
  }

  /** An access check asks whether the tuple is in the relation. */
  lemma AllowsIsMembership(doc: Document, key: Key, who: string, permission: string)
    requires ValidStore(doc)
    ensures AllowsIn(doc, key, who, permission)
         == if NormalizePermissions([permission], Allowed(key.resourceType)).InvalidInput? then InvalidInput
            else Success(Tuple(key, who, Upper(Strip(permission))) in Relation(doc))
  {
  }
}
