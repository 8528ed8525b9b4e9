/** The access policies: a sorted document of per-resource grants that stands
    for a relation between resources, principals and permissions. */
module Policies {
  import opened Wrappers
  import opened Text
  import S = Sorting

  datatype ResourceType = KvSecret | TransitKey

  datatype Result<T> = Success(value: T) | InvalidInput

  /** What a policy is about. */
  datatype Key = Key(resourceType: ResourceType, ownerEmail: string, resourceId: string)

  datatype Policy = Policy(key: Key, grants: map<string, seq<string>>)

  type Document = seq<Policy>

  function Allowed(t: ResourceType): set<string> {
    match t
    case KvSecret => {"READ", "WRITE", "DELETE"}
    case TransitKey => {"ENCRYPT", "DECRYPT", "SIGN", "VERIFY"}
  }

  // ----- Normalizing permissions

  function Cleaned(permissions: seq<string>): (r: seq<string>)
    ensures |r| == |permissions|
  {
    seq(|permissions|, i requires 0 <= i < |permissions| => Upper(Strip(permissions[i])))
  }

  function NormalizePermissions(permissions: seq<string>, allowed: set<string>): Result<seq<string>> {
    var cleaned := Cleaned(permissions);
    if permissions == [] || (exists i :: 0 <= i < |permissions| && Strip(permissions[i]) == "")
       || !(forall i :: 0 <= i < |cleaned| ==> cleaned[i] in allowed)
    then InvalidInput
    else Success(SortUnique(cleaned))
  }

  /** A permission list as the store holds it. */
  ghost predicate ValidPermissions(permissions: seq<string>, allowed: set<string>) {
    permissions != [] && Ascending(permissions) && forall p :: p in permissions ==> p in allowed
  }

  /** Normalizing gives exactly the named permissions, cleaned, sorted and
      without repetition. */
  lemma NormalizedIsValid(permissions: seq<string>, allowed: set<string>)
    requires NormalizePermissions(permissions, allowed).Success?
    ensures
      var r := NormalizePermissions(permissions, allowed).value;
      && ValidPermissions(r, allowed)
      && forall p :: p in r <==> exists i :: 0 <= i < |permissions| && p == Upper(Strip(permissions[i]))
  {
    var cleaned := Cleaned(permissions);
    var r := SortUnique(cleaned);
    SortUniqueAscending(cleaned);
    forall p ensures p in r <==> exists i :: 0 <= i < |permissions| && p == Upper(Strip(permissions[i])) {
      SortUniqueElements(cleaned, p);
      if i :| 0 <= i < |permissions| && p == Upper(Strip(permissions[i])) {
        assert cleaned[i] == p;
      }
      if p in cleaned {
        var i :| 0 <= i < |cleaned| && cleaned[i] == p;
        assert p == Upper(Strip(permissions[i]));
      }
    }
    assert cleaned[0] in r by {
      SortUniqueElements(cleaned, cleaned[0]);
    }
    forall p | p in r ensures p in allowed {
      SortUniqueElements(cleaned, p);
    }
  }

  lemma SingleNormalized(permission: string, allowed: set<string>)
    requires NormalizePermissions([permission], allowed).Success?
    ensures NormalizePermissions([permission], allowed).value == [Upper(Strip(permission))]
  {
    assert Cleaned([permission]) == [Upper(Strip(permission))];
    SortUniqueFixed([Upper(Strip(permission))]);
  }

  // ----- The document validator

  ghost predicate ValidPolicy(p: Policy) {
    && IsCanonicalEmail(p.key.ownerEmail)
    && p.key.resourceId != ""
    && p.grants != map[]
    && forall who :: who in p.grants ==>
         && IsCanonicalEmail(who) && who != p.key.ownerEmail
         && ValidPermissions(p.grants[who], Allowed(p.key.resourceType))
  }

  ghost predicate DistinctKeys(doc: Document) {
    forall i, j :: 0 <= i < j < |doc| ==> doc[i].key != doc[j].key
  }

  ghost predicate ValidStore(doc: Document) {
    (forall i :: 0 <= i < |doc| ==> ValidPolicy(doc[i])) && DistinctKeys(doc)
  }

  /** The checks made on one principal's permission list. */
  predicate PermissionsPass(permissions: seq<string>, allowed: set<string>) {
    permissions != [] && permissions == SortUnique(permissions)
    && forall i :: 0 <= i < |permissions| ==> permissions[i] in allowed
  }

  lemma PermissionsPassMeansValid(permissions: seq<string>, allowed: set<string>)
    ensures PermissionsPass(permissions, allowed) <==> ValidPermissions(permissions, allowed)
  {
    SortUniqueFixed(permissions);
  }

  method ValidateGrants(p: Policy) returns (ok: bool)
    ensures ok <==> forall who :: who in p.grants ==>
      && IsCanonicalEmail(who) && who != p.key.ownerEmail
      && ValidPermissions(p.grants[who], Allowed(p.key.resourceType))
  {
    hide IsCanonicalEmail, ValidPermissions, PermissionsPass;
    var todo := p.grants.Keys;
    while todo != {}
      invariant todo <= p.grants.Keys
      invariant forall who :: who in p.grants.Keys - todo ==>
        && IsCanonicalEmail(who) && who != p.key.ownerEmail
        && ValidPermissions(p.grants[who], Allowed(p.key.resourceType))
      decreases todo
    {
      var who :| who in todo;
      PermissionsPassMeansValid(p.grants[who], Allowed(p.key.resourceType));
      if !IsCanonicalEmail(who) || who == p.key.ownerEmail
         || !PermissionsPass(p.grants[who], Allowed(p.key.resourceType))
      {
        return false;
      }
      todo := todo - {who};
    }
    ok := true;
  }

  method ValidatePolicyStore(doc: Document) returns (ok: bool)
    ensures ok <==> ValidStore(doc)
  {
    hide IsCanonicalEmail, ValidPermissions;
    var resources: set<Key> := {};
    for i := 0 to |doc|
      invariant forall j :: 0 <= j < i ==> ValidPolicy(doc[j])
      invariant forall j, k :: 0 <= j < k < i ==> doc[j].key != doc[k].key
      invariant resources == set j | 0 <= j < i :: doc[j].key
    {
      var p := doc[i];
      if !IsCanonicalEmail(p.key.ownerEmail) || p.key.resourceId == "" || p.grants == map[] {
        return false;
      }
      if p.key in resources {
        return false;
      }
      resources := resources + {p.key};
      var grantsOk := ValidateGrants(p);
      if !grantsOk {
        return false;
      }
    }
    ok := true;
  }

  // ----- Order of the document

  predicate KeyLess(a: Key, b: Key) {
    || (a.resourceType.KvSecret? && b.resourceType.TransitKey?)
    || (a.resourceType == b.resourceType
        && (Less(a.ownerEmail, b.ownerEmail)
            || (a.ownerEmail == b.ownerEmail && Less(a.resourceId, b.resourceId))))
  }

  lemma KeyLessTransitive(a: Key, b: Key, c: Key)
    requires KeyLess(a, b) && KeyLess(b, c)
    ensures KeyLess(a, c)
  {
    hide Less;
    if a.resourceType == b.resourceType == c.resourceType {
      if Less(a.ownerEmail, b.ownerEmail) && Less(b.ownerEmail, c.ownerEmail) {
        LessTransitive(a.ownerEmail, b.ownerEmail, c.ownerEmail);
      } else if a.ownerEmail == b.ownerEmail == c.ownerEmail {
        LessTransitive(a.resourceId, b.resourceId, c.resourceId);
      }
    }
  }

  lemma KeyLessIrreflexive(a: Key)
    ensures !KeyLess(a, a)
  {
    LessIrreflexive(a.ownerEmail);
    LessIrreflexive(a.resourceId);
  }

  lemma KeyLessTotal(a: Key, b: Key)
    ensures KeyLess(a, b) || a == b || KeyLess(b, a)
  {
    hide Less;
    LessTotal(a.ownerEmail, b.ownerEmail);
    LessTotal(a.resourceId, b.resourceId);
  }

  ghost predicate Sorted(doc: Document) {
    forall i, j :: 0 <= i < j < |doc| ==> KeyLess(doc[i].key, doc[j].key)
  }

  predicate PolicyLess(p: Policy, q: Policy) {
    KeyLess(p.key, q.key)
  }

  /** The document sorted by key; equal keys keep their order. */
  function SortPolicies(doc: Document): Document {
    S.Sort(PolicyLess, doc)
  }

  lemma KeyOrder()
    ensures S.WeakOrder(PolicyLess)
  {
    hide KeyLess;
    forall a, b | PolicyLess(a, b) ensures !PolicyLess(b, a) {
      KeyLessIrreflexive(a.key);
      if KeyLess(b.key, a.key) {
        KeyLessTransitive(a.key, b.key, a.key);
      }
    }
    forall a, b, c | !PolicyLess(b, a) && !PolicyLess(c, b) ensures !PolicyLess(c, a) {
      KeyLessTotal(a.key, b.key);
      if KeyLess(c.key, a.key) && a.key != b.key {
        KeyLessTransitive(c.key, a.key, b.key);
      }
    }
  }

  lemma SortPoliciesElements(doc: Document, q: Policy)
    ensures q in SortPolicies(doc) <==> q in doc
  {
    S.SortElements(PolicyLess, doc);
  }

  lemma SortPoliciesSorted(doc: Document)
    requires DistinctKeys(doc)
    ensures Sorted(SortPolicies(doc))
  {
    hide KeyLess;
    KeyOrder();
    forall i, j | 0 <= i < j < |doc| ensures PolicyLess(doc[i], doc[j]) || PolicyLess(doc[j], doc[i]) {
      KeyLessTotal(doc[i].key, doc[j].key);
    }
    S.SortAscending(PolicyLess, doc);
  }

  // ----- The operations on the document

  /** The position of the policy with this key, or |doc|. */
  function IndexOf(doc: Document, key: Key): (i: nat)
    ensures i <= |doc|
    ensures i < |doc| ==> doc[i].key == key
    ensures forall j :: 0 <= j < i ==> doc[j].key != key
  {
    if doc == [] then 0 else if doc[0].key == key then 0 else 1 + IndexOf(doc[1..], key)
  }

  function GrantsOf(doc: Document, key: Key): map<string, seq<string>> {
    var i := IndexOf(doc, key);
    if i < |doc| then doc[i].grants else map[]
  }

  function PermissionsOf(doc: Document, key: Key, who: string): seq<string> {
    var grants := GrantsOf(doc, key);
    if who in grants then grants[who] else []
  }

  predicate ValidTarget(key: Key, who: string) {
    && IsCanonicalEmail(key.ownerEmail) && key.resourceId != ""
    && IsCanonicalEmail(who) && who != key.ownerEmail
  }

  /** Give `who` exactly these permissions, creating the policy when needed. */
  function SetGrant(doc: Document, key: Key, who: string, permissions: seq<string>): Document {
    var i := IndexOf(doc, key);
    if i < |doc| then doc[i := Policy(key, doc[i].grants[who := permissions])]
    else doc + [Policy(key, map[who := permissions])]
  }

  function GrantDocument(doc: Document, key: Key, who: string, normalized: seq<string>): Document {
    SortPolicies(SetGrant(doc, key, who, SortUnique(PermissionsOf(doc, key, who) + normalized)))
  }

  function Minus(permissions: seq<string>, removed: seq<string>): seq<string> {
    if permissions == [] then []
    else (if permissions[0] in removed then [] else [permissions[0]]) + Minus(permissions[1..], removed)
  }

  /** What is left of someone's permissions; None revokes all of them. */
  function Remaining(current: seq<string>, removed: Option<seq<string>>): seq<string> {
    if removed == None then [] else SortUnique(Minus(current, removed.value))
  }

  function RevokeDocument(doc: Document, key: Key, who: string, removed: Option<seq<string>>): Document {
    var i := IndexOf(doc, key);
    if i == |doc| || who !in doc[i].grants then doc
    else
      var remaining := Remaining(doc[i].grants[who], removed);
      if remaining != [] then doc[i := Policy(key, doc[i].grants[who := remaining])]
      else
        var grants := doc[i].grants - {who};
        if grants == map[] then doc[..i] + doc[i + 1..] else doc[i := Policy(key, grants)]
  }

  function WithoutKey(doc: Document, key: Key): Document {
    if doc == [] then []
    else (if doc[0].key == key then [] else [doc[0]]) + WithoutKey(doc[1..], key)
  }

  /** One entry of the list of resources shared with someone. */
  datatype SharedEntry = SharedEntry(ownerEmail: string, resourceId: string, permissions: seq<string>)

  function ListShared(doc: Document, t: ResourceType, who: string): seq<SharedEntry> {
    if doc == [] then []
    else
      (if doc[0].key.resourceType == t && who in doc[0].grants
       then [SharedEntry(doc[0].key.ownerEmail, doc[0].key.resourceId, doc[0].grants[who])]
       else [])
      + ListShared(doc[1..], t, who)
  }

  // ----- The repository object

  class PolicyRepository {
    var policies: Document

    constructor ()
      ensures policies == []
    {
      policies := [];
    }

    method Read() returns (r: Result<Document>)
      ensures r == if ValidStore(policies) then Success(policies) else InvalidInput
    {
      var ok := ValidatePolicyStore(policies);
      r := if ok then Success(policies) else InvalidInput;
    }

    method Replace(doc: Document) returns (r: Result<()>)
      modifies this
      ensures r == if ValidStore(doc) then Success(()) else InvalidInput
      ensures policies == if ValidStore(doc) then doc else old(policies)
    {
      var ok := ValidatePolicyStore(doc);
      if ok {
        policies := doc;
      }
      r := if ok then Success(()) else InvalidInput;
    }

    method Grant(key: Key, who: string, permissions: seq<string>) returns (r: Result<seq<string>>)
      modifies this
      ensures (policies, r) == GrantStep(old(policies), key, who, permissions)
    {
      hide ValidStore, SortPolicies, NormalizePermissions, IsCanonicalEmail, SortUnique;
      var normalized := NormalizePermissions(permissions, Allowed(key.resourceType));
      if normalized.InvalidInput? || !ValidTarget(key, who) {
        return InvalidInput;
      }
      var store := Read();
      if store.InvalidInput? {
        return InvalidInput;
      }
      var doc := store.value;
      var i := IndexOf(doc, key);
      if i == |doc| {
        doc := doc + [Policy(key, map[])];
      }
      var current := if who in doc[i].grants then doc[i].grants[who] else [];
      var updated := SortUnique(current + normalized.value);
      doc := doc[i := Policy(key, doc[i].grants[who := updated])];
      assert doc == SetGrant(policies, key, who, updated);
      doc := SortPolicies(doc);
      var written := Replace(doc);
      r := if written.Success? then Success(updated) else InvalidInput;
    }

    method Revoke(key: Key, who: string, permissions: Option<seq<string>>) returns (r: Result<seq<string>>)
      modifies this
      ensures (policies, r) == RevokeStep(old(policies), key, who, permissions)
    {
      hide ValidStore, NormalizePermissions, IsCanonicalEmail, SortUnique, Minus;
      if !ValidTarget(key, who) {
        return InvalidInput;
      }
      var removed: Option<seq<string>> := None;
      if permissions.Some? {
        var normalized := NormalizePermissions(permissions.value, Allowed(key.resourceType));
        if normalized.InvalidInput? {
          return InvalidInput;
        }
        removed := Some(normalized.value);
      }
      var store := Read();
      if store.InvalidInput? {
        return InvalidInput;
      }
      var doc := store.value;
      var i := IndexOf(doc, key);
      if i == |doc| || who !in doc[i].grants {
        return Success([]);
      }
      var remaining := Remaining(doc[i].grants[who], removed);
      if remaining != [] {
        doc := doc[i := Policy(key, doc[i].grants[who := remaining])];
      } else {
        var grants := doc[i].grants - {who};
        doc := if grants == map[] then doc[..i] + doc[i + 1..] else doc[i := Policy(key, grants)];
      }
      var written := Replace(doc);
      r := if written.Success? then Success(remaining) else InvalidInput;
    }

    method Allows(key: Key, who: string, permission: string) returns (r: Result<bool>)
      ensures r == AllowsIn(policies, key, who, permission)
    {
      hide ValidStore, NormalizePermissions;
      var normalized := NormalizePermissions([permission], Allowed(key.resourceType));
      if normalized.InvalidInput? {
        return InvalidInput;
      }
      SingleNormalized(permission, Allowed(key.resourceType));
      var store := Read();
      if store.InvalidInput? {
        return InvalidInput;
      }
      r := Success(normalized.value[0] in PermissionsOf(store.value, key, who));
    }

    /** The access list of one resource. */
    method GetAcl(key: Key) returns (r: Result<map<string, seq<string>>>)
      ensures r == if ValidStore(policies) then Success(GrantsOf(policies, key)) else InvalidInput
    {
      var store := Read();
      r := if store.Success? then Success(GrantsOf(store.value, key)) else InvalidInput;
    }

    /** Everything of one type that is shared with a principal. */
    method SharedWith(t: ResourceType, who: string) returns (r: Result<seq<SharedEntry>>)
      ensures r == if ValidStore(policies) then Success(ListShared(policies, t, who)) else InvalidInput
    {
      var store := Read();
      r := if store.Success? then Success(ListShared(store.value, t, who)) else InvalidInput;
    }

    method DeleteResource(key: Key) returns (r: Result<()>)
      modifies this
      ensures (policies, r) == DeleteStep(old(policies), key)
    {
      hide ValidStore, WithoutKey;
      var store := Read();
      if store.InvalidInput? {
        return InvalidInput;
      }
      var remaining := WithoutKey(store.value, key);
      if |remaining| != |store.value| {
        r := Replace(remaining);
      } else {
        r := Success(());
      }
    }
  }

  // ----- The effect of the methods on the document

  ghost function GrantStep(doc: Document, key: Key, who: string, permissions: seq<string>)
    : (Document, Result<seq<string>>)
  {
    var normalized := NormalizePermissions(permissions, Allowed(key.resourceType));
    if normalized.InvalidInput? || !ValidTarget(key, who) || !ValidStore(doc) then (doc, InvalidInput)
    else
      var after := GrantDocument(doc, key, who, normalized.value);
      if ValidStore(after)
      then (after, Success(SortUnique(PermissionsOf(doc, key, who) + normalized.value)))
      else (doc, InvalidInput)
  }

  ghost function RevokeStep(doc: Document, key: Key, who: string, permissions: Option<seq<string>>)
    : (Document, Result<seq<string>>)
  {
    if !ValidTarget(key, who) then (doc, InvalidInput)
    else if permissions.Some? && NormalizePermissions(permissions.value, Allowed(key.resourceType)).InvalidInput?
    then (doc, InvalidInput)
    else if !ValidStore(doc) then (doc, InvalidInput)
    else
      var removed := if permissions == None then None
                     else Some(NormalizePermissions(permissions.value, Allowed(key.resourceType)).value);
      if who !in GrantsOf(doc, key) then (doc, Success([]))
      else
        var after := RevokeDocument(doc, key, who, removed);
        if ValidStore(after) then (after, Success(Remaining(PermissionsOf(doc, key, who), removed)))
        else (doc, InvalidInput)
  }

  ghost function DeleteStep(doc: Document, key: Key): (Document, Result<()>) {
    if !ValidStore(doc) then (doc, InvalidInput)
    else
      var remaining := WithoutKey(doc, key);
      if |remaining| == |doc| then (doc, Success(()))
      else if ValidStore(remaining) then (remaining, Success(()))
      else (doc, InvalidInput)
  }

  ghost function AllowsIn(doc: Document, key: Key, who: string, permission: string): Result<bool> {
    var normalized := NormalizePermissions([permission], Allowed(key.resourceType));
    if normalized.InvalidInput? || !ValidStore(doc) then InvalidInput
    else Success(Upper(Strip(permission)) in PermissionsOf(doc, key, who))
  }
}
