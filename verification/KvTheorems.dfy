/** The KV engine refines a map from paths to lists of plaintexts with a relation
    of grants, call by call and answer by answer; what follows from that over
    all runs. */
module KvTheorems {
  import opened Wrappers
  import opened Text
  import opened AuthenticatedEncryption
  import opened Base64
  import opened Kv
  import opened Versions
  import TransitText
  import P = Policies
  import PO = PolicyOutcomes
  import PT = PolicyTheorems

  /** A call of the engine with the nonce it draws, or a call of the Transit
      service on the policy file both share. */
  datatype Op =
    | Write(path: string, data: Bytes, nonce: Bytes)
    | Read(path: string, version: Option<int>)
    | Delete(path: string)
    | Grant(path: string, grantee: string, permissions: seq<string>)
    | Revoke(path: string, grantee: string, revoked: Option<seq<string>>)
    | GetAcl(path: string)
    | ListShared
    | TransitPolicyCall(policyOp: PT.Op)

  /** Who calls (None without a valid session), when, and what. */
  datatype Event = Event(identity: Option<string>, now: int, op: Op)

  ghost function Step(aead: Aead<()>, key: Bytes, s: State, e: Event): (State, Outcome<Reply>) {
    match e.op
    case Write(path, data, nonce) => WriteStep(aead, key, s, e.identity, path, data, nonce, e.now)
    case Read(path, version) => ReadStep(aead, key, s, e.identity, path, version)
    case Delete(path) => DeleteStep(s, e.identity, path)
    case Grant(path, grantee, permissions) => GrantStep(s, e.identity, path, grantee, permissions)
    case Revoke(path, grantee, revoked) => RevokeStep(s, e.identity, path, grantee, revoked)
    case GetAcl(path) => GetAclStep(s, e.identity, path)
    case ListShared => (s, ListSharedStep(s, e.identity))
    case TransitPolicyCall(policyOp) => (s.(policies := PT.DocumentStep(s.policies, policyOp)), Ok(Deleted))
  }

  ghost predicate Proper(events: seq<Event>) {
    forall i :: 0 <= i < |events| && events[i].op.TransitPolicyCall? ==>
      events[i].op.policyOp.key.resourceType == P.TransitKey
  }

  /** The state after a run from the empty engine. */
  ghost function Run(aead: Aead<()>, key: Bytes, events: seq<Event>): State
    decreases |events|
  {
    if events == [] then EMPTY
    else Step(aead, key, Run(aead, key, events[..|events| - 1]), events[|events| - 1]).0
  }

  /** What the i-th call of a run answers. */
  ghost function OutcomeAt(aead: Aead<()>, key: Bytes, events: seq<Event>, i: nat): Outcome<Reply>
    requires i < |events|
  {
    Step(aead, key, Run(aead, key, events[..i]), events[i]).1
  }

  // ----- The simple machine

  datatype Model = Model(values: map<string, seq<Bytes>>, grants: iset<PT.Tuple>, denied: seq<Denial>)

  /** Answers in the machine's terms: access lists are sets of single grants. */
  datatype Answer =
    | Stored(version: int, createdAt: int)
    | Value(data: Bytes)
    | Gone
    | Shown(grants: iset<PT.Tuple>)

  ghost function May(m: Model, identity: Option<string>, operation: string, path: string): Outcome<string> {
    if identity == None then Err(Unauthenticated)
    else
      match PathOwner(path)
      case None => Err(InvalidPath)
      case Some(owner) =>
        if identity.value == owner || PT.Tuple(P.Key(P.KvSecret, owner, path), identity.value, operation) in m.grants
        then Ok(owner) else Err(PermissionDenied)
  }

  /** Only the owner may change or read the access list of a path. */
  ghost function Owns(identity: Option<string>, path: string): Outcome<string> {
    if identity == None then Err(Unauthenticated)
    else if PathOwner(path) == None then Err(InvalidPath)
    else if PathOwner(path) != identity then Err(PermissionDenied)
    else Ok(identity.value)
  }

  /** A denial names the operation, the path, the caller and the owner; other
      refusals leave no trace. */
  ghost function Refuse(m: Model, e: KvError, operation: string, identity: Option<string>, path: string): Model {
    if e == PermissionDenied && identity.Some? && PathOwner(path).Some?
    then m.(denied := m.denied + [Denial(operation, path, identity.value, PathOwner(path).value)])
    else m
  }

  function ListAt(values: map<string, seq<Bytes>>, path: string): seq<Bytes> {
    if path in values then values[path] else []
  }

  /** The value a read shows: the last, or the one with that version number. */
  function Pick(list: seq<Bytes>, version: Option<int>): Outcome<Answer> {
    if list == [] then Err(NotFound)
    else
      var n := if version.Some? then version.value else |list|;
      if 1 <= n <= |list| then Ok(Value(list[n - 1])) else Err(VersionNotFound)
  }

  /** The grants on one resource. */
  ghost function GrantsOn(grants: iset<PT.Tuple>, key: P.Key): iset<PT.Tuple> {
    iset t: PT.Tuple | t in grants && t.key == key
  }

  /** The grants of one principal on one resource. */
  ghost function GrantsTo(grants: iset<PT.Tuple>, key: P.Key, who: string): iset<PT.Tuple> {
    iset t: PT.Tuple | t in grants && t.key == key && t.who == who
  }

  /** The KV grants of one principal. */
  ghost function KvGrantsTo(grants: iset<PT.Tuple>, who: string): iset<PT.Tuple> {
    iset t: PT.Tuple | t in grants && t.key.resourceType == P.KvSecret && t.who == who
  }

  /** A change of grants by the owner. */
  ghost function ModelManage(m: Model, identity: Option<string>, path: string, grantee: string, op: PT.Op)
    : (Model, Outcome<Answer>)
  {
    match Owns(identity, path)
    case Err(e) => (Refuse(m, e, "MANAGE_POLICY", identity, path), Err(e))
    case Ok(owner) =>
      if path !in m.values then (m, Err(NotFound))
      else if CanonicalEmail(grantee) == None || !PT.Accepted(op) then (m, Err(InvalidInput))
      else
        var grants := PT.RelationStep(m.grants, op);
        (m.(grants := grants), Ok(Shown(GrantsTo(grants, Resource(owner, path), CanonicalEmail(grantee).value))))
  }

  function OwnerOr(path: string): string {
    if PathOwner(path).Some? then PathOwner(path).value else ""
  }

  function GranteeOr(grantee: string): string {
    if CanonicalEmail(grantee).Some? then CanonicalEmail(grantee).value else ""
  }

  ghost function ModelStep(m: Model, e: Event): (Model, Outcome<Answer>) {
    match e.op
    case Write(path, data, _) => (
      match May(m, e.identity, "WRITE", path)
      case Err(err) => (Refuse(m, err, "WRITE", e.identity, path), Err(err))
      case Ok(_) =>
        var list := ListAt(m.values, path) + [data];
        (m.(values := m.values[path := list]), Ok(Stored(|list|, e.now))))
    case Read(path, version) => (
      match May(m, e.identity, "READ", path)
      case Err(err) => (Refuse(m, err, "READ", e.identity, path), Err(err))
      case Ok(_) => (m, Pick(ListAt(m.values, path), version)))
    case Delete(path) => (
      match May(m, e.identity, "DELETE", path)
      case Err(err) => (Refuse(m, err, "DELETE", e.identity, path), Err(err))
      case Ok(owner) =>
        if path !in m.values then (m, Err(NotFound))
        else
          var grants := m.grants - iset t: PT.Tuple | t.key == Resource(owner, path);
          (Model(m.values - {path}, grants, m.denied), Ok(Gone)))
    case Grant(path, grantee, permissions) =>
      ModelManage(m, e.identity, path, grantee,
        PT.Grant(Resource(OwnerOr(path), path), GranteeOr(grantee), permissions))
    case Revoke(path, grantee, revoked) =>
      ModelManage(m, e.identity, path, grantee,
        PT.Revoke(Resource(OwnerOr(path), path), GranteeOr(grantee), revoked))
    case GetAcl(path) => (
      match Owns(e.identity, path)
      case Err(err) => (Refuse(m, err, "READ_POLICY", e.identity, path), Err(err))
      case Ok(owner) =>
        if path !in m.values then (m, Err(NotFound))
        else (m, Ok(Shown(GrantsOn(m.grants, Resource(owner, path))))))
    case ListShared =>
      (m, if e.identity == None then Err(Unauthenticated) else Ok(Shown(KvGrantsTo(m.grants, e.identity.value))))
    case TransitPolicyCall(policyOp) => (m.(grants := PT.RelationStep(m.grants, policyOp)), Ok(Gone))
  }

  ghost function ModelRun(events: seq<Event>): Model
    decreases |events|
  {
    if events == [] then Model(map[], iset{}, [])
    else ModelStep(ModelRun(events[..|events| - 1]), events[|events| - 1]).0
  }

  /** The grants that a permission list, an access list and a shared list show. */
  ghost function OfPermissions(key: P.Key, who: string, permissions: seq<string>): iset<PT.Tuple> {
    iset t: PT.Tuple | t.key == key && t.who == who && t.permission in permissions
  }

  ghost function OfAcl(key: P.Key, grants: map<string, seq<string>>): iset<PT.Tuple> {
    iset t: PT.Tuple | t.key == key && t.who in grants && t.permission in grants[t.who]
  }

  ghost function OfEntries(entries: seq<P.SharedEntry>, who: string): iset<PT.Tuple> {
    iset t: PT.Tuple | t.who == who && Lists(entries, t)
  }

  /** An answer of the engine in the machine's terms, given who asked. */
  ghost function Seen(o: Outcome<Reply>, identity: Option<string>): Outcome<Answer> {
    match o
    case Err(e) => Err(e)
    case Ok(Written(version, createdAt)) => Ok(Stored(version, createdAt))
    case Ok(Plaintext(data)) => Ok(Value(data))
    case Ok(Deleted) => Ok(Gone)
    case Ok(Permissions(path, grantee, permissions)) =>
      Ok(Shown(OfPermissions(Resource(OwnerOr(path), path), grantee, permissions)))
    case Ok(Acl(path, owner, grants)) => Ok(Shown(OfAcl(Resource(owner, path), grants)))
    case Ok(SharedPaths(entries)) => Ok(Shown(OfEntries(entries, if identity.Some? then identity.value else "")))
  }

  /** Some entry lists this grant. */
  ghost predicate Lists(entries: seq<P.SharedEntry>, t: PT.Tuple) {
    exists e :: e in entries && t.key == Resource(e.ownerEmail, e.resourceId) && t.permission in e.permissions
  }

  // ----- Representation

  /** A record holds the list, numbered from 1, each entry opening to its value. */
  ghost predicate Holds(aead: Aead<()>, key: Bytes, r: Record, list: seq<Bytes>) {
    && r.latestVersion == |r.history| == |list| && list != []
    && forall i :: 0 <= i < |list| ==>
         r.history[i].version == i + 1 && Opened(aead, key, r.history[i]) == Some(list[i])
  }

  ghost predicate Represents(aead: Aead<()>, key: Bytes, s: State, m: Model) {
    && PT.Canonical(s.policies) && PT.Relation(s.policies) == m.grants
    && s.denied == m.denied
    && s.store.Keys == m.values.Keys
    && forall path :: path in s.store ==> Holds(aead, key, s.store[path], m.values[path])
  }

  /** An authorization check is a lookup in the relation. */
  lemma AuthorizedIsMay(
    aead: Aead<()>, key: Bytes, s: State, m: Model, identity: Option<string>, operation: string, path: string)
    requires Represents(aead, key, s, m) && operation in {READ, WRITE, DELETE}
    ensures Authorized(s, identity, operation, path) == May(m, identity, operation, path)
  {
    hide PathOwner, PT.Relation, Holds, P.NormalizePermissions, P.ValidStore, P.Sorted, P.PermissionsOf;
    if identity.Some? && PathOwner(path).Some? {
      var resource := Resource(PathOwner(path).value, path);
      OperationIsPermission(operation);
      PT.AllowsIsMembership(s.policies, resource, identity.value, operation);
    }
  }

  /** An operation name that is already in normal form. */
  lemma OperationIsFixed(operation: string)
    requires operation in {"READ", "WRITE", "DELETE"}
    ensures Upper(Strip(operation)) == operation && Strip(operation) != ""
  {
    StripIsIdentity(operation);
  }

  lemma OperationIsPermission(operation: string)
    requires operation in {"READ", "WRITE", "DELETE"}
    ensures P.NormalizePermissions([operation], P.Allowed(P.KvSecret)).Success?
    ensures Upper(Strip(operation)) == operation
  {
    hide Upper, Strip;
    OperationIsFixed(operation);
    assert P.Cleaned([operation]) == [operation];
  }

  lemma WriteHolds(aead: Aead<()>, key: Bytes, r: Record, list: seq<Bytes>, data: Bytes, nonce: Bytes, now: int)
    requires aead.Correct()
    requires Holds(aead, key, r, list) || (r == Record(0, []) && list == [])
    ensures
      var version := r.latestVersion + 1;
      Holds(aead, key, Record(version, r.history + [Sealed(aead, key, nonce, data, version, now)]), list + [data])
  {
    hide Opened;
    OpenedSealed(aead, key, nonce, data, r.latestVersion + 1, now);
  }

  lemma WriteRefines(aead: Aead<()>, key: Bytes, s: State, m: Model, e: Event)
    requires aead.Correct() && Represents(aead, key, s, m) && e.op.Write?
    ensures Represents(aead, key, Step(aead, key, s, e).0, ModelStep(m, e).0)
    ensures Seen(Step(aead, key, s, e).1, e.identity) == ModelStep(m, e).1
  {
    hide PT.Relation, PT.Canonical, Sealed, Authorized, May, PathOwner;
    AuthorizedIsMay(aead, key, s, m, e.identity, WRITE, e.op.path);
    hide Holds;
    var record := HistoryAt(s.store, e.op.path);
    var list := ListAt(m.values, e.op.path);
    if e.op.path in s.store {
      HoldsLength(aead, key, record, list);
    }
    WriteHolds(aead, key, record, list, e.op.data, e.op.nonce, e.now);
  }

  lemma HoldsLength(aead: Aead<()>, key: Bytes, r: Record, list: seq<Bytes>)
    requires Holds(aead, key, r, list)
    ensures r.latestVersion == |list| > 0
  {
  }

  lemma ReadRefines(aead: Aead<()>, key: Bytes, s: State, m: Model, e: Event)
    requires Represents(aead, key, s, m) && e.op.Read?
    ensures Represents(aead, key, Step(aead, key, s, e).0, ModelStep(m, e).0)
    ensures Seen(Step(aead, key, s, e).1, e.identity) == ModelStep(m, e).1
  {
    hide PT.Relation, PT.Canonical, Opened, Authorized, May, FindVersion, PathOwner;
    AuthorizedIsMay(aead, key, s, m, e.identity, READ, e.op.path);
    if e.op.path in s.store {
      var record := s.store[e.op.path];
      assert Holds(aead, key, record, m.values[e.op.path]);
      FindNumbered(record.history, VersionNumber, 1,
        if e.op.version.Some? then e.op.version.value else record.latestVersion);
    }
  }

  lemma DeleteRefines(aead: Aead<()>, key: Bytes, s: State, m: Model, e: Event)
    requires Represents(aead, key, s, m) && e.op.Delete?
    ensures Represents(aead, key, Step(aead, key, s, e).0, ModelStep(m, e).0)
    ensures Seen(Step(aead, key, s, e).1, e.identity) == ModelStep(m, e).1
  {
    hide PT.Relation, PT.Canonical, Holds, Authorized, May, P.DeleteStep, PathOwner;
    AuthorizedIsMay(aead, key, s, m, e.identity, DELETE, e.op.path);
    if May(m, e.identity, DELETE, e.op.path).Ok? {
      PT.DeleteStepRefines(s.policies, Resource(May(m, e.identity, DELETE, e.op.path).value, e.op.path));
    }
  }

  lemma GrantRefines(aead: Aead<()>, key: Bytes, s: State, m: Model, e: Event)
    requires Represents(aead, key, s, m) && e.op.Grant?
    ensures Represents(aead, key, Step(aead, key, s, e).0, ModelStep(m, e).0)
    ensures Seen(Step(aead, key, s, e).1, e.identity) == ModelStep(m, e).1
  {
    hide PT.Relation, PT.Canonical, Holds, P.GrantStep, PT.RelationStep, CanonicalEmail, PT.Accepted,
      PathOwner, OfPermissions, GrantsTo;
    var resource := Resource(OwnerOr(e.op.path), e.op.path);
    var who := GranteeOr(e.op.grantee);
    PT.GrantStepRefines(s.policies, resource, who, e.op.permissions);
    RefusedChangesNothing(m.grants, PT.Grant(resource, who, e.op.permissions));
    var (policies, g) := P.GrantStep(s.policies, resource, who, e.op.permissions);
    if g.Success? {
      forall p ensures p in g.value <==> PT.Tuple(resource, who, p) in PT.Relation(policies) {
        PT.GrantReplyIsNewList(s.policies, resource, who, e.op.permissions, p);
      }
      ReplyShowsGrants(PT.Relation(policies), resource, who, g.value);
    }
  }

  lemma RefusedChangesNothing(grants: iset<PT.Tuple>, op: PT.Op)
    ensures !PT.Accepted(op) ==> PT.RelationStep(grants, op) == grants
  {
  }

  lemma ReplyShowsGrants(grants: iset<PT.Tuple>, key: P.Key, who: string, permissions: seq<string>)
    requires forall p :: p in permissions <==> PT.Tuple(key, who, p) in grants
    ensures OfPermissions(key, who, permissions) == GrantsTo(grants, key, who)
  {
  }

  lemma RevokeRefines(aead: Aead<()>, key: Bytes, s: State, m: Model, e: Event)
    requires Represents(aead, key, s, m) && e.op.Revoke?
    ensures Represents(aead, key, Step(aead, key, s, e).0, ModelStep(m, e).0)
    ensures Seen(Step(aead, key, s, e).1, e.identity) == ModelStep(m, e).1
  {
    hide PT.Relation, PT.Canonical, Holds, P.RevokeStep, PT.RelationStep, CanonicalEmail, PT.Accepted,
      PathOwner, OfPermissions, GrantsTo;
    var resource := Resource(OwnerOr(e.op.path), e.op.path);
    var who := GranteeOr(e.op.grantee);
    PT.RevokeStepRefines(s.policies, resource, who, e.op.revoked);
    RefusedChangesNothing(m.grants, PT.Revoke(resource, who, e.op.revoked));
    var (policies, g) := P.RevokeStep(s.policies, resource, who, e.op.revoked);
    if g.Success? {
      forall p ensures p in g.value <==> PT.Tuple(resource, who, p) in PT.Relation(policies) {
        PT.RevokeReplyIsNewList(s.policies, resource, who, e.op.revoked, p);
      }
      ReplyShowsGrants(PT.Relation(policies), resource, who, g.value);
    }
  }

  lemma AclRefines(aead: Aead<()>, key: Bytes, s: State, m: Model, e: Event)
    requires Represents(aead, key, s, m) && e.op.GetAcl?
    ensures Represents(aead, key, Step(aead, key, s, e).0, ModelStep(m, e).0)
    ensures Seen(Step(aead, key, s, e).1, e.identity) == ModelStep(m, e).1
  {
    hide Holds, PathOwner, P.ValidStore, P.Sorted, P.GrantsOf;
    if Owns(e.identity, e.op.path).Ok? {
      var resource := Resource(Owns(e.identity, e.op.path).value, e.op.path);
      var grants := P.GrantsOf(s.policies, resource);
      assert OfAcl(resource, grants) == GrantsOn(m.grants, resource);
    }
  }

  /** The shared list shows a grant exactly when the relation has it. */
  lemma SharedListsRelation(doc: P.Document, who: string, t: PT.Tuple)
    requires PT.Canonical(doc) && t.who == who
    ensures Lists(P.ListShared(doc, P.KvSecret, who), t) <==> t in PT.Relation(doc) && t.key.resourceType == P.KvSecret
  {
    hide P.ListShared, P.GrantsOf, P.ValidPolicy, P.Sorted;
    var entries := P.ListShared(doc, P.KvSecret, who);
    if Lists(entries, t) {
      var e :| e in entries && t.key == Resource(e.ownerEmail, e.resourceId) && t.permission in e.permissions;
      PT.ListSharedIsTranspose(doc, P.KvSecret, who, e);
    }
    if t in PT.Relation(doc) && t.key.resourceType == P.KvSecret {
      var e := P.SharedEntry(t.key.ownerEmail, t.key.resourceId, P.GrantsOf(doc, t.key)[who]);
      PT.ListSharedIsTranspose(doc, P.KvSecret, who, e);
      assert e in entries && t.key == Resource(e.ownerEmail, e.resourceId);
    }
  }

  lemma ListRefines(aead: Aead<()>, key: Bytes, s: State, m: Model, e: Event)
    requires Represents(aead, key, s, m) && e.op.ListShared?
    ensures Represents(aead, key, Step(aead, key, s, e).0, ModelStep(m, e).0)
    ensures Seen(Step(aead, key, s, e).1, e.identity) == ModelStep(m, e).1
  {
    hide Holds, P.ListShared, Lists, PT.Relation, P.Sorted;
    if e.identity.Some? {
      var who := e.identity.value;
      var entries := P.ListShared(s.policies, P.KvSecret, who);
      forall t: PT.Tuple
        ensures t in OfEntries(entries, who) <==> t in KvGrantsTo(m.grants, who)
      {
        if t.who == who {
          SharedListsRelation(s.policies, who, t);
        }
      }
      assert OfEntries(entries, who) == KvGrantsTo(m.grants, who);
    }
  }

  lemma TransitCallRefines(aead: Aead<()>, key: Bytes, s: State, m: Model, e: Event)
    requires Represents(aead, key, s, m) && e.op.TransitPolicyCall?
    ensures Represents(aead, key, Step(aead, key, s, e).0, ModelStep(m, e).0)
    ensures Seen(Step(aead, key, s, e).1, e.identity) == ModelStep(m, e).1
  {
    hide Holds, PT.Relation, PT.Canonical, PT.RelationStep, PT.DocumentStep;
    PT.RunRefines(s.policies, [e.op.policyOp]);
    assert PT.RunDocument(s.policies, [e.op.policyOp]) == PT.DocumentStep(s.policies, e.op.policyOp);
    assert PT.RunRelation(m.grants, [e.op.policyOp]) == PT.RelationStep(m.grants, e.op.policyOp);
  }

  /** One call: the engine does and answers what the simple machine does. */
  lemma StepRefines(aead: Aead<()>, key: Bytes, s: State, m: Model, e: Event)
    requires aead.Correct() && Represents(aead, key, s, m)
    ensures Represents(aead, key, Step(aead, key, s, e).0, ModelStep(m, e).0)
    ensures Seen(Step(aead, key, s, e).1, e.identity) == ModelStep(m, e).1
  {
    hide Step, ModelStep, Represents, Seen;
    match e.op {
      case Write(_, _, _) => WriteRefines(aead, key, s, m, e);
      case Read(_, _) => ReadRefines(aead, key, s, m, e);
      case Delete(_) => DeleteRefines(aead, key, s, m, e);
      case Grant(_, _, _) => GrantRefines(aead, key, s, m, e);
      case Revoke(_, _, _) => RevokeRefines(aead, key, s, m, e);
      case GetAcl(_) => AclRefines(aead, key, s, m, e);
      case ListShared => ListRefines(aead, key, s, m, e);
      case TransitPolicyCall(_) => TransitCallRefines(aead, key, s, m, e);
    }
  }

  /** Every run of the engine represents the run of the simple machine. */
  lemma {:induction false} RunRefines(aead: Aead<()>, key: Bytes, events: seq<Event>)
    requires aead.Correct()
    ensures Represents(aead, key, Run(aead, key, events), ModelRun(events))
    decreases |events|
  {
    hide Step, ModelStep, Represents;
    if events == [] {
      EmptyRepresents(aead, key);
    } else {
      var n := |events| - 1;
      RunRefines(aead, key, events[..n]);
      StepRefines(aead, key, Run(aead, key, events[..n]), ModelRun(events[..n]), events[n]);
    }
  }

  lemma EmptyRepresents(aead: Aead<()>, key: Bytes)
    ensures Represents(aead, key, EMPTY, Model(map[], iset{}, []))
  {
  }

  /** Every answer in a run is the one the simple machine gives. */
  lemma AnswersRefine(aead: Aead<()>, key: Bytes, events: seq<Event>, i: nat)
    requires aead.Correct() && i < |events|
    ensures Seen(OutcomeAt(aead, key, events, i), events[i].identity) == ModelStep(ModelRun(events[..i]), events[i]).1
  {
    hide Step, ModelStep, Represents, Seen, Run, ModelRun;
    RunRefines(aead, key, events[..i]);
    StepRefines(aead, key, Run(aead, key, events[..i]), ModelRun(events[..i]), events[i]);
  }

  // ----- Reading back what was written

  /** How one observed call changes the values written to a path since its last
      deletion. */
  function Observe(written: seq<Bytes>, path: string, op: Op, o: Outcome<Reply>): seq<Bytes> {
    if op.Write? && op.path == path && o.Ok? then written + [op.data]
    else if op.Delete? && op.path == path && o.Ok? then []
    else written
  }

  /** The values the successful writes to a path gave since its last deletion. */
  ghost function WrittenTo(aead: Aead<()>, key: Bytes, events: seq<Event>, path: string): seq<Bytes>
    decreases |events|
  {
    if events == [] then []
    else
      var n := |events| - 1;
      Observe(WrittenTo(aead, key, events[..n], path), path, events[n].op, OutcomeAt(aead, key, events, n))
  }

  lemma StepObserves(m: Model, e: Event, o: Outcome<Reply>, path: string)
    requires Seen(o, e.identity) == ModelStep(m, e).1
    ensures ListAt(ModelStep(m, e).0.values, path) == Observe(ListAt(m.values, path), path, e.op, o)
  {
    hide May, PathOwner, CanonicalEmail, PT.RelationStep, PT.Accepted, Logged, Pick;
  }

  lemma {:induction false} ModelHoldsWritten(aead: Aead<()>, key: Bytes, events: seq<Event>, path: string)
    requires aead.Correct()
    ensures ListAt(ModelRun(events).values, path) == WrittenTo(aead, key, events, path)
    decreases |events|
  {
    hide Step, ModelStep, Seen, Observe, OutcomeAt;
    if events != [] {
      var n := |events| - 1;
      ModelHoldsWritten(aead, key, events[..n], path);
      AnswersRefine(aead, key, events, n);
      StepObserves(ModelRun(events[..n]), events[n], OutcomeAt(aead, key, events, n), path);
    }
  }

  /** After any run, a read that is authorized returns version v exactly as the
      v-th successful write since the last deletion gave it, the default read the
      last; other versions and unwritten paths are reported as such. */
  lemma ReadGivesWritten(
    aead: Aead<()>, key: Bytes, events: seq<Event>, identity: Option<string>, path: string, version: Option<int>)
    requires aead.Correct()
    requires Authorized(Run(aead, key, events), identity, READ, path).Ok?
    ensures
      var written := WrittenTo(aead, key, events, path);
      var n := if version.Some? then version.value else |written|;
      ReadStep(aead, key, Run(aead, key, events), identity, path, version).1 ==
        if written == [] then Err(NotFound)
        else if 1 <= n <= |written| then Ok(Plaintext(written[n - 1]))
        else Err(VersionNotFound)
  {
    hide Run, ModelRun, Authorized, May, WrittenTo, FindVersion, Opened, Holds, Logged;
    var s, m, e := Run(aead, key, events), ModelRun(events), Event(identity, 0, Read(path, version));
    RunRefines(aead, key, events);
    ModelHoldsWritten(aead, key, events, path);
    AuthorizedIsMay(aead, key, s, m, identity, READ, path);
    ReadRefines(aead, key, s, m, e);
  }

  /** In every reachable state a path is stored exactly when something was written
      since its last deletion, and its latest version is the number of writes. */
  lemma LatestVersionCountsWrites(aead: Aead<()>, key: Bytes, events: seq<Event>, path: string)
    requires aead.Correct()
    ensures
      var s := Run(aead, key, events);
      var written := WrittenTo(aead, key, events, path);
      && (path in s.store <==> written != [])
      && (path in s.store ==> s.store[path].latestVersion == |s.store[path].history| == |written|)
  {
    hide Run, ModelRun, WrittenTo, Opened;
    RunRefines(aead, key, events);
    ModelHoldsWritten(aead, key, events, path);
    var s, m := Run(aead, key, events), ModelRun(events);
    assert path in s.store ==> Holds(aead, key, s.store[path], m.values[path]);
  }

  /** Only writing or deleting a path touches what is stored there. */
  lemma OtherPathsUntouched(aead: Aead<()>, key: Bytes, s: State, e: Event, path: string)
    requires (e.op.Write? || e.op.Delete?) ==> e.op.path != path
    ensures var store := Step(aead, key, s, e).0.store;
      (path in store <==> path in s.store) && (path in store ==> store[path] == s.store[path])
  {
    hide Authorized, CanonicalEmail, P.GrantStep, P.RevokeStep, P.DeleteStep, PathOwner, Sealed, Opened, FindVersion;
  }

  // ----- Grants and paths

  /** Every KV grant is on a stored path and filed under that path's owner. */
  ghost predicate GrantsOnPaths(values: map<string, seq<Bytes>>, grants: iset<PT.Tuple>) {
    forall t :: t in grants && t.key.resourceType == P.KvSecret ==>
      t.key.resourceId in values && PathOwner(t.key.resourceId) == Some(t.key.ownerEmail)
  }

  lemma ManageKeepsGrants(m: Model, identity: Option<string>, path: string, grantee: string, op: PT.Op)
    requires GrantsOnPaths(m.values, m.grants)
    requires !op.Delete? && op.key == Resource(OwnerOr(path), path)
    ensures GrantsOnPaths(m.values, ModelManage(m, identity, path, grantee, op).0.grants)
    ensures ModelManage(m, identity, path, grantee, op).0.values == m.values
  {
    hide PathOwner, CanonicalEmail, PT.Accepted, P.NormalizePermissions, Logged;
  }

  lemma StepKeepsGrants(m: Model, e: Event)
    requires GrantsOnPaths(m.values, m.grants)
    requires e.op.TransitPolicyCall? ==> e.op.policyOp.key.resourceType == P.TransitKey
    ensures GrantsOnPaths(ModelStep(m, e).0.values, ModelStep(m, e).0.grants)
  {
    hide PathOwner, CanonicalEmail, PT.Accepted, P.NormalizePermissions, Logged, ModelManage, Pick;
    match e.op {
      case Grant(path, grantee, permissions) =>
        ManageKeepsGrants(m, e.identity, path, grantee,
          PT.Grant(Resource(OwnerOr(path), path), GranteeOr(grantee), permissions));
      case Revoke(path, grantee, revoked) =>
        ManageKeepsGrants(m, e.identity, path, grantee,
          PT.Revoke(Resource(OwnerOr(path), path), GranteeOr(grantee), revoked));
      case _ =>
    }
  }

  lemma {:induction false} ModelGrantsOnPaths(events: seq<Event>)
    requires Proper(events)
    ensures GrantsOnPaths(ModelRun(events).values, ModelRun(events).grants)
    decreases |events|
  {
    hide ModelStep, GrantsOnPaths;
    if events == [] {
      NoGrants();
    } else {
      var n := |events| - 1;
      ModelGrantsOnPaths(events[..n]);
      StepKeepsGrants(ModelRun(events[..n]), events[n]);
    }
  }

  lemma NoGrants()
    ensures GrantsOnPaths(map[], iset{})
  {
  }

  /** In every reachable state each KV grant in the policy file names a path that
      exists, under that path's owner. A path that does not exist, because it was
      never written or because it was deleted, has no grant at all. */
  lemma GrantsNameExistingPaths(aead: Aead<()>, key: Bytes, events: seq<Event>, t: PT.Tuple)
    requires aead.Correct() && Proper(events)
    requires t in PT.Relation(Run(aead, key, events).policies) && t.key.resourceType == P.KvSecret
    ensures t.key.resourceId in Run(aead, key, events).store
    ensures PathOwner(t.key.resourceId) == Some(t.key.ownerEmail)
    ensures WrittenTo(aead, key, events, t.key.resourceId) != []
  {
    hide Run, ModelRun, WrittenTo, PathOwner, PT.Relation, PT.Canonical, Holds;
    RunRefines(aead, key, events);
    ModelGrantsOnPaths(events);
    LatestVersionCountsWrites(aead, key, events, t.key.resourceId);
  }

  /** Only the owner can bring a path into existence. */
  lemma OnlyOwnerCreates(
    aead: Aead<()>, key: Bytes, events: seq<Event>, identity: Option<string>, path: string, data: Bytes,
    nonce: Bytes, now: int)
    requires aead.Correct() && Proper(events)
    requires path !in Run(aead, key, events).store
    ensures WriteStep(aead, key, Run(aead, key, events), identity, path, data, nonce, now).1.Ok? <==>
      identity.Some? && PathOwner(path) == identity
  {
    hide Run, ModelRun, PathOwner, PT.Relation, PT.Canonical, Holds, Authorized, Sealed, Logged;
    RunRefines(aead, key, events);
    ModelGrantsOnPaths(events);
    var s, m := Run(aead, key, events), ModelRun(events);
    AuthorizedIsMay(aead, key, s, m, identity, WRITE, path);
  }

  // ----- Owner-only calls

  /** Sharing, withdrawing and reading the access list are for the path's owner.
      Anyone else is refused with nothing changed; where the path is valid the
      refusal is PERMISSION_DENIED and recorded with caller and owner. */
  lemma OwnerCallsExactly(
    s: State, identity: Option<string>, path: string, grantee: string, permissions: seq<string>,
    revoked: Option<seq<string>>)
    requires identity == None || PathOwner(path) != identity
    ensures
      var refusal :=
        if identity == None then Unauthenticated else if PathOwner(path) == None then InvalidPath else PermissionDenied;
      && GrantStep(s, identity, path, grantee, permissions)
         == (Recording(s, refusal, "MANAGE_POLICY", identity, path), Err(refusal))
      && RevokeStep(s, identity, path, grantee, revoked)
         == (Recording(s, refusal, "MANAGE_POLICY", identity, path), Err(refusal))
      && GetAclStep(s, identity, path) == (Recording(s, refusal, "READ_POLICY", identity, path), Err(refusal))
  {
    hide PathOwner, P.GrantStep, P.RevokeStep, P.ValidStore, P.GrantsOf, CanonicalEmail;
  }

  ghost function Recording(s: State, e: KvError, operation: string, identity: Option<string>, path: string): State {
    if e == PermissionDenied && identity.Some? && PathOwner(path).Some?
    then s.(denied := s.denied + [Denial(operation, path, identity.value, PathOwner(path).value)])
    else s
  }

  /** And for the owner they change and show exactly the grants on the path. */
  lemma OwnerSharesExactly(
    aead: Aead<()>, key: Bytes, events: seq<Event>, owner: string, path: string, grantee: string, texts: seq<string>,
    revoked: Option<seq<string>>, t: PT.Tuple)
    requires aead.Correct() && Proper(events) && PathOwner(path) == Some(owner)
    ensures
      var s := Run(aead, key, events);
      var on := t.key == P.Key(P.KvSecret, owner, path) && CanonicalEmail(grantee) == Some(t.who);
      var (granted, g) := GrantStep(s, Some(owner), path, grantee, texts);
      var (withdrawn, w) := RevokeStep(s, Some(owner), path, grantee, revoked);
      && granted.store == withdrawn.store == s.store && granted.denied == withdrawn.denied == s.denied
      && (t in PT.Relation(granted.policies) <==>
            t in PT.Relation(s.policies) || (g.Ok? && on && PO.Mentions(texts, t.permission)))
      && (t in PT.Relation(withdrawn.policies) <==>
            && t in PT.Relation(s.policies)
            && !(w.Ok? && on && (revoked == None || PO.Mentions(revoked.value, t.permission))))
  {
    hide Run, ModelRun, PT.Relation, PT.Canonical, P.GrantStep, P.RevokeStep, PathOwner, CanonicalEmail, Holds,
      PO.Mentions, PO.Legible, PO.Shareable;
    RunRefines(aead, key, events);
    var s := Run(aead, key, events);
    if CanonicalEmail(grantee).Some? {
      PO.GrantsExactly(s.policies, P.Key(P.KvSecret, owner, path), CanonicalEmail(grantee).value, texts, t);
      PO.RevokesExactly(s.policies, P.Key(P.KvSecret, owner, path), CanonicalEmail(grantee).value, revoked, t);
    }
  }

  // ----- Stored versions

  /** What is stored for a version: its number and time, the nonce, and what the
      cipher returned, cut before the last sixteen bytes. */
  lemma StoredExactly(aead: Aead<()>, key: Bytes, nonce: Bytes, data: Bytes, version: int, now: int)
    requires aead.Correct()
    ensures
      var v := Sealed(aead, key, nonce, data, version, now);
      var sealed := aead.seal(key, nonce, (), data);
      && v.version == version && v.createdAt == now
      && Decode(v.nonce) == Some(nonce)
      && Decode(v.ciphertext) == Some(sealed[..|data|])
      && Decode(v.tag) == Some(sealed[|data|..]) && |sealed[|data|..]| == 16
  {
    hide Encode, Decode;
    var sealed := aead.seal(key, nonce, (), data);
    DecodeEncode(nonce);
    DecodeEncode(sealed[..|data|]);
    DecodeEncode(sealed[|data|..]);
  }

  // ----- Paths

  lemma OwnerOfPath(owner: string, rest: string)
    requires '/' !in owner
    ensures PathOwner("secret/" + owner + "/" + rest) == Some(owner)
  {
    hide TransitText.Split;
    TransitText.SplitHead(owner, '/', rest);
    TransitText.SplitHead("secret", '/', owner + "/" + rest);
    assert "secret/" + owner + "/" + rest == "secret" + ['/'] + (owner + "/" + rest);
  }

  /** The owner of a path is exactly the segment between the first two slashes,
      after "secret". */
  lemma PathOwnerIsSecondSegment(path: string, owner: string)
    ensures PathOwner(path) == Some(owner) <==>
      ('/' !in owner && exists rest :: path == "secret/" + owner + "/" + rest)
  {
    hide TransitText.Split;
    if '/' !in owner {
      forall rest | path == "secret/" + owner + "/" + rest ensures PathOwner(path) == Some(owner) {
        OwnerOfPath(owner, rest);
      }
    }
    if PathOwner(path) == Some(owner) {
      TransitText.SplitRest(path, '/');
      var tail := path[7..];
      TransitText.SplitRest(tail, '/');
      assert path == "secret/" + owner + "/" + tail[|owner| + 1..];
    }
  }
}
