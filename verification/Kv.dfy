/** The KV engine: encrypted, versioned histories per path, with access lists. */
module Kv {
  import opened Wrappers
  import opened Base64
  import opened Text
  import opened AuthenticatedEncryption
  import opened Versions
  import TransitText
  import P = Policies

  datatype Version = Version(version: int, nonce: string, ciphertext: string, tag: string, createdAt: int)

  datatype Record = Record(latestVersion: int, history: seq<Version>)

  datatype Denial = Denial(operation: string, path: string, caller: string, owner: string)

  datatype State = State(store: map<string, Record>, policies: P.Document, denied: seq<Denial>)

  const EMPTY := State(map[], [], [])

  datatype KvError =
    | Unauthenticated
    | InvalidPath
    | PermissionDenied
    | NotFound
    | VersionNotFound
    | InvalidInput
    | CorruptRecord

  type Outcome<T> = Result<T, KvError>

  datatype Reply =
    | Written(version: int, createdAt: int)
    | Plaintext(data: Bytes)
    | Deleted
    | Permissions(path: string, grantee: string, permissions: seq<string>)
    | Acl(path: string, owner: string, grants: map<string, seq<string>>)
    | SharedPaths(entries: seq<P.SharedEntry>)

  const READ := "READ"
  const WRITE := "WRITE"
  const DELETE := "DELETE"
  const MANAGE_POLICY := "MANAGE_POLICY"
  const READ_POLICY := "READ_POLICY"

  // ----- Paths

  /** The owner in secret/owner/...; None for an invalid path. */
  function PathOwner(path: string): Option<string> {
    var parts := TransitText.Split(path, '/');
    if |parts| < 3 || parts[0] != "secret" then None else Some(parts[1])
  }

  function Resource(owner: string, path: string): P.Key {
    P.Key(P.KvSecret, owner, path)
  }

  // ----- Encrypted versions

  /** Where the tag starts in what the cipher returns. */
  function TagStart(payload: Bytes): (i: nat)
    ensures i <= |payload|
  {
    if |payload| < TAG_LEN then 0 else |payload| - TAG_LEN
  }

  function Sealed(aead: Aead<()>, key: Bytes, nonce: Bytes, data: Bytes, version: int, now: int): Version {
    var payload := aead.seal(key, nonce, (), data);
    var i := TagStart(payload);
    Version(version, Encode(nonce), Encode(payload[..i]), Encode(payload[i..]), now)
  }

  function Opened(aead: Aead<()>, key: Bytes, v: Version): Option<Bytes> {
    var nonce, ciphertext, tag := Decode(v.nonce), Decode(v.ciphertext), Decode(v.tag);
    if nonce == None || ciphertext == None || tag == None then None
    else aead.open(key, nonce.value, (), ciphertext.value + tag.value)
  }

  lemma OpenedSealed(aead: Aead<()>, key: Bytes, nonce: Bytes, data: Bytes, version: int, now: int)
    requires aead.Correct()
    ensures Opened(aead, key, Sealed(aead, key, nonce, data, version, now)) == Some(data)
  {
    hide Encode, Decode;
    var payload := aead.seal(key, nonce, (), data);
    var i := TagStart(payload);
    DecodeEncode(nonce);
    DecodeEncode(payload[..i]);
    DecodeEncode(payload[i..]);
    assert payload[..i] + payload[i..] == payload;
  }

  function VersionNumber(v: Version): int {
    v.version
  }

  // ----- Authorization

  ghost function Authorized(s: State, identity: Option<string>, operation: string, path: string): Outcome<string> {
    if identity == None then Err(Unauthenticated)
    else
      match PathOwner(path)
      case None => Err(InvalidPath)
      case Some(owner) =>
        if identity.value == owner then Ok(owner)
        else
          match P.AllowsIn(s.policies, Resource(owner, path), identity.value, operation)
          case InvalidInput => Err(InvalidInput)
          case Success(allowed) => if allowed then Ok(owner) else Err(PermissionDenied)
  }

  function OwnerOnly(identity: Option<string>, path: string): Outcome<string> {
    if identity == None then Err(Unauthenticated)
    else
      match PathOwner(path)
      case None => Err(InvalidPath)
      case Some(owner) => if identity.value == owner then Ok(owner) else Err(PermissionDenied)
  }

  /** The denials after a refusal: only PERMISSION_DENIED is recorded. */
  function Logged(denied: seq<Denial>, e: KvError, operation: string, identity: Option<string>, path: string)
    : seq<Denial>
  {
    if e == PermissionDenied && identity.Some? && PathOwner(path).Some?
    then denied + [Denial(operation, path, identity.value, PathOwner(path).value)]
    else denied
  }

  // ----- The effect of the methods

  function HistoryAt(store: map<string, Record>, path: string): Record {
    if path in store then store[path] else Record(0, [])
  }

  ghost function WriteStep(
    aead: Aead<()>, key: Bytes, s: State, identity: Option<string>, path: string, data: Bytes, nonce: Bytes, now: int)
    : (State, Outcome<Reply>)
  {
    match Authorized(s, identity, WRITE, path)
    case Err(e) => (s.(denied := Logged(s.denied, e, WRITE, identity, path)), Err(e))
    case Ok(_) =>
      var record := HistoryAt(s.store, path);
      var version := record.latestVersion + 1;
      var entry := Sealed(aead, key, nonce, data, version, now);
      (s.(store := s.store[path := Record(version, record.history + [entry])]), Ok(Written(version, now)))
  }

  ghost function ReadStep(
    aead: Aead<()>, key: Bytes, s: State, identity: Option<string>, path: string, version: Option<int>)
    : (State, Outcome<Reply>)
  {
    match Authorized(s, identity, READ, path)
    case Err(e) => (s.(denied := Logged(s.denied, e, READ, identity, path)), Err(e))
    case Ok(_) =>
      if path !in s.store then (s, Err(NotFound))
      else
        var target := if version.Some? then version.value else s.store[path].latestVersion;
        match FindVersion(s.store[path].history, VersionNumber, target)
        case None => (s, Err(VersionNotFound))
        case Some(entry) =>
          var data := Opened(aead, key, entry);
          (s, if data == None then Err(CorruptRecord) else Ok(Plaintext(data.value)))
  }

  ghost function DeleteStep(s: State, identity: Option<string>, path: string): (State, Outcome<Reply>) {
    match Authorized(s, identity, DELETE, path)
    case Err(e) => (s.(denied := Logged(s.denied, e, DELETE, identity, path)), Err(e))
    case Ok(owner) =>
      if path !in s.store then (s, Err(NotFound))
      else
        var (policies, d) := P.DeleteStep(s.policies, Resource(owner, path));
        (State(s.store - {path}, policies, s.denied), if d.Success? then Ok(Deleted) else Err(InvalidInput))
  }

  ghost function GrantStep(s: State, identity: Option<string>, path: string, grantee: string, permissions: seq<string>)
    : (State, Outcome<Reply>)
  {
    match OwnerOnly(identity, path)
    case Err(e) => (s.(denied := Logged(s.denied, e, MANAGE_POLICY, identity, path)), Err(e))
    case Ok(owner) =>
      if path !in s.store then (s, Err(NotFound))
      else
        match CanonicalEmail(grantee)
        case None => (s, Err(InvalidInput))
        case Some(who) =>
          var (policies, g) := P.GrantStep(s.policies, Resource(owner, path), who, permissions);
          (s.(policies := policies), if g.Success? then Ok(Permissions(path, who, g.value)) else Err(InvalidInput))
  }

  ghost function RevokeStep(
    s: State, identity: Option<string>, path: string, grantee: string, permissions: Option<seq<string>>)
    : (State, Outcome<Reply>)
  {
    match OwnerOnly(identity, path)
    case Err(e) => (s.(denied := Logged(s.denied, e, MANAGE_POLICY, identity, path)), Err(e))
    case Ok(owner) =>
      if path !in s.store then (s, Err(NotFound))
      else
        match CanonicalEmail(grantee)
        case None => (s, Err(InvalidInput))
        case Some(who) =>
          var (policies, g) := P.RevokeStep(s.policies, Resource(owner, path), who, permissions);
          (s.(policies := policies), if g.Success? then Ok(Permissions(path, who, g.value)) else Err(InvalidInput))
  }

  ghost function GetAclStep(s: State, identity: Option<string>, path: string): (State, Outcome<Reply>) {
    match OwnerOnly(identity, path)
    case Err(e) => (s.(denied := Logged(s.denied, e, READ_POLICY, identity, path)), Err(e))
    case Ok(owner) =>
      if path !in s.store then (s, Err(NotFound))
      else if !P.ValidStore(s.policies) then (s, Err(InvalidInput))
      else (s, Ok(Acl(path, owner, P.GrantsOf(s.policies, Resource(owner, path)))))
  }

  ghost function ListSharedStep(s: State, identity: Option<string>): Outcome<Reply> {
    if identity == None then Err(Unauthenticated)
    else if !P.ValidStore(s.policies) then Err(InvalidInput)
    else Ok(SharedPaths(P.ListShared(s.policies, P.KvSecret, identity.value)))
  }

  // ----- The objects

  class KVFileStorage {
    var store: map<string, Record>

    constructor ()
      ensures store == map[]
    {
      store := map[];
    }

    method Set(path: string, record: Record)
      modifies this
      ensures store == old(store)[path := record]
    {
      store := store[path := record];
    }

    method Delete(path: string)
      modifies this
      ensures store == old(store) - {path}
    {
      if path in store {
        store := store - {path};
      }
    }
  }

  class KVEngine {
    const aead: Aead<()>
    const key: Bytes
    const storage: KVFileStorage
    const policies: P.PolicyRepository
    var denied: seq<Denial>

    constructor (aead: Aead<()>, key: Bytes, storage: KVFileStorage, policies: P.PolicyRepository)
      ensures this.aead == aead && this.key == key && this.storage == storage && this.policies == policies
      ensures denied == []
    {
      this.aead := aead;
      this.key := key;
      this.storage := storage;
      this.policies := policies;
      denied := [];
    }

    ghost function Abstract(): State
      reads this, storage, policies
    {
      State(storage.store, policies.policies, denied)
    }

    method LogDenied(operation: string, path: string, caller: string, owner: string)
      modifies this
      ensures denied == old(denied) + [Denial(operation, path, caller, owner)]
    {
      denied := denied + [Denial(operation, path, caller, owner)];
    }

    method Authorize(operation: string, path: string, identity: Option<string>) returns (o: Outcome<string>)
      modifies this
      ensures o == Authorized(old(Abstract()), identity, operation, path)
      ensures denied == if o.Ok? then old(denied) else Logged(old(denied), o.error, operation, identity, path)
    {
      hide P.AllowsIn, PathOwner;
      if identity == None {
        return Err(Unauthenticated);
      }
      var owner := PathOwner(path);
      if owner == None {
        return Err(InvalidPath);
      }
      if identity.value != owner.value {
        var allowed := policies.Allows(Resource(owner.value, path), identity.value, operation);
        if allowed.InvalidInput? {
          return Err(InvalidInput);
        }
        if !allowed.value {
          LogDenied(operation, path, identity.value, owner.value);
          return Err(PermissionDenied);
        }
      }
      o := Ok(owner.value);
    }

    method RequireOwner(operation: string, path: string, identity: Option<string>) returns (o: Outcome<string>)
      modifies this
      ensures o == OwnerOnly(identity, path)
      ensures denied == if o.Ok? then old(denied) else Logged(old(denied), o.error, operation, identity, path)
    {
      hide PathOwner;
      if identity == None {
        return Err(Unauthenticated);
      }
      var owner := PathOwner(path);
      if owner == None {
        return Err(InvalidPath);
      }
      if identity.value != owner.value {
        LogDenied(operation, path, identity.value, owner.value);
        return Err(PermissionDenied);
      }
      o := Ok(owner.value);
    }

    method Write(path: string, data: Bytes, identity: Option<string>, nonce: Bytes, now: int)
      returns (o: Outcome<Reply>)
      modifies this, storage
      ensures (Abstract(), o) == WriteStep(aead, key, old(Abstract()), identity, path, data, nonce, now)
    {
      hide Authorized, Logged, Encode;
      var owner := Authorize(WRITE, path, identity);
      if owner.Err? {
        return Err(owner.error);
      }
      var payload := aead.seal(key, nonce, (), data);
      var i := TagStart(payload);
      var record := Record(0, []);
      if path in storage.store {
        record := storage.store[path];
      }
      var newVersion := record.latestVersion + 1;
      var entry := Version(newVersion, Encode(nonce), Encode(payload[..i]), Encode(payload[i..]), now);
      record := record.(history := record.history + [entry]);
      record := record.(latestVersion := newVersion);
      storage.Set(path, record);
      o := Ok(Written(newVersion, now));
    }

    method Read(path: string, identity: Option<string>, version: Option<int>) returns (o: Outcome<Reply>)
      modifies this
      ensures (Abstract(), o) == ReadStep(aead, key, old(Abstract()), identity, path, version)
    {
      hide Authorized, Logged, Opened;
      var owner := Authorize(READ, path, identity);
      if owner.Err? {
        return Err(owner.error);
      }
      if path !in storage.store {
        return Err(NotFound);
      }
      var record := storage.store[path];
      var target := if version.Some? then version.value else record.latestVersion;
      var entry := FindVersion(record.history, VersionNumber, target);
      if entry == None {
        return Err(VersionNotFound);
      }
      var data := Opened(aead, key, entry.value);
      o := if data == None then Err(CorruptRecord) else Ok(Plaintext(data.value));
    }

    method Delete(path: string, identity: Option<string>) returns (o: Outcome<Reply>)
      modifies this, storage, policies
      ensures (Abstract(), o) == DeleteStep(old(Abstract()), identity, path)
    {
      hide Authorized, Logged, P.DeleteStep;
      var owner := Authorize(DELETE, path, identity);
      if owner.Err? {
        return Err(owner.error);
      }
      if path !in storage.store {
        return Err(NotFound);
      }
      storage.Delete(path);
      var d := policies.DeleteResource(Resource(owner.value, path));
      o := if d.Success? then Ok(Deleted) else Err(InvalidInput);
    }

    method GrantAccess(path: string, grantee: string, permissions: seq<string>, identity: Option<string>)
      returns (o: Outcome<Reply>)
      modifies this, policies
      ensures (Abstract(), o) == GrantStep(old(Abstract()), identity, path, grantee, permissions)
      ensures o.Ok? ==> identity.Some? && PathOwner(path) == identity
    {
      hide Logged, PathOwner, P.GrantStep, CanonicalEmail;
      var owner := RequireOwner(MANAGE_POLICY, path, identity);
      if owner.Err? {
        return Err(owner.error);
      }
      if path !in storage.store {
        return Err(NotFound);
      }
      var who := CanonicalEmail(grantee);
      if who == None {
        return Err(InvalidInput);
      }
      var granted := policies.Grant(Resource(owner.value, path), who.value, permissions);
      o := if granted.Success? then Ok(Permissions(path, who.value, granted.value)) else Err(InvalidInput);
    }

    method RevokeAccess(path: string, grantee: string, permissions: Option<seq<string>>, identity: Option<string>)
      returns (o: Outcome<Reply>)
      modifies this, policies
      ensures (Abstract(), o) == RevokeStep(old(Abstract()), identity, path, grantee, permissions)
      ensures o.Ok? ==> identity.Some? && PathOwner(path) == identity
    {
      hide Logged, PathOwner, P.RevokeStep, CanonicalEmail;
      var owner := RequireOwner(MANAGE_POLICY, path, identity);
      if owner.Err? {
        return Err(owner.error);
      }
      if path !in storage.store {
        return Err(NotFound);
      }
      var who := CanonicalEmail(grantee);
      if who == None {
        return Err(InvalidInput);
      }
      var remaining := policies.Revoke(Resource(owner.value, path), who.value, permissions);
      o := if remaining.Success? then Ok(Permissions(path, who.value, remaining.value)) else Err(InvalidInput);
    }

    method GetAcl(path: string, identity: Option<string>) returns (o: Outcome<Reply>)
      modifies this
      ensures (Abstract(), o) == GetAclStep(old(Abstract()), identity, path)
      ensures o.Ok? ==> identity.Some? && PathOwner(path) == identity
    {
      hide Logged, PathOwner, P.ValidStore, P.GrantsOf;
      var owner := RequireOwner(READ_POLICY, path, identity);
      if owner.Err? {
        return Err(owner.error);
      }
      if path !in storage.store {
        return Err(NotFound);
      }
      var grants := policies.GetAcl(Resource(owner.value, path));
      o := if grants.Success? then Ok(Acl(path, owner.value, grants.value)) else Err(InvalidInput);
    }

    method ListShared(identity: Option<string>) returns (o: Outcome<Reply>)
      ensures o == ListSharedStep(Abstract(), identity)
    {
      hide P.ValidStore, P.ListShared;
      if identity == None {
        return Err(Unauthenticated);
      }
      var entries := policies.SharedWith(P.KvSecret, identity.value);
      o := if entries.Success? then Ok(SharedPaths(entries.value)) else Err(InvalidInput);
    }
  }
}
