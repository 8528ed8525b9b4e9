/** The Transit service: named keys with rotation, sharing, encryption and
    decryption. */
module Transit {
  import opened Wrappers
  import opened Base64
  import opened Text
  import opened AuthenticatedEncryption
  import opened TransitText
  import opened TransitStore
  import P = Policies
  import S = Sorting

  const KEY_USAGE := "ENCRYPT_DECRYPT"
  const SIGNING_KEY_USAGE := "SIGN_VERIFY"

  /** Associated data: of wrapped key material (a JSON object with exactly these
      fields, absent ones left out) and of ciphertexts (a text). */
  datatype Aad =
    | WrapAad(keyName: string, usage: string, ownerEmail: string, algorithm: Option<string>, version: Option<int>)
    | TextAad(text: string)

  datatype Denial = Denial(requester: string, keyName: string)

  datatype State = State(keys: KeyStore, policies: P.Document, denied: seq<Denial>)

  const EMPTY := State([], [], [])

  /** Who calls, and whether the vault is unlocked: its DEK, and the identity the
      session token stands for. */
  datatype Call = Call(dek: Option<Bytes>, identity: Option<string>)

  datatype SharedKey = SharedKey(keyName: string, ownerEmail: string, usage: string, permissions: seq<string>)

  datatype Reply =
    | Done
    | Output(text: string)
    | Permissions(permissions: seq<string>)
    | NewVersion(version: int)
    | SharedKeys(keys: seq<SharedKey>)

  // ----- Wrapped key material

  function KeyAad(owner: string, name: string, version: int): Aad {
    WrapAad(name, KEY_USAGE, owner, None, if version > 1 then Some(version) else None)
  }

  function Wrap(aead: Aead<Aad>, dek: Bytes, nonce: Bytes, aad: Aad, key: Bytes): string {
    Encode(nonce + aead.seal(dek, nonce, aad, key))
  }

  function Unwrap(aead: Aead<Aad>, dek: Bytes, aad: Aad, text: string): Option<Bytes> {
    match Decode(text)
    case None => None
    case Some(envelope) =>
      if |envelope| < NONCE_LEN then None
      else
        var key := aead.open(dek, envelope[..NONCE_LEN], aad, envelope[NONCE_LEN..]);
        if key.Some? && |key.value| == KEY_LEN then key else None
  }

  lemma UnwrapWrapped(aead: Aead<Aad>, dek: Bytes, nonce: Bytes, aad: Aad, key: Bytes)
    requires aead.Correct() && |nonce| == NONCE_LEN && |key| == KEY_LEN
    ensures Unwrap(aead, dek, aad, Wrap(aead, dek, nonce, aad, key)) == Some(key)
    ensures IsEnvelope(Wrap(aead, dek, nonce, aad, key), ENVELOPE_LEN)
  {
    hide Encode, Decode;
    var envelope := nonce + aead.seal(dek, nonce, aad, key);
    DecodeEncode(envelope);
    assert envelope[..NONCE_LEN] == nonce && envelope[NONCE_LEN..] == aead.seal(dek, nonce, aad, key);
  }

  // ----- Authorization and key loading

  function PermissionsFor(r: KeyRecord): set<string> {
    if r.SigningKey? then {"SIGN", "VERIFY"} else {"ENCRYPT", "DECRYPT"}
  }

  function Resource(owner: string, name: string): P.Key {
    P.Key(P.TransitKey, owner, name)
  }

  ghost function AuthorizedKey(s: State, requester: string, owner: string, name: string, permission: string)
    : Outcome<KeyRecord>
  {
    var allowed :=
      if requester == owner then P.Success(true)
      else P.AllowsIn(s.policies, Resource(owner, name), requester, permission);
    if allowed.InvalidInput? then Err(InvalidInput)
    else if !allowed.value then Err(PermissionDenied)
    else
      match GetStep(s.keys, owner, name)
      case Ok(r) => Ok(r)
      case Err(e) => Err(if e == KeyNotFound then PermissionDenied else e)
  }

  datatype LoadedKey = LoadedKey(key: Bytes, version: int)

  /** The key material of one version (the latest when none is asked for). */
  ghost function LoadKey(
    aead: Aead<Aad>, dek: Bytes, s: State, requester: string, owner: string, name: string, permission: string,
    version: Option<int>): Outcome<LoadedKey>
  {
    match AuthorizedKey(s, requester, owner, name, permission)
    case Err(e) => Err(e)
    case Ok(r) =>
      if r.SigningKey? then Err(InvalidKeyUsage)
      else
        var selected := if version == None then LatestVersion(r) else version.value;
        match MaterialOf(r, selected)
        case None => Err(InvalidCiphertext)
        case Some(material) =>
          match Unwrap(aead, dek, KeyAad(owner, name, selected), material)
          case None => Err(DecryptionFailed)
          case Some(key) => Ok(LoadedKey(key, selected))
  }

  /** Every PERMISSION_DENIED is logged. */
  function Logged(s: State, e: TransitError, requester: string, name: string): State {
    if e == PermissionDenied then s.(denied := s.denied + [Denial(requester, name)]) else s
  }

  /** The checks before anything else. */
  function Gate(call: Call): Option<TransitError> {
    if call.dek == None then Some(VaultLocked)
    else if call.identity == None then Some(Unauthenticated)
    else None
  }

  /** The owner an owner-only operation is about: the caller. */
  function OwnerOnly(identity: string, name: string, keyOwner: Option<string>): Outcome<string> {
    if !ValidKeyName(name) then Err(InvalidInput)
    else
      var owner := if keyOwner == None then Some(identity) else CanonicalEmail(keyOwner.value);
      if owner == None then Err(InvalidInput)
      else if owner.value != identity then Err(PermissionDenied)
      else Ok(identity)
  }

  // ----- What the calls do

  ghost function CreateKeyStep(aead: Aead<Aad>, s: State, call: Call, name: string, material: Bytes, nonce: Bytes)
    : (State, Outcome<Reply>)
  {
    if Gate(call).Some? then (s, Err(Gate(call).value))
    else if !ValidKeyName(name) then (s, Err(InvalidInput))
    else
      var owner := call.identity.value;
      var (keys, o) := CreateStep(s.keys,
        LegacyKey(owner, name, Wrap(aead, call.dek.value, nonce, KeyAad(owner, name, 1), material)));
      (s.(keys := keys), if o.Ok? then Ok(Done) else Err(o.error))
  }

  ghost function CreateSigningKeyStep(
    aead: Aead<Aad>, s: State, call: Call, name: string, algorithm: Option<string>, privateKey: Bytes,
    publicKey: Bytes, nonce: Bytes): (State, Outcome<Reply>)
  {
    if Gate(call).Some? then (s, Err(Gate(call).value))
    else if !ValidKeyName(name) then (s, Err(InvalidInput))
    else if algorithm != Some(SIGNING_ALGORITHM) then (s, Err(InvalidSigningAlgorithm))
    else
      var owner := call.identity.value;
      var aad := WrapAad(name, SIGNING_KEY_USAGE, owner, algorithm, None);
      var (keys, o) := CreateStep(s.keys,
        SigningKey(owner, name, SIGNING_ALGORITHM,
          Wrap(aead, call.dek.value, nonce, aad, privateKey), Encode(publicKey)));
      (s.(keys := keys), if o.Ok? then Ok(Done) else Err(o.error))
  }

  ghost function RotateKeyStep(
    aead: Aead<Aad>, s: State, call: Call, name: string, keyOwner: Option<string>, material: Bytes, nonce: Bytes)
    : (State, Outcome<Reply>)
  {
    if Gate(call).Some? then (s, Err(Gate(call).value))
    else
      match OwnerOnly(call.identity.value, name, keyOwner)
      case Err(e) => (Logged(s, e, call.identity.value, name), Err(e))
      case Ok(owner) =>
        match GetStep(s.keys, owner, name)
        case Err(e) => (s, Err(e))
        case Ok(r) =>
          if r.SigningKey? then (s, Err(InvalidKeyUsage))
          else
            var newVersion := LatestVersion(r) + 1;
            var wrapped := Wrap(aead, call.dek.value, nonce, KeyAad(owner, name, newVersion), material);
            var (keys, o) := ReplaceStep(s.keys, Rotated(r, wrapped));
            (s.(keys := keys), if o.Ok? then Ok(NewVersion(newVersion)) else Err(o.error))
  }

  ghost function RevokeKeyStep(s: State, call: Call, name: string): (State, Outcome<Reply>) {
    if Gate(call).Some? then (s, Err(Gate(call).value))
    else if !ValidKeyName(name) then (s, Err(InvalidInput))
    else
      var (keys, o) := DeleteStep(s.keys, call.identity.value, name);
      if o.Err? then (s, Err(o.error))
      else
        var (policies, d) := P.DeleteStep(s.policies, Resource(call.identity.value, name));
        (State(keys, policies, s.denied), if d.Success? then Ok(Done) else Err(InvalidInput))
  }

  ghost function GrantStep(
    s: State, call: Call, name: string, grantee: string, permissions: seq<string>, keyOwner: Option<string>)
    : (State, Outcome<Reply>)
  {
    if Gate(call).Some? then (s, Err(Gate(call).value))
    else
      match OwnerOnly(call.identity.value, name, keyOwner)
      case Err(e) => (Logged(s, e, call.identity.value, name), Err(e))
      case Ok(owner) =>
        match GetStep(s.keys, owner, name)
        case Err(e) => (s, Err(e))
        case Ok(r) =>
          var who := CanonicalEmail(grantee);
          var normalized := P.NormalizePermissions(permissions, PermissionsFor(r));
          if who == None || normalized.InvalidInput? then (s, Err(InvalidInput))
          else
            var (policies, g) := P.GrantStep(s.policies, Resource(owner, name), who.value, normalized.value);
            (s.(policies := policies), if g.Success? then Ok(Permissions(g.value)) else Err(InvalidInput))
  }

  ghost function RevokeAccessStep(
    s: State, call: Call, name: string, grantee: string, permissions: Option<seq<string>>, keyOwner: Option<string>)
    : (State, Outcome<Reply>)
  {
    if Gate(call).Some? then (s, Err(Gate(call).value))
    else
      match OwnerOnly(call.identity.value, name, keyOwner)
      case Err(e) => (Logged(s, e, call.identity.value, name), Err(e))
      case Ok(owner) =>
        match GetStep(s.keys, owner, name)
        case Err(e) => (s, Err(e))
        case Ok(r) =>
          var who := CanonicalEmail(grantee);
          if who == None then (s, Err(InvalidInput))
          else if permissions.Some? && P.NormalizePermissions(permissions.value, PermissionsFor(r)).InvalidInput? then
            (s, Err(InvalidInput))
          else
            var removed := if permissions == None then None
                           else Some(P.NormalizePermissions(permissions.value, PermissionsFor(r)).value);
            var (policies, g) := P.RevokeStep(s.policies, Resource(owner, name), who.value, removed);
            (s.(policies := policies), if g.Success? then Ok(Permissions(g.value)) else Err(InvalidInput))
  }

  ghost function EncryptStep(
    aead: Aead<Aad>, s: State, call: Call, reference: string, plaintext: string, keyOwner: Option<string>, nonce: Bytes)
    : (State, Outcome<Reply>)
  {
    if Gate(call).Some? then (s, Err(Gate(call).value))
    else
      var resolved := ResolveKeyReference(call.identity.value, reference, keyOwner);
      if resolved == None || !ValidKeyName(resolved.value.keyName) || Decode(plaintext) == None then
        (s, Err(InvalidInput))
      else
        var r := resolved.value;
        match LoadKey(aead, call.dek.value, s, call.identity.value, r.ownerEmail, r.keyName, "ENCRYPT", None)
        case Err(e) => (Logged(s, e, call.identity.value, r.keyName), Err(e))
        case Ok(loaded) => (s, Ok(Output(CiphertextText(aead, r, loaded, nonce, Decode(plaintext).value))))
  }

  /** The text encryption prints. */
  function CiphertextText(aead: Aead<Aad>, r: Resolved, loaded: LoadedKey, nonce: Bytes, plaintext: Bytes): string {
    var sealed := aead.seal(loaded.key, nonce, TextAad(CiphertextAad(r.keyName, loaded.version)), plaintext);
    PrintCiphertext(Identifier(r.ownerEmail, r.keyName, r.qualified), loaded.version, Encode(nonce + sealed))
  }

  ghost function DecryptStep(aead: Aead<Aad>, s: State, call: Call, ciphertext: string, keyOwner: Option<string>)
    : (State, Outcome<Reply>)
  {
    if Gate(call).Some? then (s, Err(Gate(call).value))
    else
      match ParseCiphertext(ciphertext)
      case None => (s, Err(InvalidCiphertext))
      case Some(p) =>
        var resolved := ResolveKeyReference(call.identity.value, p.reference, keyOwner);
        if resolved == None || !ValidKeyName(resolved.value.keyName) || Decode(p.encoded) == None
           || |Decode(p.encoded).value| < NONCE_LEN + TAG_LEN
        then (s, Err(InvalidCiphertext))
        else
          var r := resolved.value;
          var envelope := Decode(p.encoded).value;
          match LoadKey(
            aead, call.dek.value, s, call.identity.value, r.ownerEmail, r.keyName, "DECRYPT", Some(p.version))
          case Err(e) => (Logged(s, e, call.identity.value, r.keyName), Err(e))
          case Ok(loaded) =>
            var aad := TextAad(CiphertextAad(r.keyName, p.version));
            match aead.open(loaded.key, envelope[..NONCE_LEN], aad, envelope[NONCE_LEN..])
            case None => (s, Err(DecryptionFailed))
            case Some(plaintext) => (s, Ok(Output(Encode(plaintext))))
  }

  // ----- Keys shared with the caller

  function Keep(permissions: seq<string>, allowed: set<string>): seq<string> {
    if permissions == [] then []
    else (if permissions[0] in allowed then [permissions[0]] else []) + Keep(permissions[1..], allowed)
  }

  /** What one policy entry contributes. */
  function SharedFrom(keys: KeyStore, e: P.SharedEntry): seq<SharedKey> {
    match Lookup(keys, e.ownerEmail, e.resourceId)
    case None => []
    case Some(r) =>
      var permissions := SortUnique(Keep(e.permissions, PermissionsFor(r)));
      if permissions == [] then []
      else [SharedKey(r.keyName, r.ownerEmail, if r.SigningKey? then SIGNING_KEY_USAGE else KEY_USAGE, permissions)]
  }

  function CollectShared(keys: KeyStore, entries: seq<P.SharedEntry>): seq<SharedKey> {
    if entries == [] then []
    else CollectShared(keys, entries[..|entries| - 1]) + SharedFrom(keys, entries[|entries| - 1])
  }

  predicate SharedBefore(a: SharedKey, b: SharedKey) {
    Less(a.ownerEmail, b.ownerEmail) || (a.ownerEmail == b.ownerEmail && Less(a.keyName, b.keyName))
  }

  function SortShared(keys: seq<SharedKey>): seq<SharedKey> {
    S.Sort(SharedBefore, keys)
  }

  ghost function ListSharedStep(s: State, call: Call): Outcome<Reply> {
    if Gate(call).Some? then Err(Gate(call).value)
    else if !P.ValidStore(s.policies) then Err(InvalidInput)
    else
      var entries := P.ListShared(s.policies, P.TransitKey, call.identity.value);
      if entries != [] && !ValidKeyStore(s.keys) then Err(InvalidInput)
      else Ok(SharedKeys(SortShared(CollectShared(s.keys, entries))))
  }

  // ----- The service object

  class TransitService {
    const aead: Aead<Aad>
    const repository: TransitKeyRepository
    const policies: P.PolicyRepository
    var denied: seq<Denial>

    constructor (aead: Aead<Aad>, repository: TransitKeyRepository, policies: P.PolicyRepository)
      ensures this.aead == aead && this.repository == repository && this.policies == policies && denied == []
    {
      this.aead := aead;
      this.repository := repository;
      this.policies := policies;
      denied := [];
    }

    ghost function Abstract(): State
      reads this, repository, policies
    {
      State(repository.keys, policies.policies, denied)
    }

    method Deny(requester: string, name: string)
      modifies this
      ensures Abstract() == Logged(old(Abstract()), PermissionDenied, requester, name)
    {
      denied := denied + [Denial(requester, name)];
    }

    method CreateKey(call: Call, name: string, material: Bytes, nonce: Bytes) returns (o: Outcome<Reply>)
      modifies repository
      ensures (Abstract(), o) == CreateKeyStep(aead, old(Abstract()), call, name, material, nonce)
    {
      hide ValidKeyName, Wrap, CreateStep;
      if Gate(call).Some? {
        return Err(Gate(call).value);
      }
      if !ValidKeyName(name) {
        return Err(InvalidInput);
      }
      var owner := call.identity.value;
      var wrapped := Wrap(aead, call.dek.value, nonce, KeyAad(owner, name, 1), material);
      var r := repository.CreateKey(LegacyKey(owner, name, wrapped));
      o := if r.Ok? then Ok(Done) else Err(r.error);
    }

    method CreateSigningKey(
      call: Call, name: string, algorithm: Option<string>, privateKey: Bytes, publicKey: Bytes, nonce: Bytes)
      returns (o: Outcome<Reply>)
      modifies repository
      ensures (Abstract(), o)
           == CreateSigningKeyStep(aead, old(Abstract()), call, name, algorithm, privateKey, publicKey, nonce)
    {
      hide ValidKeyName, Wrap, CreateStep, Encode;
      if Gate(call).Some? {
        return Err(Gate(call).value);
      }
      if !ValidKeyName(name) {
        return Err(InvalidInput);
      }
      if algorithm != Some(SIGNING_ALGORITHM) {
        return Err(InvalidSigningAlgorithm);
      }
      var owner := call.identity.value;
      var aad := WrapAad(name, SIGNING_KEY_USAGE, owner, algorithm, None);
      var wrapped := Wrap(aead, call.dek.value, nonce, aad, privateKey);
      var r := repository.CreateKey(SigningKey(owner, name, SIGNING_ALGORITHM, wrapped, Encode(publicKey)));
      o := if r.Ok? then Ok(Done) else Err(r.error);
    }

    method RotateKey(call: Call, name: string, keyOwner: Option<string>, material: Bytes, nonce: Bytes)
      returns (o: Outcome<Reply>)
      modifies this, repository
      ensures (Abstract(), o) == RotateKeyStep(aead, old(Abstract()), call, name, keyOwner, material, nonce)
    {
      hide OwnerOnly, Wrap, GetStep, ReplaceStep;
      if Gate(call).Some? {
        return Err(Gate(call).value);
      }
      var owner := OwnerOnly(call.identity.value, name, keyOwner);
      if owner.Err? {
        if owner.error == PermissionDenied {
          Deny(call.identity.value, name);
        }
        return Err(owner.error);
      }
      var r := repository.GetKey(owner.value, name);
      if r.Err? {
        return Err(r.error);
      }
      if r.value.SigningKey? {
        return Err(InvalidKeyUsage);
      }
      var newVersion := LatestVersion(r.value) + 1;
      var wrapped := Wrap(aead, call.dek.value, nonce, KeyAad(owner.value, name, newVersion), material);
      var versions := if r.value.VersionedKey? then r.value.versions else [Version(1, r.value.material)];
      versions := versions + [Version(newVersion, wrapped)];
      var w := repository.ReplaceKey(VersionedKey(r.value.ownerEmail, r.value.keyName, newVersion, versions));
      o := if w.Ok? then Ok(NewVersion(newVersion)) else Err(w.error);
    }

    method RevokeKey(call: Call, name: string) returns (o: Outcome<Reply>)
      modifies repository, policies
      ensures (Abstract(), o) == RevokeKeyStep(old(Abstract()), call, name)
    {
      hide ValidKeyName, DeleteStep, P.DeleteStep;
      if Gate(call).Some? {
        return Err(Gate(call).value);
      }
      if !ValidKeyName(name) {
        return Err(InvalidInput);
      }
      var r := repository.DeleteKey(call.identity.value, name);
      if r.Err? {
        DeleteErrorKeeps(old(repository.keys), call.identity.value, name);
        return Err(r.error);
      }
      var d := policies.DeleteResource(Resource(call.identity.value, name));
      o := if d.Success? then Ok(Done) else Err(InvalidInput);
    }

    method GrantKeyAccess(call: Call, name: string, grantee: string, permissions: seq<string>, keyOwner: Option<string>)
      returns (o: Outcome<Reply>)
      modifies this, policies
      ensures (Abstract(), o) == GrantStep(old(Abstract()), call, name, grantee, permissions, keyOwner)
    {
      hide OwnerOnly, GetStep, CanonicalEmail, P.NormalizePermissions, P.GrantStep;
      if Gate(call).Some? {
        return Err(Gate(call).value);
      }
      var owner := OwnerOnly(call.identity.value, name, keyOwner);
      if owner.Err? {
        if owner.error == PermissionDenied {
          Deny(call.identity.value, name);
        }
        return Err(owner.error);
      }
      var r := repository.GetKey(owner.value, name);
      if r.Err? {
        return Err(r.error);
      }
      var who := CanonicalEmail(grantee);
      if who == None {
        return Err(InvalidInput);
      }
      var normalized := P.NormalizePermissions(permissions, PermissionsFor(r.value));
      if normalized.InvalidInput? {
        return Err(InvalidInput);
      }
      var g := policies.Grant(Resource(owner.value, name), who.value, normalized.value);
      o := if g.Success? then Ok(Permissions(g.value)) else Err(InvalidInput);
    }

    method RevokeKeyAccess(
      call: Call, name: string, grantee: string, permissions: Option<seq<string>>, keyOwner: Option<string>)
      returns (o: Outcome<Reply>)
      modifies this, policies
      ensures (Abstract(), o) == RevokeAccessStep(old(Abstract()), call, name, grantee, permissions, keyOwner)
    {
      hide OwnerOnly, GetStep, CanonicalEmail, P.NormalizePermissions, P.RevokeStep;
      if Gate(call).Some? {
        return Err(Gate(call).value);
      }
      var owner := OwnerOnly(call.identity.value, name, keyOwner);
      if owner.Err? {
        if owner.error == PermissionDenied {
          Deny(call.identity.value, name);
        }
        return Err(owner.error);
      }
      var r := repository.GetKey(owner.value, name);
      if r.Err? {
        return Err(r.error);
      }
      var who := CanonicalEmail(grantee);
      if who == None {
        return Err(InvalidInput);
      }
      var removed: Option<seq<string>> := None;
      if permissions.Some? {
        var normalized := P.NormalizePermissions(permissions.value, PermissionsFor(r.value));
        if normalized.InvalidInput? {
          return Err(InvalidInput);
        }
        removed := Some(normalized.value);
      }
      var g := policies.Revoke(Resource(owner.value, name), who.value, removed);
      o := if g.Success? then Ok(Permissions(g.value)) else Err(InvalidInput);
    }

    method GetAuthorizedKey(requester: string, owner: string, name: string, permission: string)
      returns (o: Outcome<KeyRecord>)
      modifies this
      ensures o == AuthorizedKey(old(Abstract()), requester, owner, name, permission)
      ensures o.Ok? ==>
        && o == GetStep(repository.keys, owner, name)
        && (requester == owner
            || P.AllowsIn(policies.policies, Resource(owner, name), requester, permission) == P.Success(true))
      ensures Abstract() == if o.Err? then Logged(old(Abstract()), o.error, requester, name) else old(Abstract())
    {
      hide GetStep, P.AllowsIn;
      if requester != owner {
        var allowed := policies.Allows(Resource(owner, name), requester, permission);
        if allowed.InvalidInput? {
          return Err(InvalidInput);
        }
        if !allowed.value {
          Deny(requester, name);
          return Err(PermissionDenied);
        }
      }
      var r := repository.GetKey(owner, name);
      if r.Err? && r.error == KeyNotFound {
        Deny(requester, name);
        return Err(PermissionDenied);
      }
      if r.Err? {
        GetStepError(repository.keys, owner, name);
      }
      o := r;
    }

    method LoadEncryptionKey(
      dek: Bytes, requester: string, owner: string, name: string, permission: string, version: Option<int>)
      returns (o: Outcome<LoadedKey>)
      modifies this
      ensures o == LoadKey(aead, dek, old(Abstract()), requester, owner, name, permission, version)
      ensures o.Ok? ==>
        && GetStep(repository.keys, owner, name).Ok?
        && o.value.version
           == if version == None then LatestVersion(GetStep(repository.keys, owner, name).value) else version.value
      ensures Abstract() == if o.Err? then Logged(old(Abstract()), o.error, requester, name) else old(Abstract())
    {
      hide AuthorizedKey, Unwrap, MaterialOf;
      var r := GetAuthorizedKey(requester, owner, name, permission);
      if r.Err? {
        return Err(r.error);
      }
      if r.value.SigningKey? {
        return Err(InvalidKeyUsage);
      }
      var selected := if version == None then LatestVersion(r.value) else version.value;
      var material := MaterialOf(r.value, selected);
      if material == None {
        return Err(InvalidCiphertext);
      }
      var key := Unwrap(aead, dek, KeyAad(owner, name, selected), material.value);
      if key == None {
        return Err(DecryptionFailed);
      }
      o := Ok(LoadedKey(key.value, selected));
    }

    method Encrypt(call: Call, reference: string, plaintext: string, keyOwner: Option<string>, nonce: Bytes)
      returns (o: Outcome<Reply>)
      modifies this
      ensures (Abstract(), o) == EncryptStep(aead, old(Abstract()), call, reference, plaintext, keyOwner, nonce)
    {
      hide ResolveKeyReference, ValidKeyName, Decode, LoadKey, CiphertextText;
      if Gate(call).Some? {
        return Err(Gate(call).value);
      }
      var resolved := ResolveKeyReference(call.identity.value, reference, keyOwner);
      if resolved == None || !ValidKeyName(resolved.value.keyName) || Decode(plaintext) == None {
        return Err(InvalidInput);
      }
      var r := resolved.value;
      var loaded := LoadEncryptionKey(
        call.dek.value, call.identity.value, r.ownerEmail, r.keyName, "ENCRYPT", None);
      if loaded.Err? {
        return Err(loaded.error);
      }
      o := Ok(Output(CiphertextText(aead, r, loaded.value, nonce, Decode(plaintext).value)));
    }

    method Decrypt(call: Call, ciphertext: string, keyOwner: Option<string>) returns (o: Outcome<Reply>)
      modifies this
      ensures (Abstract(), o) == DecryptStep(aead, old(Abstract()), call, ciphertext, keyOwner)
    {
      hide ParseCiphertext, ResolveKeyReference, ValidKeyName, Decode, LoadKey, Encode, CiphertextAad;
      if Gate(call).Some? {
        return Err(Gate(call).value);
      }
      var parsed := ParseCiphertext(ciphertext);
      if parsed == None {
        return Err(InvalidCiphertext);
      }
      var p := parsed.value;
      var resolved := ResolveKeyReference(call.identity.value, p.reference, keyOwner);
      if resolved == None || !ValidKeyName(resolved.value.keyName) || Decode(p.encoded) == None
         || |Decode(p.encoded).value| < NONCE_LEN + TAG_LEN
      {
        return Err(InvalidCiphertext);
      }
      var r := resolved.value;
      var envelope := Decode(p.encoded).value;
      var loaded := LoadEncryptionKey(
        call.dek.value, call.identity.value, r.ownerEmail, r.keyName, "DECRYPT", Some(p.version));
      if loaded.Err? {
        return Err(loaded.error);
      }
      var plaintext := aead.open(
        loaded.value.key, envelope[..NONCE_LEN], TextAad(CiphertextAad(r.keyName, p.version)), envelope[NONCE_LEN..]);
      if plaintext == None {
        return Err(DecryptionFailed);
      }
      o := Ok(Output(Encode(plaintext.value)));
    }

    method ListSharedKeys(call: Call) returns (o: Outcome<Reply>)
      ensures o == ListSharedStep(Abstract(), call)
    {
      hide ValidKeyStore, P.ValidStore, P.ListShared, Lookup, SortShared, SortUnique;
      if Gate(call).Some? {
        return Err(Gate(call).value);
      }
      var shared := policies.SharedWith(P.TransitKey, call.identity.value);
      if shared.InvalidInput? {
        return Err(InvalidInput);
      }
      var entries := shared.value;
      var keys: seq<SharedKey> := [];
      for i := 0 to |entries|
        invariant keys == CollectShared(repository.keys, entries[..i])
        invariant i > 0 ==> ValidKeyStore(repository.keys)
      {
        var e := entries[i];
        assert entries[..i + 1][..i] == entries[..i];
        var r := repository.GetKey(e.ownerEmail, e.resourceId);
        if r.Ok? {
          var permissions := SortUnique(Keep(e.permissions, PermissionsFor(r.value)));
          if permissions != [] {
            var usage := if r.value.SigningKey? then SIGNING_KEY_USAGE else KEY_USAGE;
            keys := keys + [SharedKey(r.value.keyName, r.value.ownerEmail, usage, permissions)];
          }
        } else if r.error != KeyNotFound {
          return Err(InvalidInput);
        }
      }
      assert entries[..|entries|] == entries;
      o := Ok(SharedKeys(SortShared(keys)));
    }
  }

  lemma GetStepError(keys: KeyStore, owner: string, name: string)
    ensures GetStep(keys, owner, name).Err? ==> GetStep(keys, owner, name).error in {InvalidInput, KeyNotFound}
  {
  }

  lemma DeleteErrorKeeps(keys: KeyStore, owner: string, name: string)
    ensures DeleteStep(keys, owner, name).1.Err? ==> DeleteStep(keys, owner, name).0 == keys
  {
  }
}
