/** What holds in every run of the Transit service: the stores stay in step, key
    material is append-only until revocation, and every ciphertext issued stays
    decryptable. */
module TransitTheorems {
  import opened Wrappers
  import opened Base64
  import opened Text
  import opened AuthenticatedEncryption
  import opened TransitText
  import opened TransitStore
  import opened Transit
  import P = Policies
  import PT = PolicyTheorems
  import S = Sorting

  /** A call of the service with the random values it draws, or a call of the KV
      engine on the policy file both share. */
  datatype Op =
    | CreateKey(name: string, material: Bytes, nonce: Bytes)
    | CreateSigningKey(name: string, algorithm: Option<string>, privateKey: Bytes, publicKey: Bytes, nonce: Bytes)
    | RotateKey(name: string, keyOwner: Option<string>, material: Bytes, nonce: Bytes)
    | RevokeKey(name: string)
    | Grant(name: string, grantee: string, permissions: seq<string>, keyOwner: Option<string>)
    | RevokeAccess(name: string, grantee: string, revoked: Option<seq<string>>, keyOwner: Option<string>)
    | Encrypt(reference: string, plaintext: string, keyOwner: Option<string>, nonce: Bytes)
    | Decrypt(ciphertext: string, keyOwner: Option<string>)
    | KvPolicyCall(policyOp: PT.Op)

  datatype Event = Event(call: Call, op: Op)

  ghost predicate Drawn(op: Op) {
    match op
    case CreateKey(_, material, nonce) => |material| == KEY_LEN && |nonce| == NONCE_LEN
    case CreateSigningKey(_, _, privateKey, publicKey, nonce) =>
      |privateKey| == KEY_LEN && |publicKey| == PUBLIC_KEY_LEN && |nonce| == NONCE_LEN
    case RotateKey(_, _, material, nonce) => |material| == KEY_LEN && |nonce| == NONCE_LEN
    case Encrypt(_, _, _, nonce) => |nonce| == NONCE_LEN
    case KvPolicyCall(policyOp) => policyOp.key.resourceType == P.KvSecret
    case _ => true
  }

  ghost function Step(aead: Aead<Aad>, s: State, e: Event): (State, Outcome<Reply>) {
    match e.op
    case CreateKey(name, material, nonce) => CreateKeyStep(aead, s, e.call, name, material, nonce)
    case CreateSigningKey(name, algorithm, privateKey, publicKey, nonce) =>
      CreateSigningKeyStep(aead, s, e.call, name, algorithm, privateKey, publicKey, nonce)
    case RotateKey(name, keyOwner, material, nonce) => RotateKeyStep(aead, s, e.call, name, keyOwner, material, nonce)
    case RevokeKey(name) => RevokeKeyStep(s, e.call, name)
    case Grant(name, grantee, permissions, keyOwner) => GrantStep(s, e.call, name, grantee, permissions, keyOwner)
    case RevokeAccess(name, grantee, revoked, keyOwner) =>
      RevokeAccessStep(s, e.call, name, grantee, revoked, keyOwner)
    case Encrypt(reference, plaintext, keyOwner, nonce) =>
      EncryptStep(aead, s, e.call, reference, plaintext, keyOwner, nonce)
    case Decrypt(ciphertext, keyOwner) => DecryptStep(aead, s, e.call, ciphertext, keyOwner)
    case KvPolicyCall(policyOp) => (s.(policies := PT.DocumentStep(s.policies, policyOp)), Ok(Done))
  }

  ghost function Run(aead: Aead<Aad>, s: State, events: seq<Event>): State
    decreases |events|
  {
    if events == [] then s else Run(aead, Step(aead, s, events[0]).0, events[1..])
  }

  /** The calls of a run: random values of the right lengths, and the one DEK the
      vault holds whenever it is unlocked. */
  ghost predicate Proper(dek: Bytes, events: seq<Event>) {
    forall i :: 0 <= i < |events| ==>
      Drawn(events[i].op) && (events[i].call.dek == None || events[i].call.dek == Some(dek))
  }

  // ----- The invariant

  /** Every version of the record unwraps under its own associated data. */
  ghost predicate Opens(aead: Aead<Aad>, dek: Bytes, r: KeyRecord) {
    forall v :: 1 <= v <= |Materials(r)| ==>
      Unwrap(aead, dek, KeyAad(r.ownerEmail, r.keyName, v), Materials(r)[v - 1]).Some?
  }

  ghost predicate AllOpen(aead: Aead<Aad>, dek: Bytes, keys: KeyStore) {
    forall owner, name :: Lookup(keys, owner, name).Some? ==> Opens(aead, dek, Lookup(keys, owner, name).value)
  }

  /** Every Transit grant is on an existing key and fits that key's usage. */
  ghost predicate GrantsMatchKeys(keys: KeyStore, policies: P.Document) {
    forall t: PT.Tuple :: t in PT.Relation(policies) && t.key.resourceType == P.TransitKey ==>
      && Lookup(keys, t.key.ownerEmail, t.key.resourceId).Some?
      && t.permission in PermissionsFor(Lookup(keys, t.key.ownerEmail, t.key.resourceId).value)
  }

  ghost predicate Invariant(aead: Aead<Aad>, dek: Bytes, s: State) {
    && ValidKeyStore(s.keys)
    && PT.Canonical(s.policies)
    && AllOpen(aead, dek, s.keys)
    && GrantsMatchKeys(s.keys, s.policies)
  }

  lemma EmptyHasInvariant(aead: Aead<Aad>, dek: Bytes)
    ensures Invariant(aead, dek, EMPTY)
  {
  }

  // ----- Creating and rotating

  /** Adding a new record that opens keeps the invariant. */
  lemma CreateKeeps(aead: Aead<Aad>, dek: Bytes, s: State, r: KeyRecord)
    requires Invariant(aead, dek, s) && ValidRecord(r) && Opens(aead, dek, r)
    ensures Invariant(aead, dek, s.(keys := CreateStep(s.keys, r).0))
  {
    hide ValidRecord, Opens, Lookup, ValidKeyStore, PT.Canonical, PT.Relation, PermissionsFor;
    if ValidKeyStore(s.keys) && Lookup(s.keys, r.ownerEmail, r.keyName) == None {
      var after := s.keys + [r];
      CreateLookup(s.keys, r, "", "");
      forall owner, name
        ensures Lookup(after, owner, name) == if IsKey(r, owner, name) then Some(r) else Lookup(s.keys, owner, name)
      {
        CreateLookup(s.keys, r, owner, name);
      }
    }
  }

  lemma LegacyRecordIsGood(aead: Aead<Aad>, dek: Bytes, owner: string, name: string, material: Bytes, nonce: Bytes)
    requires aead.Correct() && |material| == KEY_LEN && |nonce| == NONCE_LEN && owner != "" && name != ""
    ensures
      var r := LegacyKey(owner, name, Wrap(aead, dek, nonce, KeyAad(owner, name, 1), material));
      ValidRecord(r) && Opens(aead, dek, r)
  {
    hide Wrap, Unwrap, IsEnvelope;
    UnwrapWrapped(aead, dek, nonce, KeyAad(owner, name, 1), material);
  }

  lemma SigningRecordIsGood(
    aead: Aead<Aad>, dek: Bytes, owner: string, name: string, aad: Aad, privateKey: Bytes, publicKey: Bytes,
    nonce: Bytes)
    requires aead.Correct() && |privateKey| == KEY_LEN && |publicKey| == PUBLIC_KEY_LEN && |nonce| == NONCE_LEN
    requires owner != "" && name != ""
    ensures
      var r := SigningKey(owner, name, SIGNING_ALGORITHM, Wrap(aead, dek, nonce, aad, privateKey), Encode(publicKey));
      ValidRecord(r) && Opens(aead, dek, r)
  {
    hide Wrap, Unwrap, Encode, Decode;
    UnwrapWrapped(aead, dek, nonce, aad, privateKey);
    DecodeEncode(publicKey);
  }

  /** A record without an owner is refused by the validator. */
  lemma UnownedIsRefused(s: State, r: KeyRecord)
    requires r.ownerEmail == ""
    ensures CreateStep(s.keys, r).0 == s.keys
  {
    assert !ValidRecord((s.keys + [r])[|s.keys|]);
  }

  lemma RotateKeeps(aead: Aead<Aad>, dek: Bytes, s: State, r: KeyRecord, material: Bytes, nonce: Bytes)
    requires aead.Correct() && |material| == KEY_LEN && |nonce| == NONCE_LEN
    requires Invariant(aead, dek, s)
    requires Lookup(s.keys, r.ownerEmail, r.keyName) == Some(r) && !r.SigningKey?
    ensures
      var version := LatestVersion(r) + 1;
      var wrapped := Wrap(aead, dek, nonce, KeyAad(r.ownerEmail, r.keyName, version), material);
      var after := ReplaceStep(s.keys, Rotated(r, wrapped));
      && after.1.Ok?
      && Invariant(aead, dek, s.(keys := after.0))
      && forall owner, name :: Lookup(after.0, owner, name)
           == if IsKey(r, owner, name) then Some(Rotated(r, wrapped)) else Lookup(s.keys, owner, name)
  {
    hide ValidRecord, Lookup, ValidKeyStore, Wrap, Unwrap, IsEnvelope, PT.Canonical, PT.Relation, Rotated, Materials;
    var version := LatestVersion(r) + 1;
    var wrapped := Wrap(aead, dek, nonce, KeyAad(r.ownerEmail, r.keyName, version), material);
    var rotated := Rotated(r, wrapped);
    UnwrapWrapped(aead, dek, nonce, KeyAad(r.ownerEmail, r.keyName, version), material);
    LookupFound(s.keys, r.ownerEmail, r.keyName);
    RotationAppends(r, wrapped);
    RotatedIdentity(r, wrapped);
    MaterialOfIsIndexing(r, 1);
    LookupIndex(s.keys, r.ownerEmail, r.keyName);
    ReplaceLookup(s.keys, rotated, "", "");
    var after := s.keys[IndexOfKey(s.keys, r.ownerEmail, r.keyName) := rotated];
    forall owner, name
      ensures Lookup(after, owner, name) == if IsKey(r, owner, name) then Some(rotated) else Lookup(s.keys, owner, name)
    {
      ReplaceLookup(s.keys, rotated, owner, name);
    }
    assert ReplaceStep(s.keys, rotated) == (after, Ok(()));
    assert Opens(aead, dek, rotated);
    assert AllOpen(aead, dek, after);
    assert GrantsMatchKeys(after, s.policies);
  }

  lemma RotatedIdentity(r: KeyRecord, material: string)
    requires !r.SigningKey?
    ensures Rotated(r, material).ownerEmail == r.ownerEmail && Rotated(r, material).keyName == r.keyName
    ensures Rotated(r, material).VersionedKey?
  {
  }

  lemma LookupIndex(keys: KeyStore, owner: string, name: string)
    ensures Lookup(keys, owner, name).Some? <==> IndexOfKey(keys, owner, name) < |keys|
  {
  }

  // ----- Revoking a key

  lemma RevokeKeeps(aead: Aead<Aad>, dek: Bytes, s: State, owner: string, name: string)
    requires Invariant(aead, dek, s) && DeleteStep(s.keys, owner, name).1.Ok?
    ensures
      var after :=
        State(DeleteStep(s.keys, owner, name).0, P.DeleteStep(s.policies, Resource(owner, name)).0, s.denied);
      Invariant(aead, dek, after)
  {
    hide ValidRecord, Lookup, ValidKeyStore, Opens, PermissionsFor, PT.Canonical, PT.Relation, P.DeleteStep;
    var keys := WithoutRecord(s.keys, owner, name);
    WithoutRecordValid(s.keys, owner, name);
    PT.DeleteStepRefines(s.policies, Resource(owner, name));
    forall o, n ensures Lookup(keys, o, n) == if o == owner && n == name then None else Lookup(s.keys, o, n) {
      DeleteLookup(s.keys, owner, name, o, n);
    }
  }

  // ----- Changing grants

  /** A permission name that is already in normal form. */
  lemma PermissionIsFixed(p: string)
    requires p in {"ENCRYPT", "DECRYPT", "SIGN", "VERIFY"}
    ensures Upper(Strip(p)) == p
  {
    StripIsIdentity(p);
  }

  lemma GrantKeeps(aead: Aead<Aad>, dek: Bytes, s: State, r: KeyRecord, who: string, permissions: seq<string>)
    requires Invariant(aead, dek, s) && Lookup(s.keys, r.ownerEmail, r.keyName) == Some(r)
    requires forall p :: p in permissions ==> p in PermissionsFor(r)
    ensures Invariant(aead, dek,
      s.(policies := P.GrantStep(s.policies, Resource(r.ownerEmail, r.keyName), who, permissions).0))
  {
    hide Lookup, ValidKeyStore, Opens, PT.Canonical, PT.Relation, P.GrantStep, P.NormalizePermissions;
    var key := Resource(r.ownerEmail, r.keyName);
    PT.GrantStepRefines(s.policies, key, who, permissions);
    if PT.Accepted(PT.Grant(key, who, permissions)) {
      P.NormalizedIsValid(permissions, P.Allowed(P.TransitKey));
      var normalized := P.NormalizePermissions(permissions, P.Allowed(P.TransitKey)).value;
      forall p | p in normalized ensures p in PermissionsFor(r) {
        var i :| 0 <= i < |permissions| && p == Upper(Strip(permissions[i]));
        assert permissions[i] in permissions;
        PermissionIsFixed(permissions[i]);
      }
    }
  }

  /** Shrinking the relation keeps the invariant. */
  lemma FewerGrantsKeep(aead: Aead<Aad>, dek: Bytes, s: State, policies: P.Document)
    requires Invariant(aead, dek, s) && PT.Canonical(policies)
    requires forall t: PT.Tuple ::
      t in PT.Relation(policies) && t.key.resourceType == P.TransitKey ==> t in PT.Relation(s.policies)
    ensures Invariant(aead, dek, s.(policies := policies))
  {
    hide Lookup, ValidKeyStore, Opens, PT.Canonical, PT.Relation;
  }

  lemma RevokeAccessKeeps(
    aead: Aead<Aad>, dek: Bytes, s: State, key: P.Key, who: string, removed: Option<seq<string>>)
    requires Invariant(aead, dek, s)
    ensures Invariant(aead, dek, s.(policies := P.RevokeStep(s.policies, key, who, removed).0))
  {
    hide PT.Canonical, PT.Relation, P.RevokeStep, P.NormalizePermissions, P.ValidTarget;
    PT.RevokeStepRefines(s.policies, key, who, removed);
    FewerGrantsKeep(aead, dek, s, P.RevokeStep(s.policies, key, who, removed).0);
  }

  /** Calls of the KV engine do not touch Transit grants. */
  lemma KvPolicyCallKeeps(aead: Aead<Aad>, dek: Bytes, s: State, op: PT.Op)
    requires Invariant(aead, dek, s) && op.key.resourceType == P.KvSecret
    ensures Invariant(aead, dek, s.(policies := PT.DocumentStep(s.policies, op)))
  {
    hide PT.Canonical, PT.Relation, PT.DocumentStep, P.NormalizePermissions, P.ValidTarget;
    PT.RunRefines(s.policies, [op]);
    assert PT.RunDocument(s.policies, [op]) == PT.DocumentStep(s.policies, op);
    assert PT.RunRelation(PT.Relation(s.policies), [op]) == PT.RelationStep(PT.Relation(s.policies), op);
    FewerGrantsKeep(aead, dek, s, PT.DocumentStep(s.policies, op));
  }

  // ----- One step

  /** The event revokes this key. */
  predicate Revokes(e: Event, owner: string, name: string) {
    e.op.RevokeKey? && e.op.name == name && e.call.identity == Some(owner) && e.call.dek.Some?
  }

  /** The key is still there, for encryption, with all its earlier material. */
  ghost predicate KeepsKey(before: KeyStore, after: KeyStore, owner: string, name: string) {
    var r, r' := Lookup(before, owner, name), Lookup(after, owner, name);
    r.Some? && !r.value.SigningKey? ==>
      r'.Some? && !r'.value.SigningKey? && Materials(r.value) <= Materials(r'.value)
  }

  lemma CreateStepKeepsKey(keys: KeyStore, r: KeyRecord, owner: string, name: string)
    requires ValidKeyStore(keys)
    ensures KeepsKey(keys, CreateStep(keys, r).0, owner, name)
  {
    hide ValidRecord, Lookup, Materials;
    if CreateStep(keys, r).1.Ok? {
      assert ValidRecord((keys + [r])[|keys|]);
      CreateLookup(keys, r, owner, name);
    }
  }

  lemma StepKeepsKey(aead: Aead<Aad>, dek: Bytes, s: State, e: Event, owner: string, name: string)
    requires aead.Correct() && Invariant(aead, dek, s) && Proper(dek, [e])
    requires !Revokes(e, owner, name)
    ensures KeepsKey(s.keys, Step(aead, s, e).0.keys, owner, name)
  {
    hide Lookup, ValidKeyStore, ValidRecord, Wrap, CreateStep, LoadKey, ValidKeyName, OwnerOnly, Rotated, Materials,
      P.GrantStep, P.RevokeStep, P.DeleteStep, P.NormalizePermissions, PT.DocumentStep, CanonicalEmail,
      ResolveKeyReference, ParseCiphertext, Encode, Decode, ReplaceStep, WithoutRecord, AllOpen, GrantsMatchKeys,
      CiphertextText, CiphertextAad;
    assert Drawn([e][0].op);
    match e.op {
      case CreateKey(name', material, nonce) =>
        if Gate(e.call) == None {
          var o := e.call.identity.value;
          CreateStepKeepsKey(s.keys,
            LegacyKey(o, name', Wrap(aead, e.call.dek.value, nonce, KeyAad(o, name', 1), material)), owner, name);
        }
      case CreateSigningKey(name', algorithm, privateKey, publicKey, nonce) =>
        if Gate(e.call) == None {
          var o := e.call.identity.value;
          var aad := WrapAad(name', SIGNING_KEY_USAGE, o, algorithm, None);
          CreateStepKeepsKey(s.keys, SigningKey(o, name', SIGNING_ALGORITHM,
            Wrap(aead, e.call.dek.value, nonce, aad, privateKey), Encode(publicKey)), owner, name);
        }
      case RotateKey(name', keyOwner, material, nonce) =>
        RotateStepKeeps(aead, dek, s, e, owner, name);
      case RevokeKey(name') =>
        if Gate(e.call) == None {
          DeleteLookup(s.keys, e.call.identity.value, name', owner, name);
        }
      case _ =>
    }
  }

  lemma OwnerOnlyIsIdentity(identity: string, name: string, keyOwner: Option<string>)
    ensures OwnerOnly(identity, name, keyOwner).Ok? ==>
      OwnerOnly(identity, name, keyOwner).value == identity && ValidKeyName(name)
  {
  }

  lemma RotateStepKeeps(aead: Aead<Aad>, dek: Bytes, s: State, e: Event, owner: string, name: string)
    requires aead.Correct() && Invariant(aead, dek, s) && Proper(dek, [e]) && e.op.RotateKey?
    ensures KeepsKey(s.keys, Step(aead, s, e).0.keys, owner, name)
    ensures Invariant(aead, dek, Step(aead, s, e).0)
  {
    hide Lookup, ValidKeyStore, ValidRecord, Wrap, ValidKeyName, OwnerOnly, Materials, Rotated, ReplaceStep, AllOpen,
      GrantsMatchKeys, IsEnvelope;
    assert Drawn([e][0].op);
    if Gate(e.call) == None {
      var identity := e.call.identity.value;
      OwnerOnlyIsIdentity(identity, e.op.name, e.op.keyOwner);
      var r := GetStep(s.keys, identity, e.op.name);
      if OwnerOnly(identity, e.op.name, e.op.keyOwner).Ok? && r.Ok? && !r.value.SigningKey? {
        LookupFound(s.keys, identity, e.op.name);
        RotateKeeps(aead, dek, s, r.value, e.op.material, e.op.nonce);
        var version := LatestVersion(r.value) + 1;
        var wrapped := Wrap(aead, dek, e.op.nonce, KeyAad(identity, e.op.name, version), e.op.material);
        UnwrapWrapped(aead, dek, e.op.nonce, KeyAad(identity, e.op.name, version), e.op.material);
        RotationAppends(r.value, wrapped);
        RotatedIdentity(r.value, wrapped);
      }
    }
  }

  lemma StepKeepsInvariant(aead: Aead<Aad>, dek: Bytes, s: State, e: Event)
    requires aead.Correct() && Invariant(aead, dek, s) && Proper(dek, [e])
    ensures Invariant(aead, dek, Step(aead, s, e).0)
  {
    hide Lookup, ValidKeyStore, ValidRecord, Wrap, CreateStep, LoadKey, ValidKeyName, OwnerOnly, Rotated, Materials,
      P.GrantStep, P.RevokeStep, P.DeleteStep, P.NormalizePermissions, PT.DocumentStep, PT.Canonical, CanonicalEmail,
      ResolveKeyReference, ParseCiphertext, Encode, Decode, ReplaceStep, DeleteStep, AllOpen, GrantsMatchKeys,
      CiphertextText, CiphertextAad, Opens;
    assert Drawn([e][0].op);
    match e.op {
      case CreateKey(name, material, nonce) => CreateKeyKeeps(aead, dek, s, e);
      case CreateSigningKey(name, algorithm, privateKey, publicKey, nonce) => CreateSigningKeyKeeps(aead, dek, s, e);
      case RotateKey(name, keyOwner, material, nonce) => RotateStepKeeps(aead, dek, s, e, "", "");
      case RevokeKey(name) =>
        if Gate(e.call) == None && DeleteStep(s.keys, e.call.identity.value, name).1.Ok? {
          RevokeKeeps(aead, dek, s, e.call.identity.value, name);
        }
      case Grant(name, grantee, permissions, keyOwner) => GrantStepKeeps(aead, dek, s, e);
      case RevokeAccess(name, grantee, revoked, keyOwner) =>
        forall key, who, removed
          ensures Invariant(aead, dek, s.(policies := P.RevokeStep(s.policies, key, who, removed).0))
        {
          RevokeAccessKeeps(aead, dek, s, key, who, removed);
        }
      case KvPolicyCall(policyOp) => KvPolicyCallKeeps(aead, dek, s, policyOp);
      case Encrypt(reference, plaintext, keyOwner, nonce) =>
      case Decrypt(ciphertext, keyOwner) =>
    }
  }

  lemma CreateKeyKeeps(aead: Aead<Aad>, dek: Bytes, s: State, e: Event)
    requires aead.Correct() && Invariant(aead, dek, s) && Proper(dek, [e]) && e.op.CreateKey?
    ensures Invariant(aead, dek, Step(aead, s, e).0)
  {
    hide Invariant, CreateStep, Wrap, ValidRecord, Opens;
    assert Drawn([e][0].op);
    if Gate(e.call) == None && ValidKeyName(e.op.name) {
      var owner := e.call.identity.value;
      var wrapped := Wrap(aead, dek, e.op.nonce, KeyAad(owner, e.op.name, 1), e.op.material);
      if owner == "" {
        UnownedIsRefused(s, LegacyKey(owner, e.op.name, wrapped));
      } else {
        LegacyRecordIsGood(aead, dek, owner, e.op.name, e.op.material, e.op.nonce);
        CreateKeeps(aead, dek, s, LegacyKey(owner, e.op.name, wrapped));
      }
    }
  }

  lemma CreateSigningKeyKeeps(aead: Aead<Aad>, dek: Bytes, s: State, e: Event)
    requires aead.Correct() && Invariant(aead, dek, s) && Proper(dek, [e]) && e.op.CreateSigningKey?
    ensures Invariant(aead, dek, Step(aead, s, e).0)
  {
    hide Invariant, CreateStep, Wrap, ValidRecord, Opens, Encode;
    assert Drawn([e][0].op);
    if Gate(e.call) == None && ValidKeyName(e.op.name) {
      var owner := e.call.identity.value;
      var aad := WrapAad(e.op.name, SIGNING_KEY_USAGE, owner, e.op.algorithm, None);
      var r := SigningKey(owner, e.op.name, SIGNING_ALGORITHM,
        Wrap(aead, dek, e.op.nonce, aad, e.op.privateKey), Encode(e.op.publicKey));
      if owner == "" {
        UnownedIsRefused(s, r);
      } else {
        SigningRecordIsGood(aead, dek, owner, e.op.name, aad, e.op.privateKey, e.op.publicKey, e.op.nonce);
        CreateKeeps(aead, dek, s, r);
      }
    }
  }

  lemma GrantStepKeeps(aead: Aead<Aad>, dek: Bytes, s: State, e: Event)
    requires Invariant(aead, dek, s) && e.op.Grant?
    ensures Invariant(aead, dek, Step(aead, s, e).0)
  {
    hide Lookup, ValidKeyStore, OwnerOnly, P.GrantStep, P.NormalizePermissions, PT.Canonical, CanonicalEmail, AllOpen,
      GrantsMatchKeys;
    if Gate(e.call) == None {
      var identity := e.call.identity.value;
      OwnerOnlyIsIdentity(identity, e.op.name, e.op.keyOwner);
      var r := GetStep(s.keys, identity, e.op.name);
      if OwnerOnly(identity, e.op.name, e.op.keyOwner).Ok? && r.Ok? {
        var normalized := P.NormalizePermissions(e.op.permissions, PermissionsFor(r.value));
        var who := CanonicalEmail(e.op.grantee);
        if normalized.Success? && who.Some? {
          LookupFound(s.keys, identity, e.op.name);
          P.NormalizedIsValid(e.op.permissions, PermissionsFor(r.value));
          GrantKeeps(aead, dek, s, r.value, who.value, normalized.value);
        }
      }
    }
  }

  // ----- Runs

  lemma ProperParts(dek: Bytes, events: seq<Event>)
    requires Proper(dek, events) && events != []
    ensures Proper(dek, [events[0]]) && Proper(dek, events[1..])
  {
  }

  /** The invariant holds in every reachable state, and a key that nobody revokes
      keeps all its material. */
  lemma {:induction false} RunKeepsInvariant(
    aead: Aead<Aad>, dek: Bytes, s: State, events: seq<Event>, owner: string, name: string)
    requires aead.Correct() && Invariant(aead, dek, s) && Proper(dek, events)
    ensures Invariant(aead, dek, Run(aead, s, events))
    ensures (forall i :: 0 <= i < |events| ==> !Revokes(events[i], owner, name)) ==>
      KeepsKey(s.keys, Run(aead, s, events).keys, owner, name)
    decreases |events|
  {
    hide Invariant, Step, Proper, Materials, Lookup, Revokes;
    if events != [] {
      var next := Step(aead, s, events[0]).0;
      ProperParts(dek, events);
      StepKeepsInvariant(aead, dek, s, events[0]);
      RunKeepsInvariant(aead, dek, next, events[1..], owner, name);
      if forall i :: 0 <= i < |events| ==> !Revokes(events[i], owner, name) {
        StepKeepsKey(aead, dek, s, events[0], owner, name);
        forall i | 0 <= i < |events[1..]| ensures !Revokes(events[1..][i], owner, name) {
          assert events[1..][i] == events[i + 1];
        }
      }
    }
  }

  // ----- Decryption of issued ciphertexts

  /** requester may use the key with this permission. */
  ghost predicate Authorized(s: State, requester: string, owner: string, name: string, permission: string) {
    requester == owner || P.AllowsIn(s.policies, Resource(owner, name), requester, permission) == P.Success(true)
  }

  lemma AuthorizedKeyFound(s: State, requester: string, owner: string, name: string, permission: string)
    requires ValidKeyStore(s.keys) && Lookup(s.keys, owner, name).Some?
    requires Authorized(s, requester, owner, name, permission)
    ensures AuthorizedKey(s, requester, owner, name, permission) == Ok(Lookup(s.keys, owner, name).value)
  {
  }

  /** A loaded version stays loadable, with the same key, as long as its material
      is kept. */
  lemma LoadedStaysLoadable(
    aead: Aead<Aad>, dek: Bytes, s: State, requester: string, owner: string, name: string,
    end: State, reader: string)
    requires ValidKeyStore(s.keys) && ValidKeyStore(end.keys)
    requires LoadKey(aead, dek, s, requester, owner, name, "ENCRYPT", None).Ok?
    requires KeepsKey(s.keys, end.keys, owner, name) && Authorized(end, reader, owner, name, "DECRYPT")
    ensures
      var loaded := LoadKey(aead, dek, s, requester, owner, name, "ENCRYPT", None).value;
      && loaded.version >= 1
      && LoadKey(aead, dek, end, reader, owner, name, "DECRYPT", Some(loaded.version)) == Ok(loaded)
  {
    hide Lookup, ValidRecord, Materials, Unwrap, MaterialOf, Authorized, P.AllowsIn;
    var r, r' := Lookup(s.keys, owner, name), Lookup(end.keys, owner, name);
    assert AuthorizedKey(s, requester, owner, name, "ENCRYPT").Ok?;
    LookupFound(s.keys, owner, name);
    LookupFound(end.keys, owner, name);
    AuthorizedKeyFound(end, reader, owner, name, "DECRYPT");
    var version := LatestVersion(r.value);
    MaterialOfIsIndexing(r.value, version);
    MaterialOfIsIndexing(r'.value, version);
  }

  /** The envelope in an issued text. */
  function Envelope(aead: Aead<Aad>, r: Resolved, loaded: LoadedKey, nonce: Bytes, plaintext: Bytes): Bytes {
    nonce + aead.seal(loaded.key, nonce, TextAad(CiphertextAad(r.keyName, loaded.version)), plaintext)
  }

  /** The issued text leads a reader back to the same key, version and envelope
      exactly when the reader names the owner. */
  lemma IssuedTextResolves(
    aead: Aead<Aad>, requester: string, reference: string, keyOwner: Option<string>, loaded: LoadedKey, nonce: Bytes,
    plaintext: Bytes, reader: string, readerOwner: Option<string>)
    requires ResolveKeyReference(requester, reference, keyOwner).Some? && loaded.version >= 1
    requires ValidKeyName(ResolveKeyReference(requester, reference, keyOwner).value.keyName)
    ensures
      var r := ResolveKeyReference(requester, reference, keyOwner).value;
      var envelope := Envelope(aead, r, loaded, nonce, plaintext);
      var text := CiphertextText(aead, r, loaded, nonce, plaintext);
      && Decode(Encode(envelope)) == Some(envelope)
      && (LeadsBack(text, r, loaded.version, Encode(envelope), reader, readerOwner)
          <==> NamesOwner(r, reader, readerOwner))
  {
    hide PrintCiphertext, Encode, Decode, CiphertextAad, ResolveKeyReference, LeadsBack, NamesOwner, ValidKeyName;
    var r := ResolveKeyReference(requester, reference, keyOwner).value;
    var envelope := Envelope(aead, r, loaded, nonce, plaintext);
    DecodeEncode(envelope);
    PrintedTextLeadsBack(requester, reference, keyOwner, loaded.version, envelope, reader, readerOwner);
  }

  /** Opening what was sealed, through the text form. */
  lemma DecryptIssued(
    aead: Aead<Aad>, s: State, call: Call, reference: string, plaintext: string, keyOwner: Option<string>, nonce: Bytes,
    end: State, reader: Call, readerOwner: Option<string>)
    requires aead.Correct() && |nonce| == NONCE_LEN
    requires Gate(call) == None && Gate(reader) == None && call.dek == reader.dek
    requires ResolveKeyReference(call.identity.value, reference, keyOwner).Some? && Decode(plaintext).Some?
    requires
      var r := ResolveKeyReference(call.identity.value, reference, keyOwner).value;
      var loaded := LoadKey(aead, call.dek.value, s, call.identity.value, r.ownerEmail, r.keyName, "ENCRYPT", None);
      && ValidKeyName(r.keyName) && NamesOwner(r, reader.identity.value, readerOwner)
      && loaded.Ok? && loaded.value.version >= 1
      && LoadKey(aead, call.dek.value, end, reader.identity.value, r.ownerEmail, r.keyName, "DECRYPT",
           Some(loaded.value.version)) == loaded
    ensures
      var r := ResolveKeyReference(call.identity.value, reference, keyOwner).value;
      var loaded := LoadKey(aead, call.dek.value, s, call.identity.value, r.ownerEmail, r.keyName, "ENCRYPT", None);
      DecryptStep(aead, end, reader, CiphertextText(aead, r, loaded.value, nonce, Decode(plaintext).value), readerOwner)
        == (end, Ok(Output(Encode(Decode(plaintext).value))))
  {
    hide ParseCiphertext, Encode, Decode, ResolveKeyReference, ValidKeyName, NamesOwner, LoadKey, CiphertextText,
      CiphertextAad;
    var r := ResolveKeyReference(call.identity.value, reference, keyOwner).value;
    var loaded := LoadKey(aead, call.dek.value, s, call.identity.value, r.ownerEmail, r.keyName, "ENCRYPT", None).value;
    var bytes := Decode(plaintext).value;
    var sealed := aead.seal(loaded.key, nonce, TextAad(CiphertextAad(r.keyName, loaded.version)), bytes);
    IssuedTextResolves(aead, call.identity.value, reference, keyOwner, loaded, nonce, bytes,
      reader.identity.value, readerOwner);
    assert (nonce + sealed)[..NONCE_LEN] == nonce && (nonce + sealed)[NONCE_LEN..] == sealed;
  }

  /** The main result. A ciphertext issued in any reachable state decrypts, in
      every later state in which its key has not been revoked, for every
      authorized caller naming the right owner, to the canonical Base64 of the
      original bytes, however many rotations and other calls lie between. */
  lemma CiphertextStaysDecryptable(
    aead: Aead<Aad>, dek: Bytes, s: State, call: Call, reference: string, plaintext: string, keyOwner: Option<string>,
    nonce: Bytes, later: seq<Event>, reader: Call, readerOwner: Option<string>)
    requires aead.Correct() && Invariant(aead, dek, s) && Proper(dek, later)
    requires call.dek == reader.dek == Some(dek) && reader.identity.Some? && |nonce| == NONCE_LEN
    requires EncryptStep(aead, s, call, reference, plaintext, keyOwner, nonce).1.Ok?
    requires
      var r := ResolveKeyReference(call.identity.value, reference, keyOwner).value;
      && (forall i :: 0 <= i < |later| ==> !Revokes(later[i], r.ownerEmail, r.keyName))
      && Authorized(Run(aead, s, later), reader.identity.value, r.ownerEmail, r.keyName, "DECRYPT")
      && NamesOwner(r, reader.identity.value, readerOwner)
    ensures
      var end := Run(aead, s, later);
      var reply := EncryptStep(aead, s, call, reference, plaintext, keyOwner, nonce).1.value;
      && reply.Output? && Decode(plaintext).Some?
      && DecryptStep(aead, end, reader, reply.text, readerOwner) == (end, Ok(Output(Encode(Decode(plaintext).value))))
  {
    hide Encode, Decode, ResolveKeyReference, ValidKeyName, NamesOwner, LoadKey, CiphertextText, DecryptStep, Run,
      Authorized, Revokes, Proper, KeepsKey, ValidKeyStore, PT.Canonical, AllOpen, GrantsMatchKeys;
    var r := ResolveKeyReference(call.identity.value, reference, keyOwner).value;
    RunKeepsInvariant(aead, dek, s, later, r.ownerEmail, r.keyName);
    var end := Run(aead, s, later);
    LoadedStaysLoadable(aead, dek, s, call.identity.value, r.ownerEmail, r.keyName, end, reader.identity.value);
    DecryptIssued(aead, s, call, reference, plaintext, keyOwner, nonce, end, reader, readerOwner);
  }

  /** And encryption never fails for lack of a usable key: in every state with
      the invariant an authorized caller gets a ciphertext. */
  lemma AuthorizedEncryptSucceeds(
    aead: Aead<Aad>, dek: Bytes, s: State, call: Call, reference: string, plaintext: string, keyOwner: Option<string>,
    nonce: Bytes)
    requires Invariant(aead, dek, s) && call.dek == Some(dek) && call.identity.Some?
    requires ResolveKeyReference(call.identity.value, reference, keyOwner).Some? && Decode(plaintext).Some?
    requires
      var r := ResolveKeyReference(call.identity.value, reference, keyOwner).value;
      && ValidKeyName(r.keyName)
      && Lookup(s.keys, r.ownerEmail, r.keyName).Some?
      && !Lookup(s.keys, r.ownerEmail, r.keyName).value.SigningKey?
      && Authorized(s, call.identity.value, r.ownerEmail, r.keyName, "ENCRYPT")
    ensures
      var o := EncryptStep(aead, s, call, reference, plaintext, keyOwner, nonce);
      o.0 == s && o.1.Ok? && o.1.value.Output?
  {
    hide Decode, ResolveKeyReference, ValidKeyName, Lookup, ValidRecord, Unwrap, MaterialOf, Materials, CiphertextText,
      Authorized, P.AllowsIn, PT.Canonical, GrantsMatchKeys, AuthorizedKey;
    var r := ResolveKeyReference(call.identity.value, reference, keyOwner).value;
    AuthorizedKeyFound(s, call.identity.value, r.ownerEmail, r.keyName, "ENCRYPT");
    LookupFound(s.keys, r.ownerEmail, r.keyName);
    var record := Lookup(s.keys, r.ownerEmail, r.keyName).value;
    LatestVersionPositive(record);
    MaterialOfIsIndexing(record, LatestVersion(record));
    assert Opens(aead, dek, record);
  }

  lemma LatestVersionPositive(r: KeyRecord)
    requires ValidRecord(r)
    ensures LatestVersion(r) >= 1
  {
  }

  /** The same from an empty store: whatever calls led to the encryption. */
  lemma EveryIssuedCiphertextDecrypts(
    aead: Aead<Aad>, dek: Bytes, before: seq<Event>, call: Call, reference: string, plaintext: string,
    keyOwner: Option<string>, nonce: Bytes, later: seq<Event>, reader: Call, readerOwner: Option<string>)
    requires aead.Correct() && Proper(dek, before) && Proper(dek, later)
    requires call.dek == reader.dek == Some(dek) && reader.identity.Some? && |nonce| == NONCE_LEN
    requires EncryptStep(aead, Run(aead, EMPTY, before), call, reference, plaintext, keyOwner, nonce).1.Ok?
    requires
      var r := ResolveKeyReference(call.identity.value, reference, keyOwner).value;
      && (forall i :: 0 <= i < |later| ==> !Revokes(later[i], r.ownerEmail, r.keyName))
      && Authorized(
           Run(aead, Run(aead, EMPTY, before), later), reader.identity.value, r.ownerEmail, r.keyName, "DECRYPT")
      && NamesOwner(r, reader.identity.value, readerOwner)
    ensures
      var s := Run(aead, EMPTY, before);
      var reply := EncryptStep(aead, s, call, reference, plaintext, keyOwner, nonce).1.value;
      && reply.Output? && Decode(plaintext).Some?
      && DecryptStep(aead, Run(aead, s, later), reader, reply.text, readerOwner).1
         == Ok(Output(Encode(Decode(plaintext).value)))
  {
    hide Run, EncryptStep, DecryptStep, ResolveKeyReference, Authorized, NamesOwner, Revokes, Proper, Encode, Decode,
      Invariant;
    EmptyHasInvariant(aead, dek);
    RunKeepsInvariant(aead, dek, EMPTY, before, "", "");
    CiphertextStaysDecryptable(aead, dek, Run(aead, EMPTY, before), call, reference, plaintext, keyOwner, nonce, later,
      reader, readerOwner);
  }

  lemma CreateSucceeds(aead: Aead<Aad>, call: Call, name: string, material: Bytes, nonce: Bytes)
    requires aead.Correct() && Gate(call) == None && call.identity.value != "" && ValidKeyName(name)
    requires |material| == KEY_LEN && |nonce| == NONCE_LEN
    ensures
      var keys := CreateKeyStep(aead, EMPTY, call, name, material, nonce).0.keys;
      var found := Lookup(keys, call.identity.value, name);
      found.Some? && !found.value.SigningKey?
  {
    hide ValidRecord, Wrap, Lookup;
    var owner := call.identity.value;
    var aad := KeyAad(owner, name, 1);
    var r := LegacyKey(owner, name, Wrap(aead, call.dek.value, nonce, aad, material));
    LegacyRecordIsGood(aead, call.dek.value, owner, name, material, nonce);
    NothingFound(owner, name);
    CreateLookup([], r, owner, name);
    assert [] + [r] == [r];
  }

  lemma NothingFound(owner: string, name: string)
    ensures Lookup([], owner, name) == None && ValidKeyStore([])
  {
  }

  /** Once a key is revoked, nobody, its owner included, gets past authorization
      for any use of it. */
  lemma RevokedKeyIsDenied(
    aead: Aead<Aad>, dek: Bytes, s: State, call: Call, name: string, requester: string, permission: string)
    requires Invariant(aead, dek, s) && RevokeKeyStep(s, call, name).1.Ok?
    requires permission in {"ENCRYPT", "DECRYPT", "SIGN", "VERIFY"}
    ensures AuthorizedKey(RevokeKeyStep(s, call, name).0, requester, call.identity.value, name, permission)
         == Err(PermissionDenied)
  {
    hide ValidKeyStore, Lookup, PT.Relation, P.DeleteStep, AllOpen, GrantsMatchKeys, P.ValidStore, P.Sorted,
      ValidKeyName;
    var owner := call.identity.value;
    var end := RevokeKeyStep(s, call, name).0;
    PT.DeleteStepRefines(s.policies, Resource(owner, name));
    DeleteLookup(s.keys, owner, name, owner, name);
    WithoutRecordValid(s.keys, owner, name);
    PermissionIsFixed(permission);
    PT.AllowsIsMembership(end.policies, Resource(owner, name), requester, permission);
    SinglePermissionAccepted(permission);
  }

  lemma SinglePermissionAccepted(permission: string)
    requires permission in {"ENCRYPT", "DECRYPT", "SIGN", "VERIFY"}
    ensures P.NormalizePermissions([permission], P.Allowed(P.TransitKey)).Success?
  {
    PermissionIsFixed(permission);
    assert P.Cleaned([permission]) == [permission];
    assert Strip(permission) != "";
  }

  // ----- Grants and keys

  /** A key created under a free name, in particular one created again after its
      revocation, starts without any grant. */
  lemma NewKeyHasNoGrants(aead: Aead<Aad>, dek: Bytes, s: State, e: Event, t: PT.Tuple)
    requires Invariant(aead, dek, s) && (e.op.CreateKey? || e.op.CreateSigningKey?)
    requires Step(aead, s, e).1.Ok?
    requires t.key == Resource(e.call.identity.value, e.op.name)
    ensures t !in PT.Relation(Step(aead, s, e).0.policies)
  {
    hide PT.Relation, PT.Canonical, AllOpen, ValidKeyStore, Wrap, Encode, ValidKeyName, Lookup;
  }

  lemma {:induction false} KeepAll(permissions: seq<string>, allowed: set<string>)
    requires forall p :: p in permissions ==> p in allowed
    ensures Keep(permissions, allowed) == permissions
  {
    if permissions != [] {
      KeepAll(permissions[1..], allowed);
      assert permissions == [permissions[0]] + permissions[1..];
    }
  }

  // ----- The order of the shared list

  lemma BeforeIsKeyOrder(a: SharedKey, b: SharedKey)
    ensures SharedBefore(a, b) <==> P.KeyLess(Resource(a.ownerEmail, a.keyName), Resource(b.ownerEmail, b.keyName))
  {
  }

  lemma SharedOrder()
    ensures S.WeakOrder(SharedBefore)
  {
    hide SharedBefore, P.KeyLess;
    P.KeyOrder();
    forall a, b ensures SharedBefore(a, b) <==> P.PolicyLess(AsPolicy(a), AsPolicy(b)) {
      BeforeIsKeyOrder(a, b);
    }
  }

  function AsPolicy(k: SharedKey): P.Policy {
    P.Policy(Resource(k.ownerEmail, k.keyName), map[])
  }

  /** The list is sorted by owner and name, and holds what was collected. */
  lemma SortSharedOrdered(keys: seq<SharedKey>)
    ensures S.InOrder(SharedBefore, SortShared(keys))
    ensures multiset(SortShared(keys)) == multiset(keys)
  {
    SharedOrder();
    S.SortOrdered(SharedBefore, keys);
    S.SortElements(SharedBefore, keys);
  }

  /** The listed form of a policy entry whose key exists. */
  ghost function Listed(keys: KeyStore, e: P.SharedEntry): SharedKey
    requires Lookup(keys, e.ownerEmail, e.resourceId).Some?
  {
    SharedKey(e.resourceId, e.ownerEmail,
      if Lookup(keys, e.ownerEmail, e.resourceId).value.SigningKey? then SIGNING_KEY_USAGE else KEY_USAGE,
      e.permissions)
  }

  /** No entry is dropped and no permission removed. */
  lemma SharedEntryIsKept(aead: Aead<Aad>, dek: Bytes, s: State, who: string, e: P.SharedEntry)
    requires Invariant(aead, dek, s) && e in P.ListShared(s.policies, P.TransitKey, who)
    ensures Lookup(s.keys, e.ownerEmail, e.resourceId).Some?
    ensures SharedFrom(s.keys, e) == [Listed(s.keys, e)]
  {
    hide Lookup, ValidKeyStore, AllOpen, P.ListShared, IsCanonicalEmail, PermissionsFor;
    PT.ListSharedIsTranspose(s.policies, P.TransitKey, who, e);
    var key := Resource(e.ownerEmail, e.resourceId);
    PT.CurrentValid(s.policies, key, who);
    assert e.permissions == P.PermissionsOf(s.policies, key, who);
    EntryPermissionsNonEmpty(s.policies, key, who);
    forall p | p in e.permissions
      ensures Lookup(s.keys, e.ownerEmail, e.resourceId).Some?
      ensures p in PermissionsFor(Lookup(s.keys, e.ownerEmail, e.resourceId).value)
    {
      assert PT.Tuple(key, who, p) in PT.Relation(s.policies);
    }
    assert e.permissions[0] in e.permissions;
    LookupFound(s.keys, e.ownerEmail, e.resourceId);
    KeepAll(e.permissions, PermissionsFor(Lookup(s.keys, e.ownerEmail, e.resourceId).value));
    SortUniqueFixed(e.permissions);
  }

  lemma EntryPermissionsNonEmpty(doc: P.Document, key: P.Key, who: string)
    requires P.ValidStore(doc) && who in P.GrantsOf(doc, key)
    ensures P.PermissionsOf(doc, key, who) != [] && Ascending(P.PermissionsOf(doc, key, who))
  {
    assert P.ValidPolicy(doc[P.IndexOf(doc, key)]);
  }

  lemma {:induction false} CollectSharedKeepsAll(
    aead: Aead<Aad>, dek: Bytes, s: State, who: string, entries: seq<P.SharedEntry>)
    requires Invariant(aead, dek, s)
    requires forall e :: e in entries ==> e in P.ListShared(s.policies, P.TransitKey, who)
    ensures forall e :: e in entries ==> Lookup(s.keys, e.ownerEmail, e.resourceId).Some?
    ensures |CollectShared(s.keys, entries)| == |entries|
    ensures forall i :: 0 <= i < |entries| ==> CollectShared(s.keys, entries)[i] == Listed(s.keys, entries[i])
  {
    hide Invariant, Lookup, SharedFrom, P.ListShared;
    if entries != [] {
      var init, last := entries[..|entries| - 1], entries[|entries| - 1];
      assert entries == init + [last];
      CollectSharedKeepsAll(aead, dek, s, who, init);
      SharedEntryIsKept(aead, dek, s, who, last);
    }
  }

  /** The list of shared keys shows every grant to the caller, in full, each once
      and sorted by owner and name: the branch for missing keys and the
      intersection with the key's usage never remove anything. */
  lemma SharedListIsComplete(aead: Aead<Aad>, dek: Bytes, s: State, call: Call)
    requires Invariant(aead, dek, s) && Gate(call) == None
    ensures ListSharedStep(s, call).Ok? && ListSharedStep(s, call).value.SharedKeys?
    ensures
      var keys := ListSharedStep(s, call).value.keys;
      var entries := P.ListShared(s.policies, P.TransitKey, call.identity.value);
      && |keys| == |entries|
      && (forall i :: 0 <= i < |keys| ==>
            Lookup(s.keys, entries[i].ownerEmail, entries[i].resourceId).Some? && keys[i] == Listed(s.keys, entries[i]))
      && forall i, j :: 0 <= i < j < |keys| ==> SharedBefore(keys[i], keys[j])
  {
    hide Lookup, ValidKeyStore, P.ListShared, P.ValidStore, P.Sorted, CollectShared, AllOpen,
      GrantsMatchKeys, SharedBefore, P.KeyLess;
    var entries := P.ListShared(s.policies, P.TransitKey, call.identity.value);
    var collected := CollectShared(s.keys, entries);
    CollectSharedKeepsAll(aead, dek, s, call.identity.value, entries);
    PT.CanonicalParts(s.policies);
    PT.ListSharedInOrder(s.policies, P.TransitKey, call.identity.value);
    forall i, j | 0 <= i < j < |collected| ensures SharedBefore(collected[i], collected[j]) {
      assert collected[i] == Listed(s.keys, entries[i]) && collected[j] == Listed(s.keys, entries[j]);
      BeforeIsKeyOrder(collected[i], collected[j]);
    }
    SharedOrder();
    S.SortFixed(SharedBefore, collected);
  }
}
