/** The Transit service refines a map from owners and names to lists of key
    material with a relation of grants, call by call and answer by answer. The
    machine states its own conditions and prints its own texts. */
module TransitModel {
  import opened Wrappers
  import opened Base64
  import opened Text
  import opened Decimal
  import opened AuthenticatedEncryption
  import opened TransitText
  import opened TransitTextOutcomes
  import opened TransitStore
  import opened Transit
  import opened TransitTheorems
  import P = Policies
  import PO = PolicyOutcomes
  import PT = PolicyTheorems

  // ----- The simple machine

  /** Key material and the nonce it was wrapped with. */
  datatype Secret = Secret(material: Bytes, nonce: Bytes)

  /** A key: the material of version 1, 2, ..., or a signing pair. */
  datatype Content = Encryption(versions: seq<Secret>) | Signing(privateKey: Secret, publicKey: Bytes)

  /** Keys by owner and name, grants, and the denials so far. */
  datatype Model = Model(keys: map<(string, string), Content>, grants: iset<PT.Tuple>, denied: seq<Denial>)

  datatype Answer = Finished | Text(text: string) | Numbered(version: int) | Granted(permissions: iset<string>)

  ghost predicate NameFits(name: string) {
    name != "" && !IsSpace(name[0]) && !IsSpace(name[|name| - 1]) && ':' !in name
  }

  function KeyOf(owner: string, name: string): P.Key {
    P.Key(P.TransitKey, owner, name)
  }

  ghost function Deny(m: Model, requester: string, name: string): (Model, Outcome<Answer>) {
    (m.(denied := m.denied + [Denial(requester, name)]), Err(PermissionDenied))
  }

  /** What stops a call that only the owner may make. */
  ghost function Refusal(identity: string, name: string, keyOwner: Option<string>): Option<TransitError> {
    if !NameFits(name) then Some(InvalidInput)
    else if keyOwner == None then None
    else
      match CanonicalEmail(keyOwner.value)
      case None => Some(InvalidInput)
      case Some(owner) => if owner == identity then None else Some(PermissionDenied)
  }

  ghost function Refused(m: Model, e: TransitError, identity: string, name: string): (Model, Outcome<Answer>) {
    if e == PermissionDenied then Deny(m, identity, name) else (m, Err(e))
  }

  ghost function ModelCreate(m: Model, owner: string, name: string, content: Content): (Model, Outcome<Answer>) {
    if (owner, name) in m.keys then (m, Err(DuplicateKey))
    else if owner == "" then (m, Err(InvalidInput))
    else (m.(keys := m.keys[(owner, name) := content]), Ok(Finished))
  }

  ghost function ModelRotate(m: Model, identity: string, name: string, keyOwner: Option<string>, secret: Secret)
    : (Model, Outcome<Answer>)
  {
    var refusal := Refusal(identity, name, keyOwner);
    if refusal.Some? then Refused(m, refusal.value, identity, name)
    else if (identity, name) !in m.keys then (m, Err(KeyNotFound))
    else
      match m.keys[(identity, name)]
      case Signing(_, _) => (m, Err(InvalidKeyUsage))
      case Encryption(versions) =>
        (m.(keys := m.keys[(identity, name) := Encryption(versions + [secret])]), Ok(Numbered(|versions| + 1)))
  }

  ghost function OnKey(key: P.Key): iset<PT.Tuple> {
    iset t: PT.Tuple | t.key == key
  }

  ghost function ModelRevoke(m: Model, identity: string, name: string): (Model, Outcome<Answer>) {
    if !NameFits(name) then (m, Err(InvalidInput))
    else if (identity, name) !in m.keys then (m, Err(KeyNotFound))
    else (Model(m.keys - {(identity, name)}, m.grants - OnKey(KeyOf(identity, name)), m.denied), Ok(Finished))
  }

  /** At least one text, and each a permission for keys of this kind. */
  ghost predicate Suits(content: Content, texts: seq<string>) {
    && texts != []
    && forall text :: text in texts ==>
         var p := Upper(Strip(text));
         if content.Signing? then p == "SIGN" || p == "VERIFY" else p == "ENCRYPT" || p == "DECRYPT"
  }

  ghost function Naming(key: P.Key, who: string, texts: seq<string>): iset<PT.Tuple> {
    iset t: PT.Tuple | t.key == key && t.who == who && PO.Mentions(texts, t.permission)
  }

  ghost function AllOf(key: P.Key, who: string): iset<PT.Tuple> {
    iset t: PT.Tuple | t.key == key && t.who == who
  }

  ghost function HeldBy(grants: iset<PT.Tuple>, key: P.Key, who: string): iset<string> {
    iset p: string | PT.Tuple(key, who, p) in grants
  }

  ghost function ModelGrant(
    m: Model, identity: string, name: string, grantee: string, texts: seq<string>, keyOwner: Option<string>)
    : (Model, Outcome<Answer>)
  {
    var refusal, key, who := Refusal(identity, name, keyOwner), KeyOf(identity, name), CanonicalEmail(grantee);
    if refusal.Some? then Refused(m, refusal.value, identity, name)
    else if (identity, name) !in m.keys then (m, Err(KeyNotFound))
    else if who == None || !Suits(m.keys[(identity, name)], texts) || !PO.Shareable(key, who.value)
    then (m, Err(InvalidInput))
    else
      var grants := m.grants + Naming(key, who.value, texts);
      (m.(grants := grants), Ok(Granted(HeldBy(grants, key, who.value))))
  }

  ghost function ModelRevokeAccess(
    m: Model, identity: string, name: string, grantee: string, texts: Option<seq<string>>, keyOwner: Option<string>)
    : (Model, Outcome<Answer>)
  {
    var refusal, key, who := Refusal(identity, name, keyOwner), KeyOf(identity, name), CanonicalEmail(grantee);
    if refusal.Some? then Refused(m, refusal.value, identity, name)
    else if (identity, name) !in m.keys then (m, Err(KeyNotFound))
    else if who == None || (texts.Some? && !Suits(m.keys[(identity, name)], texts.value))
            || !PO.Shareable(key, who.value)
    then (m, Err(InvalidInput))
    else
      var removed := if texts == None then AllOf(key, who.value) else Naming(key, who.value, texts.value);
      var grants := m.grants - removed;
      (m.(grants := grants), Ok(Granted(HeldBy(grants, key, who.value))))
  }

  /** The key exists and the caller is its owner or holds the permission. */
  ghost predicate May(m: Model, requester: string, owner: string, name: string, permission: string) {
    && (owner, name) in m.keys
    && (requester == owner || PT.Tuple(KeyOf(owner, name), requester, permission) in m.grants)
  }

  ghost function TextAadOf(name: string, version: nat): Aad {
    TextAad("mini-vault:transit:v1:" + name + (if version == 1 then "" else ":v" + PrintNat(version)))
  }

  /** The text printed for bytes sealed under one version of a key. */
  ghost function Printed(aead: Aead<Aad>, r: Resolved, key: Bytes, version: nat, nonce: Bytes, bytes: Bytes): string {
    "vault:" + (if r.qualified then r.ownerEmail + "/" + r.keyName else r.keyName)
      + (if version == 1 then ":" else ":v" + PrintNat(version) + ":")
      + Encode(nonce + aead.seal(key, nonce, TextAadOf(r.keyName, version), bytes))
  }

  ghost function ModelEncrypt(
    aead: Aead<Aad>, m: Model, identity: string, reference: string, plaintext: string, keyOwner: Option<string>,
    nonce: Bytes): (Model, Outcome<Answer>)
  {
    var resolved := ResolveKeyReference(identity, reference, keyOwner);
    if resolved == None || !NameFits(resolved.value.keyName) || Decode(plaintext) == None then (m, Err(InvalidInput))
    else
      var r := resolved.value;
      if !May(m, identity, r.ownerEmail, r.keyName, "ENCRYPT") then Deny(m, identity, r.keyName)
      else
        match m.keys[(r.ownerEmail, r.keyName)]
        case Signing(_, _) => (m, Err(InvalidKeyUsage))
        case Encryption(versions) =>
          if versions == [] then (m, Err(InvalidCiphertext))
          else
            var last := versions[|versions| - 1].material;
            (m, Ok(Text(Printed(aead, r, last, |versions|, nonce, Decode(plaintext).value))))
  }

  ghost function ModelDecrypt(
    aead: Aead<Aad>, m: Model, identity: string, ciphertext: string, keyOwner: Option<string>)
    : (Model, Outcome<Answer>)
  {
    match ParseCiphertext(ciphertext)
    case None => (m, Err(InvalidCiphertext))
    case Some(p) =>
      var resolved, envelope := ResolveKeyReference(identity, p.reference, keyOwner), Decode(p.encoded);
      if resolved == None || !NameFits(resolved.value.keyName) || envelope == None || |envelope.value| < 28
      then (m, Err(InvalidCiphertext))
      else
        var r, bytes := resolved.value, envelope.value;
        if !May(m, identity, r.ownerEmail, r.keyName, "DECRYPT") then Deny(m, identity, r.keyName)
        else
          match m.keys[(r.ownerEmail, r.keyName)]
          case Signing(_, _) => (m, Err(InvalidKeyUsage))
          case Encryption(versions) =>
            if !(1 <= p.version <= |versions|) then (m, Err(InvalidCiphertext))
            else
              var key := versions[p.version - 1].material;
              match aead.open(key, bytes[..12], TextAadOf(r.keyName, p.version), bytes[12..])
              case None => (m, Err(DecryptionFailed))
              case Some(plaintext) => (m, Ok(Text(Encode(plaintext))))
  }

  ghost function ModelStep(aead: Aead<Aad>, m: Model, e: Event): (Model, Outcome<Answer>) {
    if e.op.KvPolicyCall? then (m.(grants := PT.RelationStep(m.grants, e.op.policyOp)), Ok(Finished))
    else if e.call.dek == None then (m, Err(VaultLocked))
    else if e.call.identity == None then (m, Err(Unauthenticated))
    else
      var identity := e.call.identity.value;
      match e.op
      case CreateKey(name, material, nonce) =>
        if !NameFits(name) then (m, Err(InvalidInput))
        else ModelCreate(m, identity, name, Encryption([Secret(material, nonce)]))
      case CreateSigningKey(name, algorithm, privateKey, publicKey, nonce) =>
        if !NameFits(name) then (m, Err(InvalidInput))
        else if algorithm != Some("ED25519") then (m, Err(InvalidSigningAlgorithm))
        else ModelCreate(m, identity, name, Signing(Secret(privateKey, nonce), publicKey))
      case RotateKey(name, keyOwner, material, nonce) =>
        ModelRotate(m, identity, name, keyOwner, Secret(material, nonce))
      case RevokeKey(name) => ModelRevoke(m, identity, name)
      case Grant(name, grantee, permissions, keyOwner) => ModelGrant(m, identity, name, grantee, permissions, keyOwner)
      case RevokeAccess(name, grantee, revoked, keyOwner) =>
        ModelRevokeAccess(m, identity, name, grantee, revoked, keyOwner)
      case Encrypt(reference, plaintext, keyOwner, nonce) =>
        ModelEncrypt(aead, m, identity, reference, plaintext, keyOwner, nonce)
      case Decrypt(ciphertext, keyOwner) => ModelDecrypt(aead, m, identity, ciphertext, keyOwner)
      case KvPolicyCall(_) => (m, Ok(Finished))
  }

  ghost function ModelRun(aead: Aead<Aad>, m: Model, events: seq<Event>): Model
    decreases |events|
  {
    if events == [] then m else ModelRun(aead, ModelStep(aead, m, events[0]).0, events[1..])
  }

  /** An answer of the service in the machine's terms. */
  ghost function Seen(o: Outcome<Reply>): Outcome<Answer> {
    match o
    case Err(e) => Err(e)
    case Ok(Output(text)) => Ok(Text(text))
    case Ok(NewVersion(version)) => Ok(Numbered(version))
    case Ok(Permissions(permissions)) => Ok(Granted(Members(permissions)))
    case Ok(_) => Ok(Finished)
  }

  ghost function Members(permissions: seq<string>): iset<string> {
    iset p: string | p in permissions
  }

  // ----- Representation

  /** The stored text of wrapped material. */
  ghost function Stored(aead: Aead<Aad>, dek: Bytes, aad: Aad, secret: Secret): string {
    Encode(secret.nonce + aead.seal(dek, secret.nonce, aad, secret.material))
  }

  /** The record of a key: the material of each version wrapped under the owner,
      the name, the usage and, from the second version on, the version. */
  ghost predicate Keeps(aead: Aead<Aad>, dek: Bytes, r: KeyRecord, owner: string, name: string, content: Content) {
    match content
    case Encryption(versions) =>
      && !r.SigningKey? && |versions| == |Materials(r)| == LatestVersion(r) >= 1
      && (r.LegacyKey? <==> |versions| == 1)
      && forall i :: 0 <= i < |versions| ==>
           && |versions[i].material| == 32 && |versions[i].nonce| == 12
           && Materials(r)[i] == Stored(aead, dek,
                WrapAad(name, "ENCRYPT_DECRYPT", owner, None, if i == 0 then None else Some(i + 1)), versions[i])
    case Signing(privateKey, publicKey) =>
      && r.SigningKey? && r.algorithm == "ED25519"
      && r.privateKey == Stored(aead, dek, WrapAad(name, "SIGN_VERIFY", owner, Some("ED25519"), None), privateKey)
      && r.publicKey == Encode(publicKey)
  }

  ghost predicate KeysStand(aead: Aead<Aad>, dek: Bytes, keys: KeyStore, m: map<(string, string), Content>) {
    forall owner, name ::
      && (Lookup(keys, owner, name).Some? <==> (owner, name) in m)
      && ((owner, name) in m ==> Keeps(aead, dek, Lookup(keys, owner, name).value, owner, name, m[(owner, name)]))
  }

  ghost predicate Represents(aead: Aead<Aad>, dek: Bytes, s: State, m: Model) {
    && Invariant(aead, dek, s)
    && KeysStand(aead, dek, s.keys, m.keys)
    && PT.Relation(s.policies) == m.grants
    && s.denied == m.denied
  }

  lemma NameFitsExactly(name: string)
    ensures NameFits(name) <==> ValidKeyName(name)
  {
    NamesExactly(name);
  }

  lemma RefusalExactly(identity: string, name: string, keyOwner: Option<string>)
    ensures OwnerOnly(identity, name, keyOwner)
         == if Refusal(identity, name, keyOwner).Some? then Err(Refusal(identity, name, keyOwner).value)
            else Ok(identity)
  {
    hide NameFits, ValidKeyName, CanonicalEmail;
    NameFitsExactly(name);
  }

  lemma StandsFor(aead: Aead<Aad>, dek: Bytes, s: State, m: Model, owner: string, name: string)
    requires Represents(aead, dek, s, m)
    ensures ValidKeyStore(s.keys)
    ensures Lookup(s.keys, owner, name).Some? <==> (owner, name) in m.keys
    ensures (owner, name) in m.keys ==>
      && Keeps(aead, dek, Lookup(s.keys, owner, name).value, owner, name, m.keys[(owner, name)])
      && ValidRecord(Lookup(s.keys, owner, name).value)
      && IsKey(Lookup(s.keys, owner, name).value, owner, name)
      && (Lookup(s.keys, owner, name).value.SigningKey? <==> m.keys[(owner, name)].Signing?)
  {
    hide Lookup, ValidRecord, AllOpen, GrantsMatchKeys, PT.Canonical, PT.Relation, Stored;
    if Lookup(s.keys, owner, name).Some? {
      LookupFound(s.keys, owner, name);
    }
  }

  // ----- Creating

  /** Adding a record that keeps its content. */
  lemma AddedStands(
    aead: Aead<Aad>, dek: Bytes, s: State, m: Model, r: KeyRecord, owner: string, name: string, content: Content)
    requires Represents(aead, dek, s, m) && IsKey(r, owner, name) && ValidRecord(r) && (owner, name) !in m.keys
    requires Keeps(aead, dek, r, owner, name, content)
    ensures CreateStep(s.keys, r) == (s.keys + [r], Ok(()))
    ensures KeysStand(aead, dek, s.keys + [r], m.keys[(owner, name) := content])
  {
    hide Lookup, ValidRecord, ValidKeyStore, AllOpen, GrantsMatchKeys, PT.Canonical, PT.Relation, Keeps;
    assert Lookup(s.keys, owner, name) == None;
    forall o, n
      ensures Lookup(s.keys + [r], o, n) == if IsKey(r, o, n) then Some(r) else Lookup(s.keys, o, n)
      ensures ValidKeyStore(s.keys + [r])
    {
      CreateLookup(s.keys, r, o, n);
    }
    CreateLookup(s.keys, r, owner, name);
  }

  lemma ExistingIsDuplicate(aead: Aead<Aad>, dek: Bytes, s: State, m: Model, r: KeyRecord, owner: string, name: string)
    requires Represents(aead, dek, s, m) && IsKey(r, owner, name) && (owner, name) in m.keys
    ensures CreateStep(s.keys, r) == (s.keys, Err(DuplicateKey))
  {
    hide Lookup, ValidRecord, ValidKeyStore, AllOpen, GrantsMatchKeys, PT.Canonical, PT.Relation, Keeps;
    StandsFor(aead, dek, s, m, owner, name);
  }

  lemma UnownedIsInvalid(aead: Aead<Aad>, dek: Bytes, s: State, m: Model, r: KeyRecord)
    requires Represents(aead, dek, s, m) && r.ownerEmail == ""
    ensures CreateStep(s.keys, r) == (s.keys, Err(InvalidInput)) && ("", r.keyName) !in m.keys
  {
    hide Lookup, AllOpen, GrantsMatchKeys, PT.Canonical, PT.Relation, Keeps, IsEnvelope;
    StandsFor(aead, dek, s, m, "", r.keyName);
    assert !ValidRecord((s.keys + [r])[|s.keys|]);
  }

  lemma WrapIsStored(aead: Aead<Aad>, dek: Bytes, aad: Aad, secret: Secret)
    ensures Wrap(aead, dek, secret.nonce, aad, secret.material) == Stored(aead, dek, aad, secret)
  {
  }

  lemma NewRecordKeeps(aead: Aead<Aad>, dek: Bytes, owner: string, name: string, secret: Secret)
    requires aead.Correct() && |secret.material| == 32 && |secret.nonce| == 12 && owner != "" && name != ""
    ensures
      var r := LegacyKey(owner, name, Wrap(aead, dek, secret.nonce, KeyAad(owner, name, 1), secret.material));
      ValidRecord(r) && Keeps(aead, dek, r, owner, name, Encryption([secret]))
  {
    hide Wrap, Unwrap, IsEnvelope, Stored;
    UnwrapWrapped(aead, dek, secret.nonce, KeyAad(owner, name, 1), secret.material);
    WrapIsStored(aead, dek, KeyAad(owner, name, 1), secret);
  }

  lemma NewSigningRecordKeeps(
    aead: Aead<Aad>, dek: Bytes, owner: string, name: string, secret: Secret, publicKey: Bytes)
    requires aead.Correct() && |secret.material| == 32 && |publicKey| == 32 && |secret.nonce| == 12
    requires owner != "" && name != ""
    ensures
      var aad := WrapAad(name, SIGNING_KEY_USAGE, owner, Some("ED25519"), None);
      var r := SigningKey(owner, name, SIGNING_ALGORITHM,
        Wrap(aead, dek, secret.nonce, aad, secret.material), Encode(publicKey));
      ValidRecord(r) && Keeps(aead, dek, r, owner, name, Signing(secret, publicKey))
  {
    hide Wrap, Unwrap, Encode, Decode, Stored, Opens;
    var aad := WrapAad(name, SIGNING_KEY_USAGE, owner, Some("ED25519"), None);
    SigningRecordIsGood(aead, dek, owner, name, aad, secret.material, publicKey, secret.nonce);
    WrapIsStored(aead, dek, aad, secret);
  }

  lemma CreateRefines(aead: Aead<Aad>, dek: Bytes, s: State, m: Model, e: Event)
    requires aead.Correct() && Represents(aead, dek, s, m) && Proper(dek, [e]) && e.op.CreateKey?
    ensures KeysStand(aead, dek, Step(aead, s, e).0.keys, ModelStep(aead, m, e).0.keys)
    ensures Step(aead, s, e).0 == s.(keys := Step(aead, s, e).0.keys)
    ensures ModelStep(aead, m, e).0 == m.(keys := ModelStep(aead, m, e).0.keys)
    ensures Seen(Step(aead, s, e).1) == ModelStep(aead, m, e).1
  {
    hide CreateStep, Wrap, ValidRecord, KeysStand, Invariant, Keeps, NameFits, ValidKeyName, PT.Relation;
    assert Drawn([e][0].op);
    NameFitsExactly(e.op.name);
    KeysStandOf(aead, dek, s, m);
    if Gate(e.call) == None && NameFits(e.op.name) {
      var owner, secret := e.call.identity.value, Secret(e.op.material, e.op.nonce);
      var r := LegacyKey(owner, e.op.name, Wrap(aead, dek, secret.nonce, KeyAad(owner, e.op.name, 1), secret.material));
      if (owner, e.op.name) in m.keys {
        ExistingIsDuplicate(aead, dek, s, m, r, owner, e.op.name);
      } else if owner == "" {
        UnownedIsInvalid(aead, dek, s, m, r);
      } else {
        NameIsNonEmpty(e.op.name);
        NewRecordKeeps(aead, dek, owner, e.op.name, secret);
        AddedStands(aead, dek, s, m, r, owner, e.op.name, Encryption([secret]));
      }
    }
  }

  lemma NameIsNonEmpty(name: string)
    requires NameFits(name)
    ensures name != ""
  {
  }

  lemma KeysStandOf(aead: Aead<Aad>, dek: Bytes, s: State, m: Model)
    requires Represents(aead, dek, s, m)
    ensures KeysStand(aead, dek, s.keys, m.keys)
    ensures PT.Canonical(s.policies) && PT.Relation(s.policies) == m.grants && s.denied == m.denied
    ensures GrantsMatchKeys(s.keys, s.policies)
  {
  }

  lemma CreateSigningRefines(aead: Aead<Aad>, dek: Bytes, s: State, m: Model, e: Event)
    requires aead.Correct() && Represents(aead, dek, s, m) && Proper(dek, [e]) && e.op.CreateSigningKey?
    ensures KeysStand(aead, dek, Step(aead, s, e).0.keys, ModelStep(aead, m, e).0.keys)
    ensures Step(aead, s, e).0 == s.(keys := Step(aead, s, e).0.keys)
    ensures ModelStep(aead, m, e).0 == m.(keys := ModelStep(aead, m, e).0.keys)
    ensures Seen(Step(aead, s, e).1) == ModelStep(aead, m, e).1
  {
    hide CreateStep, Wrap, ValidRecord, KeysStand, Invariant, Keeps, NameFits, ValidKeyName, PT.Relation, Encode;
    assert Drawn([e][0].op);
    NameFitsExactly(e.op.name);
    KeysStandOf(aead, dek, s, m);
    if Gate(e.call) == None && NameFits(e.op.name) && e.op.algorithm == Some("ED25519") {
      var owner, secret := e.call.identity.value, Secret(e.op.privateKey, e.op.nonce);
      var aad := WrapAad(e.op.name, SIGNING_KEY_USAGE, owner, Some("ED25519"), None);
      var r := SigningKey(owner, e.op.name, SIGNING_ALGORITHM,
        Wrap(aead, dek, secret.nonce, aad, secret.material), Encode(e.op.publicKey));
      if (owner, e.op.name) in m.keys {
        ExistingIsDuplicate(aead, dek, s, m, r, owner, e.op.name);
      } else if owner == "" {
        UnownedIsInvalid(aead, dek, s, m, r);
      } else {
        NameIsNonEmpty(e.op.name);
        NewSigningRecordKeeps(aead, dek, owner, e.op.name, secret, e.op.publicKey);
        AddedStands(aead, dek, s, m, r, owner, e.op.name, Signing(secret, e.op.publicKey));
      }
    }
  }

  // ----- Rotating

  lemma RotatedKeeps(
    aead: Aead<Aad>, dek: Bytes, r: KeyRecord, owner: string, name: string, versions: seq<Secret>, secret: Secret)
    requires aead.Correct() && |secret.material| == 32 && |secret.nonce| == 12
    requires ValidRecord(r) && Keeps(aead, dek, r, owner, name, Encryption(versions))
    ensures
      var wrapped := Wrap(aead, dek, secret.nonce, KeyAad(owner, name, LatestVersion(r) + 1), secret.material);
      Keeps(aead, dek, Rotated(r, wrapped), owner, name, Encryption(versions + [secret]))
  {
    hide Wrap, Unwrap, IsEnvelope, Stored, Rotated, ValidRecord, Materials;
    var version := LatestVersion(r) + 1;
    var wrapped := Wrap(aead, dek, secret.nonce, KeyAad(owner, name, version), secret.material);
    UnwrapWrapped(aead, dek, secret.nonce, KeyAad(owner, name, version), secret.material);
    WrapIsStored(aead, dek, KeyAad(owner, name, version), secret);
    RotationAppends(r, wrapped);
    RotatedIdentity(r, wrapped);
    RotatedVersion(r, wrapped);
    var more := versions + [secret];
    forall i | 0 <= i < |more|
      ensures |more[i].material| == 32 && |more[i].nonce| == 12
      ensures Materials(Rotated(r, wrapped))[i] == Stored(aead, dek,
        WrapAad(name, "ENCRYPT_DECRYPT", owner, None, if i == 0 then None else Some(i + 1)), more[i])
    {
      if i < |versions| {
        assert more[i] == versions[i] && Materials(Rotated(r, wrapped))[i] == Materials(r)[i];
      }
    }
  }

  lemma RotatedVersion(r: KeyRecord, material: string)
    requires !r.SigningKey?
    ensures LatestVersion(Rotated(r, material)) == LatestVersion(r) + 1
  {
  }

  lemma RotateRefines(aead: Aead<Aad>, dek: Bytes, s: State, m: Model, e: Event)
    requires aead.Correct() && Represents(aead, dek, s, m) && Proper(dek, [e]) && e.op.RotateKey?
    ensures KeysStand(aead, dek, Step(aead, s, e).0.keys, ModelStep(aead, m, e).0.keys)
    ensures Step(aead, s, e).0.policies == s.policies && ModelStep(aead, m, e).0.grants == m.grants
    ensures Step(aead, s, e).0.denied == ModelStep(aead, m, e).0.denied
    ensures Seen(Step(aead, s, e).1) == ModelStep(aead, m, e).1
  {
    hide ReplaceStep, Wrap, ValidRecord, KeysStand, Invariant, Keeps, OwnerOnly, Refusal, PT.Relation, Rotated, KeyAad,
      GrantsMatchKeys;
    assert Drawn([e][0].op);
    KeysStandOf(aead, dek, s, m);
    if Gate(e.call) == None {
      var identity, secret := e.call.identity.value, Secret(e.op.material, e.op.nonce);
      RefusalExactly(identity, e.op.name, e.op.keyOwner);
      StandsFor(aead, dek, s, m, identity, e.op.name);
      if Refusal(identity, e.op.name, e.op.keyOwner) == None && (identity, e.op.name) in m.keys
         && m.keys[(identity, e.op.name)].Encryption?
      {
        RotateFound(aead, dek, s, m, identity, e.op.name, secret);
      }
    }
  }

  lemma RotateFound(
    aead: Aead<Aad>, dek: Bytes, s: State, m: Model, owner: string, name: string, secret: Secret)
    requires aead.Correct() && |secret.material| == 32 && |secret.nonce| == 12
    requires Represents(aead, dek, s, m) && (owner, name) in m.keys && m.keys[(owner, name)].Encryption?
    ensures Lookup(s.keys, owner, name).Some? && !Lookup(s.keys, owner, name).value.SigningKey?
    ensures
      var r, versions := Lookup(s.keys, owner, name).value, m.keys[(owner, name)].versions;
      var wrapped := Wrap(aead, dek, secret.nonce, KeyAad(owner, name, LatestVersion(r) + 1), secret.material);
      var (keys, o) := ReplaceStep(s.keys, Rotated(r, wrapped));
      && o.Ok? && LatestVersion(r) == |versions|
      && KeysStand(aead, dek, keys, m.keys[(owner, name) := Encryption(versions + [secret])])
  {
    hide ReplaceStep, Wrap, ValidRecord, Invariant, Rotated, Lookup, PT.Relation, Stored, Materials;
    StandsFor(aead, dek, s, m, owner, name);
    InvariantOf(aead, dek, s, m);
    var r, versions := Lookup(s.keys, owner, name).value, m.keys[(owner, name)].versions;
    var wrapped := Wrap(aead, dek, secret.nonce, KeyAad(owner, name, LatestVersion(r) + 1), secret.material);
    RotateKeeps(aead, dek, s, r, secret.material, secret.nonce);
    RotatedKeeps(aead, dek, r, owner, name, versions, secret);
    RotatedIdentity(r, wrapped);
    hide Keeps;
    assert KeysStand(aead, dek, s.keys, m.keys);
  }

  lemma InvariantOf(aead: Aead<Aad>, dek: Bytes, s: State, m: Model)
    requires Represents(aead, dek, s, m)
    ensures Invariant(aead, dek, s)
  {
  }

  // ----- Revoking a key

  lemma RevokeRefines(aead: Aead<Aad>, dek: Bytes, s: State, m: Model, e: Event)
    requires aead.Correct() && Represents(aead, dek, s, m) && Proper(dek, [e]) && e.op.RevokeKey?
    ensures KeysStand(aead, dek, Step(aead, s, e).0.keys, ModelStep(aead, m, e).0.keys)
    ensures PT.Relation(Step(aead, s, e).0.policies) == ModelStep(aead, m, e).0.grants
    ensures Step(aead, s, e).0.denied == s.denied == ModelStep(aead, m, e).0.denied
    ensures Seen(Step(aead, s, e).1) == ModelStep(aead, m, e).1
  {
    hide DeleteStep, KeysStand, Invariant, PT.Relation, PT.Canonical, P.DeleteStep, NameFits, ValidKeyName, Lookup,
      GrantsMatchKeys, Keeps;
    NameFitsExactly(e.op.name);
    KeysStandOf(aead, dek, s, m);
    if Gate(e.call) == None && NameFits(e.op.name) {
      var owner := e.call.identity.value;
      DeletedStands(aead, dek, s, m, owner, e.op.name);
      PT.DeleteStepRefines(s.policies, KeyOf(owner, e.op.name));
    }
  }

  lemma DeletedStands(aead: Aead<Aad>, dek: Bytes, s: State, m: Model, owner: string, name: string)
    requires Represents(aead, dek, s, m)
    ensures
      var (keys, o) := DeleteStep(s.keys, owner, name);
      if (owner, name) in m.keys
      then o == Ok(()) && KeysStand(aead, dek, keys, m.keys - {(owner, name)})
      else o == Err(KeyNotFound) && keys == s.keys
  {
    hide Lookup, ValidRecord, ValidKeyStore, WithoutRecord, PT.Relation, PT.Canonical, Keeps, AllOpen, GrantsMatchKeys;
    StandsFor(aead, dek, s, m, owner, name);
    WithoutRecordValid(s.keys, owner, name);
    var keys := WithoutRecord(s.keys, owner, name);
    forall o, n ensures Lookup(keys, o, n) == if o == owner && n == name then None else Lookup(s.keys, o, n) {
      DeleteLookup(s.keys, owner, name, o, n);
    }
  }

  // ----- Changing grants

  lemma SuitsExactly(r: KeyRecord, content: Content, texts: seq<string>)
    requires r.SigningKey? <==> content.Signing?
    ensures P.NormalizePermissions(texts, PermissionsFor(r)).Success? <==> Suits(content, texts)
  {
    hide Upper, Strip, P.NormalizePermissions;
    PO.AcceptsExactly(texts, PermissionsFor(r));
  }

  /** Normalizing twice changes nothing. */
  lemma NormalizedMentions(texts: seq<string>, r: KeyRecord)
    requires P.NormalizePermissions(texts, PermissionsFor(r)).Success?
    ensures
      var n := P.NormalizePermissions(texts, PermissionsFor(r)).value;
      PO.Legible(P.TransitKey, n) && forall p :: PO.Mentions(n, p) <==> PO.Mentions(texts, p)
  {
    hide Upper, Strip, P.NormalizePermissions, PO.Mentions;
    var n := P.NormalizePermissions(texts, PermissionsFor(r)).value;
    PO.NormalizesTo(texts, PermissionsFor(r));
    P.NormalizedIsValid(texts, PermissionsFor(r));
    forall p | p in n ensures Upper(Strip(p)) == p && PO.Exists(P.TransitKey, p) {
      PermissionIsFixed(p);
    }
    forall p ensures PO.Mentions(n, p) <==> p in n {
      FixedMentions(n, p);
    }
  }

  lemma FixedMentions(n: seq<string>, p: string)
    requires forall q :: q in n ==> Upper(Strip(q)) == q
    ensures PO.Mentions(n, p) <==> p in n
  {
    hide Upper, Strip;
    if p in n {
      assert Upper(Strip(p)) == p;
    }
  }

  lemma GrantRefines(aead: Aead<Aad>, dek: Bytes, s: State, m: Model, e: Event)
    requires Represents(aead, dek, s, m) && e.op.Grant? && Proper(dek, [e])
    ensures Step(aead, s, e).0.keys == s.keys && ModelStep(aead, m, e).0.keys == m.keys
    ensures PT.Relation(Step(aead, s, e).0.policies) == ModelStep(aead, m, e).0.grants
    ensures Step(aead, s, e).0.denied == ModelStep(aead, m, e).0.denied
    ensures Seen(Step(aead, s, e).1) == ModelStep(aead, m, e).1
  {
    hide KeysStand, Invariant, PT.Relation, PT.Canonical, P.GrantStep, Lookup, ValidKeyStore, OwnerOnly, Refusal, Suits,
      P.NormalizePermissions, CanonicalEmail, PO.Shareable, Naming, HeldBy, Members, Keeps, ValidRecord, PermissionsFor,
      GrantsMatchKeys;
    KeysStandOf(aead, dek, s, m);
    if Gate(e.call) == None {
      var identity, name, who := e.call.identity.value, e.op.name, CanonicalEmail(e.op.grantee);
      RefusalExactly(identity, name, e.op.keyOwner);
      StandsFor(aead, dek, s, m, identity, name);
      if Refusal(identity, name, e.op.keyOwner) == None && (identity, name) in m.keys {
        var r := Lookup(s.keys, identity, name).value;
        SuitsExactly(r, m.keys[(identity, name)], e.op.permissions);
        if who.Some? && Suits(m.keys[(identity, name)], e.op.permissions) {
          GrantedTuples(s.policies, r, KeyOf(identity, name), who.value, e.op.permissions);
        }
      }
    }
  }

  lemma GrantedTuples(doc: P.Document, r: KeyRecord, key: P.Key, who: string, texts: seq<string>)
    requires PT.Canonical(doc) && key.resourceType == P.TransitKey
    requires P.NormalizePermissions(texts, PermissionsFor(r)).Success?
    ensures
      var (after, g) := P.GrantStep(doc, key, who, P.NormalizePermissions(texts, PermissionsFor(r)).value);
      if PO.Shareable(key, who)
      then
        && g.Success? && PT.Relation(after) == PT.Relation(doc) + Naming(key, who, texts)
        && Members(g.value) == HeldBy(PT.Relation(after), key, who)
      else after == doc && g == P.InvalidInput
  {
    hide PT.Canonical, PT.Relation, P.GrantStep, P.NormalizePermissions, PO.Shareable, PO.Mentions, PO.Legible, Less,
      PermissionsFor;
    var n := P.NormalizePermissions(texts, PermissionsFor(r)).value;
    NormalizedMentions(texts, r);
    var (after, g) := P.GrantStep(doc, key, who, n);
    forall t
      ensures PO.Shareable(key, who) ==>
        (t in PT.Relation(after) <==> t in PT.Relation(doc) || t in Naming(key, who, texts))
    {
      PO.GrantsExactly(doc, key, who, n, t);
    }
    PO.GrantsExactly(doc, key, who, n, PT.Tuple(key, who, ""));
  }

  lemma RevokeAccessRefines(aead: Aead<Aad>, dek: Bytes, s: State, m: Model, e: Event)
    requires Represents(aead, dek, s, m) && e.op.RevokeAccess? && Proper(dek, [e])
    ensures Step(aead, s, e).0.keys == s.keys && ModelStep(aead, m, e).0.keys == m.keys
    ensures PT.Relation(Step(aead, s, e).0.policies) == ModelStep(aead, m, e).0.grants
    ensures Step(aead, s, e).0.denied == ModelStep(aead, m, e).0.denied
    ensures Seen(Step(aead, s, e).1) == ModelStep(aead, m, e).1
  {
    hide KeysStand, Invariant, PT.Relation, PT.Canonical, P.RevokeStep, Lookup, ValidKeyStore, OwnerOnly, Refusal,
      Suits, P.NormalizePermissions, CanonicalEmail, PO.Shareable, Naming, AllOf, HeldBy, Members, Keeps, ValidRecord,
      PermissionsFor, GrantsMatchKeys;
    KeysStandOf(aead, dek, s, m);
    if Gate(e.call) == None {
      var identity, name, who := e.call.identity.value, e.op.name, CanonicalEmail(e.op.grantee);
      RefusalExactly(identity, name, e.op.keyOwner);
      StandsFor(aead, dek, s, m, identity, name);
      if Refusal(identity, name, e.op.keyOwner) == None && (identity, name) in m.keys && who.Some? {
        var r := Lookup(s.keys, identity, name).value;
        if e.op.revoked == None {
          AllWithdrawn(s.policies, KeyOf(identity, name), who.value);
        } else {
          SuitsExactly(r, m.keys[(identity, name)], e.op.revoked.value);
          if Suits(m.keys[(identity, name)], e.op.revoked.value) {
            WithdrawnTuples(s.policies, r, KeyOf(identity, name), who.value, e.op.revoked.value);
          }
        }
      }
    }
  }

  lemma AllWithdrawn(doc: P.Document, key: P.Key, who: string)
    requires PT.Canonical(doc)
    ensures
      var (after, g) := P.RevokeStep(doc, key, who, None);
      if PO.Shareable(key, who)
      then
        && g.Success? && PT.Relation(after) == PT.Relation(doc) - AllOf(key, who)
        && Members(g.value) == HeldBy(PT.Relation(after), key, who)
      else after == doc && g == P.InvalidInput
  {
    hide PT.Canonical, PT.Relation, P.RevokeStep, PO.Shareable, PO.Mentions, PO.Legible, Less;
    var (after, g) := P.RevokeStep(doc, key, who, None);
    forall t
      ensures PO.Shareable(key, who) ==>
        (t in PT.Relation(after) <==> t in PT.Relation(doc) && t !in AllOf(key, who))
    {
      PO.RevokesExactly(doc, key, who, None, t);
    }
    PO.RevokesExactly(doc, key, who, None, PT.Tuple(key, who, ""));
  }

  lemma WithdrawnTuples(doc: P.Document, r: KeyRecord, key: P.Key, who: string, texts: seq<string>)
    requires PT.Canonical(doc) && key.resourceType == P.TransitKey
    requires P.NormalizePermissions(texts, PermissionsFor(r)).Success?
    ensures
      var (after, g) := P.RevokeStep(doc, key, who, Some(P.NormalizePermissions(texts, PermissionsFor(r)).value));
      if PO.Shareable(key, who)
      then
        && g.Success? && PT.Relation(after) == PT.Relation(doc) - Naming(key, who, texts)
        && Members(g.value) == HeldBy(PT.Relation(after), key, who)
      else after == doc && g == P.InvalidInput
  {
    hide PT.Canonical, PT.Relation, P.RevokeStep, P.NormalizePermissions, PO.Shareable, PO.Mentions, PO.Legible, Less,
      PermissionsFor;
    var n := P.NormalizePermissions(texts, PermissionsFor(r)).value;
    NormalizedMentions(texts, r);
    var (after, g) := P.RevokeStep(doc, key, who, Some(n));
    forall t
      ensures PO.Shareable(key, who) ==>
        (t in PT.Relation(after) <==> t in PT.Relation(doc) && t !in Naming(key, who, texts))
    {
      PO.RevokesExactly(doc, key, who, Some(n), t);
    }
    PO.RevokesExactly(doc, key, who, Some(n), PT.Tuple(key, who, ""));
  }

  // ----- Encrypting and decrypting

  /** Authorization is a look-up in the relation. */
  lemma AccessExactly(
    aead: Aead<Aad>, dek: Bytes, s: State, m: Model, requester: string, owner: string, name: string, permission: string)
    requires Represents(aead, dek, s, m) && (permission == "ENCRYPT" || permission == "DECRYPT")
    ensures AuthorizedKey(s, requester, owner, name, permission)
         == if May(m, requester, owner, name, permission) then Ok(Lookup(s.keys, owner, name).value)
            else Err(PermissionDenied)
  {
    hide KeysStand, Invariant, PT.Relation, PT.Canonical, Lookup, ValidKeyStore, P.AllowsIn, Keeps, ValidRecord,
      GrantsMatchKeys;
    KeysStandOf(aead, dek, s, m);
    StandsFor(aead, dek, s, m, owner, name);
    PermissionIsFixed(permission);
    PO.AllowsExactly(s.policies, KeyOf(owner, name), requester, permission);
  }

  lemma StoredUnwraps(aead: Aead<Aad>, dek: Bytes, aad: Aad, secret: Secret)
    requires aead.Correct() && |secret.material| == 32 && |secret.nonce| == 12
    ensures Unwrap(aead, dek, aad, Stored(aead, dek, aad, secret)) == Some(secret.material)
  {
    hide Unwrap, Encode;
    UnwrapWrapped(aead, dek, secret.nonce, aad, secret.material);
  }

  /** Loading a version gives its material; the latest where none is asked for. */
  lemma LoadExactly(
    aead: Aead<Aad>, dek: Bytes, s: State, m: Model, requester: string, owner: string, name: string,
    permission: string, version: Option<int>)
    requires aead.Correct() && Represents(aead, dek, s, m) && (permission == "ENCRYPT" || permission == "DECRYPT")
    ensures LoadKey(aead, dek, s, requester, owner, name, permission, version) == (
      if !May(m, requester, owner, name, permission) then Err(PermissionDenied)
      else
        match m.keys[(owner, name)]
        case Signing(_, _) => Err(InvalidKeyUsage)
        case Encryption(versions) =>
          var n := if version == None then |versions| else version.value;
          if 1 <= n <= |versions| then Ok(LoadedKey(versions[n - 1].material, n)) else Err(InvalidCiphertext))
  {
    hide KeysStand, Invariant, PT.Relation, Lookup, ValidKeyStore, Keeps, ValidRecord, AuthorizedKey, Unwrap,
      MaterialOf, Materials, KeyAad;
    AccessExactly(aead, dek, s, m, requester, owner, name, permission);
    if May(m, requester, owner, name, permission) {
      StandsFor(aead, dek, s, m, owner, name);
      var r := Lookup(s.keys, owner, name).value;
      if m.keys[(owner, name)].Encryption? {
        var versions := m.keys[(owner, name)].versions;
        var n := if version == None then |versions| else version.value;
        KeptVersions(aead, dek, r, owner, name, versions, n);
      }
    }
  }

  lemma KeptVersions(
    aead: Aead<Aad>, dek: Bytes, r: KeyRecord, owner: string, name: string, versions: seq<Secret>, n: int)
    requires aead.Correct() && ValidRecord(r) && Keeps(aead, dek, r, owner, name, Encryption(versions))
    ensures LatestVersion(r) == |versions| >= 1
    ensures MaterialOf(r, n).Some? <==> 1 <= n <= |versions|
    ensures 1 <= n <= |versions| ==>
      Unwrap(aead, dek, KeyAad(owner, name, n), MaterialOf(r, n).value) == Some(versions[n - 1].material)
  {
    hide ValidRecord, Unwrap, MaterialOf, Materials, Stored;
    MaterialOfIsIndexing(r, n);
    if 1 <= n <= |versions| {
      StoredUnwraps(aead, dek, KeyAad(owner, name, n), versions[n - 1]);
    }
  }

  lemma TextIsPrinted(
    aead: Aead<Aad>, r: Resolved, key: Bytes, version: nat, nonce: Bytes, bytes: Bytes)
    requires version >= 1
    ensures CiphertextText(aead, r, LoadedKey(key, version), nonce, bytes)
         == Printed(aead, r, key, version, nonce, bytes)
    ensures TextAad(CiphertextAad(r.keyName, version)) == TextAadOf(r.keyName, version)
  {
    hide Encode, PrintNat, PrintCiphertext, Identifier, CiphertextAad;
    AadsExactly(r.keyName, version);
    var sealed := aead.seal(key, nonce, TextAadOf(r.keyName, version), bytes);
    PrintsExactly(r.ownerEmail, r.keyName, r.qualified, version, Encode(nonce + sealed));
  }

  lemma EncryptRefines(aead: Aead<Aad>, dek: Bytes, s: State, m: Model, e: Event)
    requires aead.Correct() && Represents(aead, dek, s, m) && e.op.Encrypt? && Proper(dek, [e])
    ensures Step(aead, s, e).0 == s.(denied := Step(aead, s, e).0.denied)
    ensures ModelStep(aead, m, e).0 == m.(denied := Step(aead, s, e).0.denied)
    ensures Seen(Step(aead, s, e).1) == ModelStep(aead, m, e).1
  {
    hide KeysStand, Invariant, PT.Relation, PT.Canonical, LoadKey, May, Printed, CiphertextText, ResolveKeyReference,
      NameFits, ValidKeyName, Decode, GrantsMatchKeys;
    assert Drawn([e][0].op);
    KeysStandOf(aead, dek, s, m);
    if Gate(e.call) == None {
      var identity := e.call.identity.value;
      var resolved := ResolveKeyReference(identity, e.op.reference, e.op.keyOwner);
      if resolved.Some? {
        var r := resolved.value;
        NameFitsExactly(r.keyName);
        LoadExactly(aead, dek, s, m, identity, r.ownerEmail, r.keyName, "ENCRYPT", None);
        var loaded := LoadKey(aead, dek, s, identity, r.ownerEmail, r.keyName, "ENCRYPT", None);
        if loaded.Ok? && Decode(e.op.plaintext).Some? {
          TextIsPrinted(aead, r, loaded.value.key, loaded.value.version, e.op.nonce, Decode(e.op.plaintext).value);
        }
      }
    }
  }

  lemma DecryptRefines(aead: Aead<Aad>, dek: Bytes, s: State, m: Model, e: Event)
    requires aead.Correct() && Represents(aead, dek, s, m) && e.op.Decrypt? && Proper(dek, [e])
    ensures Step(aead, s, e).0 == s.(denied := Step(aead, s, e).0.denied)
    ensures ModelStep(aead, m, e).0 == m.(denied := Step(aead, s, e).0.denied)
    ensures Seen(Step(aead, s, e).1) == ModelStep(aead, m, e).1
  {
    hide KeysStand, Invariant, PT.Relation, PT.Canonical, LoadKey, May, ResolveKeyReference, ParseCiphertext,
      NameFits, ValidKeyName, Decode, Encode, CiphertextAad, TextAadOf, CiphertextText, Printed, GrantsMatchKeys;
    assert Drawn([e][0].op);
    KeysStandOf(aead, dek, s, m);
    if Gate(e.call) == None && ParseCiphertext(e.op.ciphertext).Some? {
      var identity, p := e.call.identity.value, ParseCiphertext(e.op.ciphertext).value;
      var resolved := ResolveKeyReference(identity, p.reference, e.op.keyOwner);
      if resolved.Some? {
        var r := resolved.value;
        NameFitsExactly(r.keyName);
        LoadExactly(aead, dek, s, m, identity, r.ownerEmail, r.keyName, "DECRYPT", Some(p.version));
        if p.version >= 1 {
          TextIsPrinted(aead, r, [], p.version, [], []);
        }
      }
    }
  }

  // ----- All calls

  lemma KvCallRefines(aead: Aead<Aad>, dek: Bytes, s: State, m: Model, e: Event)
    requires Represents(aead, dek, s, m) && e.op.KvPolicyCall? && Proper(dek, [e])
    ensures Step(aead, s, e).0.keys == s.keys && Step(aead, s, e).0.denied == s.denied
    ensures PT.Relation(Step(aead, s, e).0.policies) == PT.RelationStep(m.grants, e.op.policyOp)
  {
    hide KeysStand, Invariant, PT.Relation, PT.Canonical, PT.RelationStep, PT.DocumentStep, GrantsMatchKeys;
    KeysStandOf(aead, dek, s, m);
    PT.RunRefines(s.policies, [e.op.policyOp]);
    assert PT.RunDocument(s.policies, [e.op.policyOp]) == PT.DocumentStep(s.policies, e.op.policyOp);
    assert PT.RunRelation(m.grants, [e.op.policyOp]) == PT.RelationStep(m.grants, e.op.policyOp);
  }

  /** One call: the service does and answers what the machine does. */
  lemma StepRefines(aead: Aead<Aad>, dek: Bytes, s: State, m: Model, e: Event)
    requires aead.Correct() && Represents(aead, dek, s, m) && Proper(dek, [e])
    ensures Represents(aead, dek, Step(aead, s, e).0, ModelStep(aead, m, e).0)
    ensures Seen(Step(aead, s, e).1) == ModelStep(aead, m, e).1
  {
    hide KeysStand, Invariant, PT.Relation, PT.Canonical, Step, GrantsMatchKeys, ModelCreate, ModelRotate, ModelRevoke,
      ModelGrant, ModelRevokeAccess, ModelEncrypt, ModelDecrypt, NameFits, Proper, PT.RelationStep;
    InvariantOf(aead, dek, s, m);
    KeysStandOf(aead, dek, s, m);
    StepKeepsInvariant(aead, dek, s, e);
    match e.op {
      case CreateKey(_, _, _) => CreateRefines(aead, dek, s, m, e);
      case CreateSigningKey(_, _, _, _, _) => CreateSigningRefines(aead, dek, s, m, e);
      case RotateKey(_, _, _, _) => RotateRefines(aead, dek, s, m, e);
      case RevokeKey(_) => RevokeRefines(aead, dek, s, m, e);
      case Grant(_, _, _, _) => GrantRefines(aead, dek, s, m, e);
      case RevokeAccess(_, _, _, _) => RevokeAccessRefines(aead, dek, s, m, e);
      case Encrypt(_, _, _, _) => EncryptRefines(aead, dek, s, m, e);
      case Decrypt(_, _) => DecryptRefines(aead, dek, s, m, e);
      case KvPolicyCall(_) =>
        KvCallRefines(aead, dek, s, m, e);
        KvCallAnswers(aead, s, m, e);
    }
  }

  lemma KvCallAnswers(aead: Aead<Aad>, s: State, m: Model, e: Event)
    requires e.op.KvPolicyCall?
    ensures Seen(Step(aead, s, e).1) == ModelStep(aead, m, e).1
  {
  }

  const NOTHING := Model(map[], iset{}, [])

  lemma EmptyIsNothing(aead: Aead<Aad>, dek: Bytes)
    ensures Represents(aead, dek, EMPTY, NOTHING)
  {
  }

  /** Every run of the service represents the run of the machine. */
  lemma {:induction false} RunRefines(aead: Aead<Aad>, dek: Bytes, s: State, m: Model, events: seq<Event>)
    requires aead.Correct() && Represents(aead, dek, s, m) && Proper(dek, events)
    ensures Represents(aead, dek, Run(aead, s, events), ModelRun(aead, m, events))
    decreases |events|
  {
    hide Represents, Step, ModelStep, Proper;
    if events != [] {
      ProperParts(dek, events);
      StepRefines(aead, dek, s, m, events[0]);
      RunRefines(aead, dek, Step(aead, s, events[0]).0, ModelStep(aead, m, events[0]).0, events[1..]);
    }
  }

  /** And every answer in the run is the machine's. */
  lemma AnswersRefine(aead: Aead<Aad>, dek: Bytes, events: seq<Event>, i: nat)
    requires aead.Correct() && Proper(dek, events) && i < |events|
    ensures Seen(Step(aead, Run(aead, EMPTY, events[..i]), events[i]).1)
         == ModelStep(aead, ModelRun(aead, NOTHING, events[..i]), events[i]).1
  {
    hide Represents, Step, ModelStep, Run, ModelRun, Seen;
    EmptyIsNothing(aead, dek);
    RunRefines(aead, dek, EMPTY, NOTHING, events[..i]);
    StepRefines(aead, dek, Run(aead, EMPTY, events[..i]), ModelRun(aead, NOTHING, events[..i]), events[i]);
  }
}
