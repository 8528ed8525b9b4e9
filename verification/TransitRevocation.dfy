/** What revocation takes away for good: no text issued under a revoked key decrypts
    in any later state, also after its name has been created again. */
module TransitRevocation {
  import opened Wrappers
  import opened Base64
  import opened AuthenticatedEncryption
  import opened TransitText
  import opened TransitStore
  import opened Transit
  import opened TransitTheorems
  import opened TransitReaders
  import P = Policies
  import PT = PolicyTheorems

  // ----- Where key material is held

  ghost predicate RecordHolds(aead: Aead<Aad>, dek: Bytes, r: KeyRecord, key: Bytes) {
    exists v :: 1 <= v <= |Materials(r)|
      && Unwrap(aead, dek, KeyAad(r.ownerEmail, r.keyName, v), Materials(r)[v - 1]) == Some(key)
  }

  /** Only keys with these owners and names hold this material. */
  ghost predicate HeldWithin(
    aead: Aead<Aad>, dek: Bytes, keys: KeyStore, key: Bytes, homes: iset<(string, string)>)
  {
    forall owner, name ::
      (Lookup(keys, owner, name).Some? && RecordHolds(aead, dek, Lookup(keys, owner, name).value, key)) ==>
        (owner, name) in homes
  }

  /** The call draws exactly this key material. */
  predicate Draws(e: Event, key: Bytes) {
    (e.op.CreateKey? || e.op.RotateKey?) && e.op.material == key
  }

  ghost predicate DrawsWithin(e: Event, key: Bytes, homes: iset<(string, string)>) {
    Draws(e, key) ==> e.call.identity.Some? && (e.call.identity.value, e.op.name) in homes
  }

  lemma LegacyHolds(
    aead: Aead<Aad>, dek: Bytes, owner: string, name: string, material: Bytes, nonce: Bytes, key: Bytes)
    requires aead.Correct() && |nonce| == NONCE_LEN && |material| == KEY_LEN
    ensures
      var r := LegacyKey(owner, name, Wrap(aead, dek, nonce, KeyAad(owner, name, 1), material));
      RecordHolds(aead, dek, r, key) <==> material == key
  {
    hide Wrap, Unwrap, IsEnvelope;
    UnwrapWrapped(aead, dek, nonce, KeyAad(owner, name, 1), material);
    var r := LegacyKey(owner, name, Wrap(aead, dek, nonce, KeyAad(owner, name, 1), material));
    if material == key {
      assert Unwrap(aead, dek, KeyAad(owner, name, 1), Materials(r)[1 - 1]) == Some(key);
    }
  }

  lemma RotatedHolds(aead: Aead<Aad>, dek: Bytes, r: KeyRecord, material: Bytes, nonce: Bytes, key: Bytes)
    requires aead.Correct() && |nonce| == NONCE_LEN && |material| == KEY_LEN && ValidRecord(r) && !r.SigningKey?
    ensures
      var wrapped := Wrap(aead, dek, nonce, KeyAad(r.ownerEmail, r.keyName, LatestVersion(r) + 1), material);
      RecordHolds(aead, dek, Rotated(r, wrapped), key) ==> RecordHolds(aead, dek, r, key) || material == key
  {
    hide Wrap, Unwrap, IsEnvelope, ValidRecord, Materials, Rotated;
    var version := LatestVersion(r) + 1;
    var aad := KeyAad(r.ownerEmail, r.keyName, version);
    var wrapped := Wrap(aead, dek, nonce, aad, material);
    UnwrapWrapped(aead, dek, nonce, aad, material);
    RotationAppends(r, wrapped);
    RotatedIdentity(r, wrapped);
    MaterialOfIsIndexing(r, 1);
    if RecordHolds(aead, dek, Rotated(r, wrapped), key) {
      var v :| 1 <= v <= |Materials(Rotated(r, wrapped))|
        && Unwrap(aead, dek, KeyAad(r.ownerEmail, r.keyName, v), Materials(Rotated(r, wrapped))[v - 1]) == Some(key);
      if v <= |Materials(r)| {
        assert Materials(r)[v - 1] == Materials(Rotated(r, wrapped))[v - 1];
      }
    }
  }

  lemma CreateHolds(
    aead: Aead<Aad>, dek: Bytes, keys: KeyStore, r: KeyRecord, key: Bytes, homes: iset<(string, string)>)
    requires ValidKeyStore(keys) && HeldWithin(aead, dek, keys, key, homes)
    requires RecordHolds(aead, dek, r, key) ==> (r.ownerEmail, r.keyName) in homes
    ensures HeldWithin(aead, dek, CreateStep(keys, r).0, key, homes)
  {
    hide ValidRecord, Lookup, RecordHolds;
    if CreateStep(keys, r).1.Ok? {
      assert ValidRecord((keys + [r])[|keys|]);
      forall owner, name
        ensures Lookup(keys + [r], owner, name) == if IsKey(r, owner, name) then Some(r) else Lookup(keys, owner, name)
      {
        CreateLookup(keys, r, owner, name);
      }
    }
  }

  lemma CreateKeyHolds(aead: Aead<Aad>, dek: Bytes, s: State, e: Event, key: Bytes, homes: iset<(string, string)>)
    requires aead.Correct() && Invariant(aead, dek, s) && Proper(dek, [e]) && e.op.CreateKey?
    requires HeldWithin(aead, dek, s.keys, key, homes) && DrawsWithin(e, key, homes)
    ensures HeldWithin(aead, dek, Step(aead, s, e).0.keys, key, homes)
  {
    hide HeldWithin, CreateStep, Wrap, ValidKeyName, RecordHolds, ValidKeyStore, AllOpen, GrantsMatchKeys;
    assert Drawn([e][0].op);
    if Gate(e.call) == None && ValidKeyName(e.op.name) {
      var owner := e.call.identity.value;
      LegacyHolds(aead, dek, owner, e.op.name, e.op.material, e.op.nonce, key);
      CreateHolds(aead, dek, s.keys, LegacyKey(owner, e.op.name,
        Wrap(aead, dek, e.op.nonce, KeyAad(owner, e.op.name, 1), e.op.material)), key, homes);
    }
  }

  lemma SigningHoldsNothing(aead: Aead<Aad>, dek: Bytes, r: KeyRecord, key: Bytes)
    requires r.SigningKey?
    ensures !RecordHolds(aead, dek, r, key)
  {
  }

  lemma CreateSigningKeyHolds(
    aead: Aead<Aad>, dek: Bytes, s: State, e: Event, key: Bytes, homes: iset<(string, string)>)
    requires Invariant(aead, dek, s) && Proper(dek, [e]) && e.op.CreateSigningKey?
    requires HeldWithin(aead, dek, s.keys, key, homes)
    ensures HeldWithin(aead, dek, Step(aead, s, e).0.keys, key, homes)
  {
    hide HeldWithin, CreateStep, Wrap, ValidKeyName, RecordHolds, ValidKeyStore, AllOpen, GrantsMatchKeys, Encode;
    if Gate(e.call) == None && ValidKeyName(e.op.name) {
      var owner := e.call.identity.value;
      var aad := WrapAad(e.op.name, SIGNING_KEY_USAGE, owner, e.op.algorithm, None);
      var r := SigningKey(owner, e.op.name, SIGNING_ALGORITHM,
        Wrap(aead, e.call.dek.value, e.op.nonce, aad, e.op.privateKey), Encode(e.op.publicKey));
      SigningHoldsNothing(aead, dek, r, key);
      CreateHolds(aead, dek, s.keys, r, key, homes);
    }
  }

  lemma RotateKeyHolds(aead: Aead<Aad>, dek: Bytes, s: State, e: Event, key: Bytes, homes: iset<(string, string)>)
    requires aead.Correct() && Invariant(aead, dek, s) && Proper(dek, [e]) && e.op.RotateKey?
    requires HeldWithin(aead, dek, s.keys, key, homes) && DrawsWithin(e, key, homes)
    ensures HeldWithin(aead, dek, Step(aead, s, e).0.keys, key, homes)
  {
    hide Lookup, ValidKeyStore, ValidRecord, Wrap, ValidKeyName, OwnerOnly, Materials, Rotated, ReplaceStep, AllOpen,
      GrantsMatchKeys, IsEnvelope, RecordHolds;
    assert Drawn([e][0].op);
    if Gate(e.call) == None {
      var identity := e.call.identity.value;
      OwnerOnlyIsIdentity(identity, e.op.name, e.op.keyOwner);
      var r := GetStep(s.keys, identity, e.op.name);
      if OwnerOnly(identity, e.op.name, e.op.keyOwner).Ok? && r.Ok? && !r.value.SigningKey? {
        LookupFound(s.keys, identity, e.op.name);
        RotateKeeps(aead, dek, s, r.value, e.op.material, e.op.nonce);
        RotatedHolds(aead, dek, r.value, e.op.material, e.op.nonce, key);
      }
    }
  }

  lemma RevokeHolds(
    aead: Aead<Aad>, dek: Bytes, keys: KeyStore, owner: string, name: string, key: Bytes, homes: iset<(string, string)>)
    requires ValidKeyStore(keys) && HeldWithin(aead, dek, keys, key, homes)
    ensures HeldWithin(aead, dek, DeleteStep(keys, owner, name).0, key, homes)
    ensures DeleteStep(keys, owner, name).1.Ok? ==>
      HeldWithin(aead, dek, DeleteStep(keys, owner, name).0, key, homes - iset{(owner, name)})
  {
    hide ValidRecord, Lookup, RecordHolds, ValidKeyStore, WithoutRecord;
    WithoutRecordValid(keys, owner, name);
    forall o, n
      ensures Lookup(WithoutRecord(keys, owner, name), o, n)
           == if o == owner && n == name then None else Lookup(keys, o, n)
    {
      DeleteLookup(keys, owner, name, o, n);
    }
  }

  /** Material spreads only by being drawn. */
  lemma StepHolds(aead: Aead<Aad>, dek: Bytes, s: State, e: Event, key: Bytes, homes: iset<(string, string)>)
    requires aead.Correct() && Invariant(aead, dek, s) && Proper(dek, [e])
    requires HeldWithin(aead, dek, s.keys, key, homes) && DrawsWithin(e, key, homes)
    ensures HeldWithin(aead, dek, Step(aead, s, e).0.keys, key, homes)
  {
    hide HeldWithin, DrawsWithin, Lookup, ValidKeyStore, ValidRecord, Wrap, CreateStep, LoadKey, ValidKeyName,
      OwnerOnly, Rotated, Materials, P.GrantStep, P.RevokeStep, P.DeleteStep, P.NormalizePermissions, PT.DocumentStep,
      PT.Canonical, ResolveKeyReference, ParseCiphertext, Encode, Decode, ReplaceStep, DeleteStep, AllOpen,
      GrantsMatchKeys, CiphertextText, CiphertextAad;
    match e.op {
      case CreateKey(_, _, _) => CreateKeyHolds(aead, dek, s, e, key, homes);
      case CreateSigningKey(_, _, _, _, _) => CreateSigningKeyHolds(aead, dek, s, e, key, homes);
      case RotateKey(_, _, _, _) => RotateKeyHolds(aead, dek, s, e, key, homes);
      case RevokeKey(name) =>
        if Gate(e.call) == None {
          RevokeHolds(aead, dek, s.keys, e.call.identity.value, name, key, homes);
        }
      case _ =>
    }
  }

  lemma {:induction false} RunHolds(
    aead: Aead<Aad>, dek: Bytes, s: State, events: seq<Event>, key: Bytes, homes: iset<(string, string)>)
    requires aead.Correct() && Invariant(aead, dek, s) && Proper(dek, events)
    requires HeldWithin(aead, dek, s.keys, key, homes)
    requires forall i :: 0 <= i < |events| ==> DrawsWithin(events[i], key, homes)
    ensures HeldWithin(aead, dek, Run(aead, s, events).keys, key, homes)
    decreases |events|
  {
    hide Step, Invariant, HeldWithin, DrawsWithin, Proper;
    if events != [] {
      ProperParts(dek, events);
      StepKeepsInvariant(aead, dek, s, events[0]);
      StepHolds(aead, dek, s, events[0], key, homes);
      RunHolds(aead, dek, Step(aead, s, events[0]).0, events[1..], key, homes);
    }
  }

  // ----- Revoked ciphertexts

  /** Without the key material anywhere, an issued text does not decrypt. */
  lemma UnheldDecryptFails(
    aead: Aead<Aad>, dek: Bytes, s: State, r: Resolved, loaded: LoadedKey, nonce: Bytes, plaintext: Bytes,
    reader: Call, readerOwner: Option<string>)
    requires ValidKeyStore(s.keys) && HeldWithin(aead, dek, s.keys, loaded.key, iset{})
    requires |nonce| == NONCE_LEN && ValidKeyName(r.keyName) && loaded.version >= 1
    requires reader.dek == None || reader.dek == Some(dek)
    requires aead.Sole(loaded.key, nonce, TextAad(CiphertextAad(r.keyName, loaded.version)),
      Envelope(aead, r, loaded, nonce, plaintext)[NONCE_LEN..])
    ensures DecryptStep(aead, s, reader, CiphertextText(aead, r, loaded, nonce, plaintext), readerOwner).1.Err?
  {
    hide ResolveKeyReference, LoadKey, CiphertextAad, CiphertextText, DecryptStep, Identifier, Envelope, Lookup,
      Materials, Unwrap, ValidKeyStore, ValidKeyName;
    if DecryptStep(aead, s, reader, CiphertextText(aead, r, loaded, nonce, plaintext), readerOwner).1.Ok? {
      DecryptOfIssued(aead, s, r, loaded, nonce, plaintext, reader, readerOwner);
      var again := ResolveKeyReference(
        reader.identity.value, Identifier(r.ownerEmail, r.keyName, r.qualified), readerOwner).value;
      LoadedIsUnwrapped(aead, dek, s, reader.identity.value, again.ownerEmail, again.keyName, loaded.version);
      LookupNames(s.keys, again.ownerEmail, again.keyName);
    }
  }

  lemma LookupNames(keys: KeyStore, owner: string, name: string)
    ensures Lookup(keys, owner, name).Some? ==>
      Lookup(keys, owner, name).value.ownerEmail == owner && Lookup(keys, owner, name).value.keyName == name
  {
  }

  lemma NothingHeld(aead: Aead<Aad>, dek: Bytes, key: Bytes)
    ensures HeldWithin(aead, dek, EMPTY.keys, key, iset{})
  {
  }

  lemma WiderHeld(
    aead: Aead<Aad>, dek: Bytes, keys: KeyStore, key: Bytes, homes: iset<(string, string)>,
    wider: iset<(string, string)>)
    requires HeldWithin(aead, dek, keys, key, homes) && homes <= wider
    ensures HeldWithin(aead, dek, keys, key, wider)
  {
    hide Lookup, RecordHolds;
  }

  lemma HeldAtHome(
    aead: Aead<Aad>, dek: Bytes, before: seq<Event>, middle: seq<Event>, key: Bytes, homes: iset<(string, string)>)
    requires aead.Correct() && Proper(dek, before) && Proper(dek, middle)
    requires forall i :: 0 <= i < |before| ==> DrawsWithin(before[i], key, homes)
    requires forall i :: 0 <= i < |middle| ==> DrawsWithin(middle[i], key, homes)
    ensures
      var end := Run(aead, Run(aead, EMPTY, before), middle);
      Invariant(aead, dek, end) && HeldWithin(aead, dek, end.keys, key, homes)
  {
    hide Run, Invariant, HeldWithin, DrawsWithin, Proper;
    EmptyHasInvariant(aead, dek);
    NothingHeld(aead, dek, key);
    WiderHeld(aead, dek, EMPTY.keys, key, iset{}, homes);
    RunKeepsInvariant(aead, dek, EMPTY, before, "", "");
    RunHolds(aead, dek, EMPTY, before, key, homes);
    RunKeepsInvariant(aead, dek, Run(aead, EMPTY, before), middle, "", "");
    RunHolds(aead, dek, Run(aead, EMPTY, before), middle, key, homes);
  }

  /** What a successful encryption has done. */
  lemma IssuedParts(
    aead: Aead<Aad>, dek: Bytes, s: State, call: Call, reference: string, plaintext: string, keyOwner: Option<string>,
    nonce: Bytes)
    requires call.dek == Some(dek) && EncryptStep(aead, s, call, reference, plaintext, keyOwner, nonce).1.Ok?
    ensures call.identity.Some? && ResolveKeyReference(call.identity.value, reference, keyOwner).Some?
    ensures
      var r := ResolveKeyReference(call.identity.value, reference, keyOwner).value;
      var loaded := LoadKey(aead, dek, s, call.identity.value, r.ownerEmail, r.keyName, "ENCRYPT", None);
      && ValidKeyName(r.keyName) && Decode(plaintext).Some? && loaded.Ok? && loaded.value.version >= 1
      && EncryptStep(aead, s, call, reference, plaintext, keyOwner, nonce).1.value
         == Output(CiphertextText(aead, r, loaded.value, nonce, Decode(plaintext).value))
  {
    hide ResolveKeyReference, LoadKey, CiphertextText, Decode, ValidKeyName;
    var r := ResolveKeyReference(call.identity.value, reference, keyOwner).value;
    LoadedVersionPositive(aead, dek, s, call.identity.value, r.ownerEmail, r.keyName);
  }

  /** Revocation is for good. Over every run from empty stores: once the owner has
      revoked the key under which a text was issued, the text decrypts for nobody
      in any later state, whatever is created, rotated, granted or re-created
      under the old name; the envelope is assumed to open in one way only, and the
      key's material to be drawn for no other key and never again afterwards. */
  lemma RevokedCiphertextIsLost(
    aead: Aead<Aad>, dek: Bytes, before: seq<Event>, call: Call, reference: string, plaintext: string,
    keyOwner: Option<string>, nonce: Bytes, middle: seq<Event>, later: seq<Event>, reader: Call,
    readerOwner: Option<string>)
    requires aead.Correct() && Proper(dek, before) && Proper(dek, middle) && Proper(dek, later)
    requires call.dek == Some(dek) && |nonce| == NONCE_LEN && (reader.dek == None || reader.dek == Some(dek))
    requires EncryptStep(aead, Run(aead, EMPTY, before), call, reference, plaintext, keyOwner, nonce).1.Ok?
    requires
      var s := Run(aead, EMPTY, before);
      var r := ResolveKeyReference(call.identity.value, reference, keyOwner).value;
      var loaded := LoadKey(aead, dek, s, call.identity.value, r.ownerEmail, r.keyName, "ENCRYPT", None).value;
      var home := iset{(r.ownerEmail, r.keyName)};
      && (forall i :: 0 <= i < |before| ==> DrawsWithin(before[i], loaded.key, home))
      && (forall i :: 0 <= i < |middle| ==> DrawsWithin(middle[i], loaded.key, home))
      && (forall i :: 0 <= i < |later| ==> !Draws(later[i], loaded.key))
      && RevokeKeyStep(Run(aead, s, middle), Call(Some(dek), Some(r.ownerEmail)), r.keyName).1.Ok?
      && aead.Sole(loaded.key, nonce, TextAad(CiphertextAad(r.keyName, loaded.version)),
           Envelope(aead, r, loaded, nonce, Decode(plaintext).value)[NONCE_LEN..])
    ensures
      var s := Run(aead, EMPTY, before);
      var r := ResolveKeyReference(call.identity.value, reference, keyOwner).value;
      var issued := EncryptStep(aead, s, call, reference, plaintext, keyOwner, nonce).1.value;
      var revoked := RevokeKeyStep(Run(aead, s, middle), Call(Some(dek), Some(r.ownerEmail)), r.keyName).0;
      issued.Output? && DecryptStep(aead, Run(aead, revoked, later), reader, issued.text, readerOwner).1.Err?
  {
    hide Run, ResolveKeyReference, LoadKey, CiphertextAad, CiphertextText, EncryptStep, DecryptStep, RevokeKeyStep,
      Envelope, Decode, Invariant, HeldWithin, DrawsWithin, Proper, ValidKeyName;
    var s := Run(aead, EMPTY, before);
    IssuedParts(aead, dek, s, call, reference, plaintext, keyOwner, nonce);
    var r := ResolveKeyReference(call.identity.value, reference, keyOwner).value;
    var loaded := LoadKey(aead, dek, s, call.identity.value, r.ownerEmail, r.keyName, "ENCRYPT", None).value;
    var home := iset{(r.ownerEmail, r.keyName)};
    HeldAtHome(aead, dek, before, middle, loaded.key, home);
    AfterRevocation(
      aead, dek, Run(aead, s, middle), r, loaded, nonce, Decode(plaintext).value, later, reader, readerOwner);
  }

  lemma AfterRevocation(
    aead: Aead<Aad>, dek: Bytes, s: State, r: Resolved, loaded: LoadedKey, nonce: Bytes, plaintext: Bytes,
    later: seq<Event>, reader: Call, readerOwner: Option<string>)
    requires aead.Correct() && Invariant(aead, dek, s) && Proper(dek, later)
    requires HeldWithin(aead, dek, s.keys, loaded.key, iset{(r.ownerEmail, r.keyName)})
    requires |nonce| == NONCE_LEN && ValidKeyName(r.keyName) && loaded.version >= 1
    requires reader.dek == None || reader.dek == Some(dek)
    requires forall i :: 0 <= i < |later| ==> !Draws(later[i], loaded.key)
    requires aead.Sole(loaded.key, nonce, TextAad(CiphertextAad(r.keyName, loaded.version)),
      Envelope(aead, r, loaded, nonce, plaintext)[NONCE_LEN..])
    requires RevokeKeyStep(s, Call(Some(dek), Some(r.ownerEmail)), r.keyName).1.Ok?
    ensures
      var revoked := RevokeKeyStep(s, Call(Some(dek), Some(r.ownerEmail)), r.keyName).0;
      DecryptStep(aead, Run(aead, revoked, later), reader, CiphertextText(aead, r, loaded, nonce, plaintext),
        readerOwner).1.Err?
  {
    hide Run, CiphertextAad, CiphertextText, DecryptStep, Envelope, AllOpen, GrantsMatchKeys, PT.Canonical,
      HeldWithin, Proper, ValidKeyName, ValidKeyStore, DeleteStep, P.DeleteStep;
    var revoked := RevokeKeyStep(s, Call(Some(dek), Some(r.ownerEmail)), r.keyName).0;
    RevokeHolds(aead, dek, s.keys, r.ownerEmail, r.keyName, loaded.key, iset{(r.ownerEmail, r.keyName)});
    assert iset{(r.ownerEmail, r.keyName)} - iset{(r.ownerEmail, r.keyName)} == iset{};
    RevokeKeeps(aead, dek, s, r.ownerEmail, r.keyName);
    RunHolds(aead, dek, revoked, later, loaded.key, iset{});
    RunKeepsInvariant(aead, dek, revoked, later, "", "");
    UnheldDecryptFails(aead, dek, Run(aead, revoked, later), r, loaded, nonce, plaintext, reader, readerOwner);
  }
}
