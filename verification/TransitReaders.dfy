/** Who can decrypt an issued ciphertext: exactly the authorized callers who name
    its owner, given an ideal cipher. */
module TransitReaders {
  import opened Wrappers
  import opened Base64
  import opened Text
  import opened AuthenticatedEncryption
  import opened TransitText
  import opened TransitStore
  import opened Transit
  import opened TransitTheorems
  import P = Policies

  /** No other owner's key of this name holds the same key material. */
  ghost predicate KeyIsOwners(aead: Aead<Aad>, dek: Bytes, s: State, owner: string, name: string, key: Bytes) {
    forall other, v :: other != owner && Lookup(s.keys, other, name).Some? ==>
      var materials := Materials(Lookup(s.keys, other, name).value);
      1 <= v <= |materials| ==> Unwrap(aead, dek, KeyAad(other, name, v), materials[v - 1]) != Some(key)
  }

  lemma LoadedIsUnwrapped(
    aead: Aead<Aad>, dek: Bytes, s: State, requester: string, owner: string, name: string, version: int)
    requires LoadKey(aead, dek, s, requester, owner, name, "DECRYPT", Some(version)).Ok?
    ensures Lookup(s.keys, owner, name).Some?
    ensures
      var r := Lookup(s.keys, owner, name).value;
      && 1 <= version <= |Materials(r)|
      && Unwrap(aead, dek, KeyAad(owner, name, version), Materials(r)[version - 1])
         == Some(LoadKey(aead, dek, s, requester, owner, name, "DECRYPT", Some(version)).value.key)
  {
    hide Lookup, ValidRecord, Materials, Unwrap, MaterialOf, P.AllowsIn;
    LookupFound(s.keys, owner, name);
    MaterialOfIsIndexing(Lookup(s.keys, owner, name).value, version);
  }

  /** What decryption does with an issued text that parses. */
  lemma DecryptOfIssued(
    aead: Aead<Aad>, s: State, r: Resolved, loaded: LoadedKey, nonce: Bytes, plaintext: Bytes,
    reader: Call, readerOwner: Option<string>)
    requires |nonce| == NONCE_LEN && ValidKeyName(r.keyName) && loaded.version >= 1
    requires DecryptStep(aead, s, reader, CiphertextText(aead, r, loaded, nonce, plaintext), readerOwner).1.Ok?
    ensures Gate(reader) == None && !(r.qualified && ':' in r.ownerEmail)
    ensures
      var again := ResolveKeyReference(
        reader.identity.value, Identifier(r.ownerEmail, r.keyName, r.qualified), readerOwner);
      && again.Some? && ValidKeyName(again.value.keyName)
      && var reloaded := LoadKey(aead, reader.dek.value, s, reader.identity.value, again.value.ownerEmail,
           again.value.keyName, "DECRYPT", Some(loaded.version));
      && reloaded.Ok?
      && aead.open(reloaded.value.key, nonce, TextAad(CiphertextAad(again.value.keyName, loaded.version)),
           Envelope(aead, r, loaded, nonce, plaintext)[NONCE_LEN..]).Some?
  {
    hide ParseCiphertext, PrintCiphertext, Encode, Decode, ResolveKeyReference, LoadKey, CiphertextAad, ValidKeyName,
      Identifier;
    var envelope := Envelope(aead, r, loaded, nonce, plaintext);
    PrintedParses(r, loaded.version, envelope);
    DecodeEncode(envelope);
    assert envelope[..NONCE_LEN] == nonce;
  }

  /** A reader who does not name the owner never gets past decryption. */
  lemma MisnamedDecryptFails(
    aead: Aead<Aad>, dek: Bytes, s: State, requester: string, reference: string, keyOwner: Option<string>,
    loaded: LoadedKey, nonce: Bytes, plaintext: Bytes, reader: Call, readerOwner: Option<string>)
    requires |nonce| == NONCE_LEN && loaded.version >= 1 && reader.dek == Some(dek) && reader.identity.Some?
    requires ResolveKeyReference(requester, reference, keyOwner).Some?
    requires
      var r := ResolveKeyReference(requester, reference, keyOwner).value;
      && ValidKeyName(r.keyName) && !NamesOwner(r, reader.identity.value, readerOwner)
      && KeyIsOwners(aead, dek, s, r.ownerEmail, r.keyName, loaded.key)
      && aead.Sole(loaded.key, nonce, TextAad(CiphertextAad(r.keyName, loaded.version)),
           Envelope(aead, r, loaded, nonce, plaintext)[NONCE_LEN..])
    ensures
      var r := ResolveKeyReference(requester, reference, keyOwner).value;
      DecryptStep(aead, s, reader, CiphertextText(aead, r, loaded, nonce, plaintext), readerOwner).1.Err?
  {
    hide ResolveKeyReference, LoadKey, CiphertextAad, CiphertextText, DecryptStep, NamesOwner, Identifier, Envelope,
      Lookup, Materials, Unwrap;
    var r := ResolveKeyReference(requester, reference, keyOwner).value;
    if DecryptStep(aead, s, reader, CiphertextText(aead, r, loaded, nonce, plaintext), readerOwner).1.Ok? {
      DecryptOfIssued(aead, s, r, loaded, nonce, plaintext, reader, readerOwner);
      var again := ResolveKeyReference(
        reader.identity.value, Identifier(r.ownerEmail, r.keyName, r.qualified), readerOwner).value;
      PrintedIdentifierResolves(requester, reference, keyOwner, reader.identity.value, readerOwner);
      CiphertextAadIsInjective(again.keyName, loaded.version, r.keyName, loaded.version);
      LoadedIsUnwrapped(
        aead, dek, s, reader.identity.value, again.ownerEmail, again.keyName, loaded.version);
    }
  }

  /** The exact condition. For a caller authorized for the key, in every state
      reachable without revoking it, decrypting an issued text gives the canonical
      Base64 of the original bytes exactly when the caller names the owner, and
      otherwise an error; the envelope is assumed to open in one way only, and no
      other owner's key of that name to hold the same material. */
  lemma DecryptsExactlyWhenNamed(
    aead: Aead<Aad>, dek: Bytes, s: State, call: Call, reference: string, plaintext: string, keyOwner: Option<string>,
    nonce: Bytes, later: seq<Event>, reader: Call, readerOwner: Option<string>)
    requires aead.Correct() && Invariant(aead, dek, s) && Proper(dek, later)
    requires call.dek == reader.dek == Some(dek) && reader.identity.Some? && |nonce| == NONCE_LEN
    requires EncryptStep(aead, s, call, reference, plaintext, keyOwner, nonce).1.Ok?
    requires
      var r := ResolveKeyReference(call.identity.value, reference, keyOwner).value;
      var loaded := LoadKey(aead, dek, s, call.identity.value, r.ownerEmail, r.keyName, "ENCRYPT", None).value;
      && (forall i :: 0 <= i < |later| ==> !Revokes(later[i], r.ownerEmail, r.keyName))
      && Authorized(Run(aead, s, later), reader.identity.value, r.ownerEmail, r.keyName, "DECRYPT")
      && KeyIsOwners(aead, dek, Run(aead, s, later), r.ownerEmail, r.keyName, loaded.key)
      && aead.Sole(loaded.key, nonce, TextAad(CiphertextAad(r.keyName, loaded.version)),
           Envelope(aead, r, loaded, nonce, Decode(plaintext).value)[NONCE_LEN..])
    ensures
      var r := ResolveKeyReference(call.identity.value, reference, keyOwner).value;
      var reply := EncryptStep(aead, s, call, reference, plaintext, keyOwner, nonce).1.value;
      var o := DecryptStep(aead, Run(aead, s, later), reader, reply.text, readerOwner).1;
      if NamesOwner(r, reader.identity.value, readerOwner)
      then o == Ok(Output(Encode(Decode(plaintext).value)))
      else o.Err?
  {
    hide ResolveKeyReference, LoadKey, CiphertextAad, CiphertextText, DecryptStep, NamesOwner, Envelope, Run, Decode,
      Encode, Authorized, Revokes, Proper, KeyIsOwners, Invariant, ValidKeyName;
    var r := ResolveKeyReference(call.identity.value, reference, keyOwner).value;
    var loaded := LoadKey(aead, dek, s, call.identity.value, r.ownerEmail, r.keyName, "ENCRYPT", None).value;
    if NamesOwner(r, reader.identity.value, readerOwner) {
      CiphertextStaysDecryptable(aead, dek, s, call, reference, plaintext, keyOwner, nonce, later, reader, readerOwner);
    } else {
      LoadedVersionPositive(aead, dek, s, call.identity.value, r.ownerEmail, r.keyName);
      MisnamedDecryptFails(aead, dek, Run(aead, s, later), call.identity.value, reference, keyOwner, loaded, nonce,
        Decode(plaintext).value, reader, readerOwner);
    }
  }

  lemma LoadedVersionPositive(aead: Aead<Aad>, dek: Bytes, s: State, requester: string, owner: string, name: string)
    requires LoadKey(aead, dek, s, requester, owner, name, "ENCRYPT", None).Ok?
    ensures LoadKey(aead, dek, s, requester, owner, name, "ENCRYPT", None).value.version >= 1
  {
    hide Lookup, ValidRecord, Unwrap, MaterialOf, P.AllowsIn;
    LookupFound(s.keys, owner, name);
    LatestVersionPositive(Lookup(s.keys, owner, name).value);
  }

  // ----- Keys in their owner's hands

  lemma CreatedIsOnly(aead: Aead<Aad>, call: Call, name: string, material: Bytes, nonce: Bytes, o: string, n: string)
    requires Gate(call) == None
    ensures
      var keys := CreateKeyStep(aead, EMPTY, call, name, material, nonce).0.keys;
      Lookup(keys, o, n).Some? ==> o == call.identity.value && n == name
  {
    hide ValidKeyStore, Wrap, ValidKeyName;
    NothingFound(o, n);
  }

  lemma OtherNameFails(
    aead: Aead<Aad>, s: State, call: Call, name: string, reference: string, plaintext: string, keyOwner: Option<string>,
    nonce: Bytes)
    requires forall o, n :: Lookup(s.keys, o, n).Some? ==> n == name
    requires call.identity.Some? ==>
      var r := ResolveKeyReference(call.identity.value, reference, keyOwner);
      r.Some? ==> r.value.keyName != name
    ensures EncryptStep(aead, s, call, reference, plaintext, keyOwner, nonce).1.Err?
  {
    hide ResolveKeyReference, ValidKeyName, Lookup, Unwrap, MaterialOf, P.AllowsIn, CiphertextText, Decode;
  }

  /** Whoever creates a key can encrypt with it under its bare name exactly when
      the name does not start with an address and a slash; then, whatever calls
      follow short of revoking it, the owner decrypts the text. */
  lemma OwnerRoundTrip(
    aead: Aead<Aad>, dek: Bytes, owner: string, name: string, material: Bytes, wrapNonce: Bytes, plaintext: string,
    nonce: Bytes, later: seq<Event>)
    requires aead.Correct() && Proper(dek, later)
    requires owner != "" && ValidKeyName(name) && Decode(plaintext).Some?
    requires |material| == KEY_LEN && |wrapNonce| == |nonce| == NONCE_LEN
    requires forall i :: 0 <= i < |later| ==> !Revokes(later[i], owner, name)
    ensures
      var call := Call(Some(dek), Some(owner));
      var s := Step(aead, EMPTY, Event(call, CreateKey(name, material, wrapNonce))).0;
      var issued := EncryptStep(aead, s, call, name, plaintext, None, nonce).1;
      && Lookup(s.keys, owner, name).Some?
      && (issued.Ok? <==> EmbeddedOwner(name) == None)
      && (issued.Ok? ==>
            && issued.value.Output?
            && DecryptStep(aead, Run(aead, s, later), call, issued.value.text, None).1
               == Ok(Output(Encode(Decode(plaintext).value))))
  {
    hide ValidKeyName, EncryptStep, DecryptStep, Revokes, Encode, Decode, Invariant, CreateKeyStep, Lookup,
      ResolveKeyReference, EmbeddedOwner;
    var call := Call(Some(dek), Some(owner));
    var create := Event(call, CreateKey(name, material, wrapNonce));
    var s := Step(aead, EMPTY, create).0;
    EmptyHasInvariant(aead, dek);
    CreateKeyKeeps(aead, dek, EMPTY, create);
    CreateSucceeds(aead, call, name, material, wrapNonce);
    BareNameIsOwn(owner, name);
    if EmbeddedOwner(name) == None {
      AuthorizedEncryptSucceeds(aead, dek, s, call, name, plaintext, None, nonce);
      CiphertextStaysDecryptable(aead, dek, s, call, name, plaintext, None, nonce, later, call, None);
    } else {
      forall o, n ensures Lookup(s.keys, o, n).Some? ==> n == name {
        CreatedIsOnly(aead, call, name, material, wrapNonce, o, n);
      }
      ResolvedNameIfAny(owner, name, None);
      NameIsShorter(name);
      OtherNameFails(aead, s, call, name, name, plaintext, None, nonce);
    }
  }

  /** A key that anyone can create and then not use under its name. */
  lemma AddressInNameFails(
    aead: Aead<Aad>, dek: Bytes, owner: string, material: Bytes, wrapNonce: Bytes, plaintext: string, nonce: Bytes)
    requires aead.Correct() && owner != "" && Decode(plaintext).Some?
    requires |material| == KEY_LEN && |wrapNonce| == |nonce| == NONCE_LEN
    ensures
      var call := Call(Some(dek), Some(owner));
      var s := Step(aead, EMPTY, Event(call, CreateKey("x@y.z/k", material, wrapNonce))).0;
      && Lookup(s.keys, owner, "x@y.z/k").Some?
      && EncryptStep(aead, s, call, "x@y.z/k", plaintext, None, nonce).1.Err?
  {
    hide EncryptStep, Step, Lookup, ValidKeyName, EmbeddedOwner, Decode;
    AddressInName();
    OwnerRoundTrip(aead, dek, owner, "x@y.z/k", material, wrapNonce, plaintext, nonce, []);
  }

  /** The round trip through any reference: in every state in which the owner has
      an encryption key, he can encrypt by each reference that denotes it and,
      after any calls short of revoking it, decrypt the text by each way of
      reading that names him. */
  lemma OwnerRoundTripBy(
    aead: Aead<Aad>, dek: Bytes, s: State, owner: string, name: string, reference: string, keyOwner: Option<string>,
    plaintext: string, nonce: Bytes, later: seq<Event>, readerOwner: Option<string>)
    requires aead.Correct() && Invariant(aead, dek, s) && Proper(dek, later) && |nonce| == NONCE_LEN
    requires Lookup(s.keys, owner, name).Some? && !Lookup(s.keys, owner, name).value.SigningKey?
    requires ValidKeyName(name) && Decode(plaintext).Some? && UsedWith(owner, name, reference, keyOwner, readerOwner)
    requires forall i :: 0 <= i < |later| ==> !Revokes(later[i], owner, name)
    ensures
      var call := Call(Some(dek), Some(owner));
      var issued := EncryptStep(aead, s, call, reference, plaintext, keyOwner, nonce).1;
      && issued.Ok? && issued.value.Output?
      && DecryptStep(aead, Run(aead, s, later), call, issued.value.text, readerOwner).1
         == Ok(Output(Encode(Decode(plaintext).value)))
  {
    hide ValidKeyName, EncryptStep, DecryptStep, Revokes, Encode, Decode, Invariant, Lookup, ResolveKeyReference,
      NamesOwner;
    var call := Call(Some(dek), Some(owner));
    AuthorizedEncryptSucceeds(aead, dek, s, call, reference, plaintext, keyOwner, nonce);
    CiphertextStaysDecryptable(
      aead, dek, s, call, reference, plaintext, keyOwner, nonce, later, call, readerOwner);
  }

  // ----- Owners whose address has a separator

  /** An owner whose address contains ':' or '/' can create a key and encrypt with
      it naming himself, exactly when the key's name does not start with an address
      and a slash, and then nobody, himself included, can decrypt the text. */
  lemma SeparatedOwnerCannotDecrypt(
    aead: Aead<Aad>, dek: Bytes, owner: string, name: string, material: Bytes, wrapNonce: Bytes, plaintext: string,
    nonce: Bytes, reader: Call, readerOwner: Option<string>)
    requires aead.Correct() && IsCanonicalEmail(owner) && (':' in owner || '/' in owner)
    requires ValidKeyName(name) && Decode(plaintext).Some?
    requires |material| == KEY_LEN && |wrapNonce| == |nonce| == NONCE_LEN
    ensures
      var call := Call(Some(dek), Some(owner));
      var s := Step(aead, EMPTY, Event(call, CreateKey(name, material, wrapNonce))).0;
      var issued := EncryptStep(aead, s, call, name, plaintext, Some(owner), nonce).1;
      && (issued.Ok? <==> EmbeddedOwner(name) == None)
      && (issued.Ok? ==>
            issued.value.Output? && DecryptStep(aead, s, reader, issued.value.text, readerOwner).1.Err?)
  {
    hide ValidKeyName, EncryptStep, DecryptStep, Encode, Decode, Invariant, CreateKeyStep, Lookup, IsCanonicalEmail,
      EmbeddedOwner, ResolveKeyReference;
    var call := Call(Some(dek), Some(owner));
    var create := Event(call, CreateKey(name, material, wrapNonce));
    var s := Step(aead, EMPTY, create).0;
    forall o, n ensures Lookup(s.keys, o, n).Some? ==> n == name {
      CreatedIsOnly(aead, call, name, material, wrapNonce, o, n);
    }
    OwnedNameIsOwn(owner, name);
    if EmbeddedOwner(name) == None {
      EmptyHasInvariant(aead, dek);
      CreateKeyKeeps(aead, dek, EMPTY, create);
      CreateSucceeds(aead, call, name, material, wrapNonce);
      AuthorizedEncryptSucceeds(aead, dek, s, call, name, plaintext, Some(owner), nonce);
      SeparatedTextFails(aead, dek, s, call, owner, name, plaintext, nonce, reader, readerOwner);
    } else {
      NameIsShorter(name);
      ResolvedNameIfAny(owner, name, Some(owner));
      OtherNameFails(aead, s, call, name, name, plaintext, Some(owner), nonce);
    }
  }

  lemma ResolvedNameIfAny(requester: string, reference: string, keyOwner: Option<string>)
    ensures
      var r := ResolveKeyReference(requester, reference, keyOwner);
      r.Some? ==> r.value.keyName == ReferencedName(reference)
  {
  }

  lemma SeparatedTextFails(
    aead: Aead<Aad>, dek: Bytes, s: State, call: Call, owner: string, name: string, plaintext: string, nonce: Bytes,
    reader: Call, readerOwner: Option<string>)
    requires (':' in owner || '/' in owner) && call == Call(Some(dek), Some(owner)) && |nonce| == NONCE_LEN
    requires ResolveKeyReference(owner, name, Some(owner)) == Some(Resolved(owner, name, true))
    requires EncryptStep(aead, s, call, name, plaintext, Some(owner), nonce).1.Ok?
    requires forall o, n :: Lookup(s.keys, o, n).Some? ==> n == name
    ensures
      var issued := EncryptStep(aead, s, call, name, plaintext, Some(owner), nonce).1;
      issued.value.Output? && DecryptStep(aead, s, reader, issued.value.text, readerOwner).1.Err?
  {
    hide DecryptStep, ResolveKeyReference, LoadKey, CiphertextText, Decode, ValidKeyName, Identifier, CiphertextAad,
      Lookup;
    var r := Resolved(owner, name, true);
    var loaded := LoadKey(aead, dek, s, owner, owner, name, "ENCRYPT", None).value;
    LoadedVersionPositive(aead, dek, s, owner, owner, name);
    var text := CiphertextText(aead, r, loaded, nonce, Decode(plaintext).value);
    if DecryptStep(aead, s, reader, text, readerOwner).1.Ok? {
      DecryptOfIssued(aead, s, r, loaded, nonce, Decode(plaintext).value, reader, readerOwner);
      SlashGivesLongerName(owner, name);
      var again := ResolveKeyReference(reader.identity.value, Identifier(owner, name, true), readerOwner).value;
      ResolvedNameIfAny(reader.identity.value, Identifier(owner, name, true), readerOwner);
      LoadedIsUnwrapped(
        aead, reader.dek.value, s, reader.identity.value, again.ownerEmail, again.keyName, loaded.version);
    }
  }

  lemma KIsValidName()
    ensures ValidKeyName("k")
  {
    StripIsIdentity("k");
  }

  /** The address a/b@c.d is admitted, and its texts are lost. */
  lemma SlashInOwnerCannotDecrypt(
    aead: Aead<Aad>, dek: Bytes, material: Bytes, wrapNonce: Bytes, nonce: Bytes, reader: Call,
    readerOwner: Option<string>)
    requires aead.Correct() && |material| == KEY_LEN && |wrapNonce| == |nonce| == NONCE_LEN
    ensures
      var owner := "a/b@c.d";
      var call := Call(Some(dek), Some(owner));
      var s := Step(aead, EMPTY, Event(call, CreateKey("k", material, wrapNonce))).0;
      var issued := EncryptStep(aead, s, call, "k", "", Some(owner), nonce).1;
      && IsCanonicalEmail(owner)
      && issued.Ok? && issued.value.Output?
      && DecryptStep(aead, s, reader, issued.value.text, readerOwner).1.Err?
  {
    hide EncryptStep, DecryptStep, Step, IsEmail, Lower;
    SlashIsAdmitted();
    KIsValidName();
    assert "a/b@c.d"[1] == '/' && EmbeddedOwner("k") == None;
    assert Decode("").Some?;
    SeparatedOwnerCannotDecrypt(aead, dek, "a/b@c.d", "k", material, wrapNonce, "", nonce, reader, readerOwner);
  }
}
