/** The named-key store: legacy and versioned records, and the repository. */
module TransitStore {
  import opened Wrappers
  import opened Base64
  import opened Versions

  const ENVELOPE_LEN := 60
  const PUBLIC_KEY_LEN := 32
  const SIGNING_ALGORITHM := "ED25519"

  datatype TransitError =
    | VaultLocked | Unauthenticated | InvalidInput | DuplicateKey | KeyNotFound | InvalidCiphertext
    | DecryptionFailed | InvalidKeyUsage | PermissionDenied | InvalidSigningAlgorithm

  type Outcome<T> = Result<T, TransitError>

  /** One key version: its number and the wrapped key material as Base64 text. */
  datatype Version = Version(version: int, material: string)

  datatype KeyRecord =
    | LegacyKey(ownerEmail: string, keyName: string, material: string)
    | VersionedKey(ownerEmail: string, keyName: string, latestVersion: int, versions: seq<Version>)
    | SigningKey(ownerEmail: string, keyName: string, algorithm: string, privateKey: string, publicKey: string)

  type KeyStore = seq<KeyRecord>

  // ----- Validation

  predicate IsEnvelope(text: string, length: int) {
    Decode(text).Some? && |Decode(text).value| == length
  }

  predicate ValidRecord(r: KeyRecord) {
    && r.ownerEmail != "" && r.keyName != ""
    && match r
       case LegacyKey(_, _, material) => IsEnvelope(material, ENVELOPE_LEN)
       case VersionedKey(_, _, latestVersion, versions) =>
         && latestVersion >= 1 && |versions| == latestVersion
         && forall i :: 0 <= i < |versions| ==>
              versions[i].version == i + 1 && IsEnvelope(versions[i].material, ENVELOPE_LEN)
       case SigningKey(_, _, algorithm, privateKey, publicKey) =>
         algorithm == SIGNING_ALGORITHM && IsEnvelope(privateKey, ENVELOPE_LEN) && IsEnvelope(publicKey, PUBLIC_KEY_LEN)
  }

  predicate IsKey(r: KeyRecord, owner: string, name: string) {
    r.ownerEmail == owner && r.keyName == name
  }

  ghost predicate DistinctRecords(keys: KeyStore) {
    forall i, j :: 0 <= i < j < |keys| ==> !IsKey(keys[i], keys[j].ownerEmail, keys[j].keyName)
  }

  ghost predicate ValidKeyStore(keys: KeyStore) {
    (forall i :: 0 <= i < |keys| ==> ValidRecord(keys[i])) && DistinctRecords(keys)
  }

  method ValidateTransitKeyStore(keys: KeyStore) returns (ok: bool)
    ensures ok <==> ValidKeyStore(keys)
  {
    hide ValidRecord;
    var identities: set<(string, string)> := {};
    for i := 0 to |keys|
      invariant forall j :: 0 <= j < i ==> ValidRecord(keys[j])
      invariant DistinctRecords(keys[..i])
      invariant identities == set j | 0 <= j < i :: (keys[j].ownerEmail, keys[j].keyName)
    {
      var r := keys[i];
      if !ValidRecord(r) {
        return false;
      }
      var identity := (r.ownerEmail, r.keyName);
      if identity in identities {
        var j :| 0 <= j < i && (keys[j].ownerEmail, keys[j].keyName) == identity;
        assert IsKey(keys[j], r.ownerEmail, r.keyName);
        return false;
      }
      forall j | 0 <= j < i ensures !IsKey(keys[j], r.ownerEmail, r.keyName) {
        assert (keys[j].ownerEmail, keys[j].keyName) in identities;
      }
      identities := identities + {identity};
    }
    assert keys[..|keys|] == keys;
    ok := true;
  }

  /** What the validator admits: material in envelopes of 60 bytes, for versions
      numbered 1, 2, ... without gaps; for signing keys a private key in such an
      envelope, a public key of 32 bytes and the one algorithm. */
  lemma RecordsExactly(r: KeyRecord)
    ensures ValidRecord(r) <==>
      && r.ownerEmail != "" && r.keyName != ""
      && if r.LegacyKey? then HoldsBytes(r.material, 60)
         else if r.VersionedKey? then
           && 1 <= r.latestVersion == |r.versions|
           && forall i :: 0 <= i < |r.versions| ==>
                r.versions[i].version == i + 1 && HoldsBytes(r.versions[i].material, 60)
         else r.algorithm == "ED25519" && HoldsBytes(r.privateKey, 60) && HoldsBytes(r.publicKey, 32)
  {
    hide Decode;
  }

  /** The Base64 text of this many bytes. */
  ghost predicate HoldsBytes(text: string, length: nat) {
    exists bytes :: Decode(text) == Some(bytes) && |bytes| == length
  }

  // ----- Records as append-only lists of key material

  /** The wrapped material of version 1, 2, ...: both shapes of encryption keys
      stand for such a list. */
  function Materials(r: KeyRecord): seq<string> {
    match r
    case LegacyKey(_, _, material) => [material]
    case VersionedKey(_, _, _, versions) => seq(|versions|, i requires 0 <= i < |versions| => versions[i].material)
    case SigningKey(_, _, _, _, _) => []
  }

  function LatestVersion(r: KeyRecord): int {
    if r.VersionedKey? then r.latestVersion else 1
  }

  /** The wrapped material of one version, as the service looks it up. */
  function MaterialOf(r: KeyRecord, version: int): Option<string> {
    match r
    case LegacyKey(_, _, material) => if version == 1 then Some(material) else None
    case VersionedKey(_, _, _, versions) =>
      var found := FindVersion(versions, VersionNumber, version);
      if found == None then None else Some(found.value.material)
    case SigningKey(_, _, _, _, _) => None
  }

  function VersionNumber(v: Version): int {
    v.version
  }

  /** In a valid record the versions are 1 to latest and look-up is indexing. */
  lemma MaterialOfIsIndexing(r: KeyRecord, version: int)
    requires ValidRecord(r) && !r.SigningKey?
    ensures |Materials(r)| == LatestVersion(r)
    ensures MaterialOf(r, version)
         == if 1 <= version <= LatestVersion(r) then Some(Materials(r)[version - 1]) else None
  {
    hide IsEnvelope;
    if r.VersionedKey? {
      FindNumbered(r.versions, VersionNumber, 1, version);
    }
  }

  /** The versioned record that rotation writes: earlier material, migrated from
      the legacy shape if need be, and one new version. */
  function Rotated(r: KeyRecord, material: string): KeyRecord
    requires !r.SigningKey?
  {
    var newVersion := LatestVersion(r) + 1;
    var versions := if r.VersionedKey? then r.versions else [Version(1, r.material)];
    VersionedKey(r.ownerEmail, r.keyName, newVersion, versions + [Version(newVersion, material)])
  }

  /** Rotation appends exactly one version and keeps all earlier material. */
  lemma RotationAppends(r: KeyRecord, material: string)
    requires ValidRecord(r) && !r.SigningKey? && IsEnvelope(material, ENVELOPE_LEN)
    ensures ValidRecord(Rotated(r, material))
    ensures Materials(Rotated(r, material)) == Materials(r) + [material]
  {
    hide IsEnvelope;
  }

  // ----- Operations on the store

  function IndexOfKey(keys: KeyStore, owner: string, name: string): (i: nat)
    ensures i <= |keys| && (i < |keys| ==> IsKey(keys[i], owner, name))
    ensures forall j :: 0 <= j < i ==> !IsKey(keys[j], owner, name)
  {
    if keys == [] || IsKey(keys[0], owner, name) then 0 else 1 + IndexOfKey(keys[1..], owner, name)
  }

  function Lookup(keys: KeyStore, owner: string, name: string): Option<KeyRecord> {
    var i := IndexOfKey(keys, owner, name);
    if i < |keys| then Some(keys[i]) else None
  }

  function WithoutRecord(keys: KeyStore, owner: string, name: string): KeyStore {
    if keys == [] then []
    else (if IsKey(keys[0], owner, name) then [] else [keys[0]]) + WithoutRecord(keys[1..], owner, name)
  }

  ghost function CreateStep(keys: KeyStore, r: KeyRecord): (KeyStore, Outcome<()>) {
    if !ValidKeyStore(keys) then (keys, Err(InvalidInput))
    else if Lookup(keys, r.ownerEmail, r.keyName).Some? then (keys, Err(DuplicateKey))
    else if !ValidKeyStore(keys + [r]) then (keys, Err(InvalidInput))
    else (keys + [r], Ok(()))
  }

  ghost function ReplaceStep(keys: KeyStore, r: KeyRecord): (KeyStore, Outcome<()>) {
    var i := IndexOfKey(keys, r.ownerEmail, r.keyName);
    if !ValidKeyStore(keys) then (keys, Err(InvalidInput))
    else if i == |keys| then (keys, Err(KeyNotFound))
    else if !ValidKeyStore(keys[i := r]) then (keys, Err(InvalidInput))
    else (keys[i := r], Ok(()))
  }

  ghost function GetStep(keys: KeyStore, owner: string, name: string): Outcome<KeyRecord> {
    if !ValidKeyStore(keys) then Err(InvalidInput)
    else match Lookup(keys, owner, name)
      case None => Err(KeyNotFound)
      case Some(r) => Ok(r)
  }

  ghost function DeleteStep(keys: KeyStore, owner: string, name: string): (KeyStore, Outcome<()>) {
    if !ValidKeyStore(keys) then (keys, Err(InvalidInput))
    else if |WithoutRecord(keys, owner, name)| == |keys| then (keys, Err(KeyNotFound))
    else (WithoutRecord(keys, owner, name), Ok(()))
  }

  class TransitKeyRepository {
    var keys: KeyStore

    constructor ()
      ensures keys == []
    {
      keys := [];
    }

    method CreateKey(r: KeyRecord) returns (o: Outcome<()>)
      modifies this
      ensures (keys, o) == CreateStep(old(keys), r)
    {
      hide ValidKeyStore;
      var ok := ValidateTransitKeyStore(keys);
      if !ok {
        return Err(InvalidInput);
      }
      if IndexOfKey(keys, r.ownerEmail, r.keyName) < |keys| {
        return Err(DuplicateKey);
      }
      var store := keys + [r];
      ok := ValidateTransitKeyStore(store);
      if !ok {
        return Err(InvalidInput);
      }
      keys := store;
      o := Ok(());
    }

    method ReplaceKey(r: KeyRecord) returns (o: Outcome<()>)
      modifies this
      ensures (keys, o) == ReplaceStep(old(keys), r)
    {
      hide ValidKeyStore;
      var ok := ValidateTransitKeyStore(keys);
      if !ok {
        return Err(InvalidInput);
      }
      var i := 0;
      while i < |keys| && !IsKey(keys[i], r.ownerEmail, r.keyName)
        invariant i <= IndexOfKey(keys, r.ownerEmail, r.keyName)
        invariant forall j :: 0 <= j < i ==> !IsKey(keys[j], r.ownerEmail, r.keyName)
      {
        i := i + 1;
      }
      if i == |keys| {
        return Err(KeyNotFound);
      }
      var store := keys[i := r];
      ok := ValidateTransitKeyStore(store);
      if !ok {
        return Err(InvalidInput);
      }
      keys := store;
      o := Ok(());
    }

    method GetKey(owner: string, name: string) returns (o: Outcome<KeyRecord>)
      ensures o == GetStep(keys, owner, name)
    {
      hide ValidKeyStore;
      var ok := ValidateTransitKeyStore(keys);
      if !ok {
        return Err(InvalidInput);
      }
      for i := 0 to |keys|
        invariant i <= IndexOfKey(keys, owner, name)
      {
        if IsKey(keys[i], owner, name) {
          return Ok(keys[i]);
        }
      }
      o := Err(KeyNotFound);
    }

    method DeleteKey(owner: string, name: string) returns (o: Outcome<()>)
      modifies this
      ensures (keys, o) == DeleteStep(old(keys), owner, name)
    {
      hide ValidKeyStore;
      var ok := ValidateTransitKeyStore(keys);
      if !ok {
        return Err(InvalidInput);
      }
      var remaining := WithoutRecord(keys, owner, name);
      if |remaining| == |keys| {
        return Err(KeyNotFound);
      }
      keys := remaining;
      o := Ok(());
    }
  }

  // ----- What the operations keep

  lemma LookupMember(keys: KeyStore, r: KeyRecord)
    requires DistinctRecords(keys) && r in keys
    ensures Lookup(keys, r.ownerEmail, r.keyName) == Some(r)
  {
    var j :| 0 <= j < |keys| && keys[j] == r;
    var i := IndexOfKey(keys, r.ownerEmail, r.keyName);
    assert IsKey(keys[j], r.ownerEmail, r.keyName);
    assert i <= j && IsKey(keys[i], keys[j].ownerEmail, keys[j].keyName);
  }

  lemma LookupFound(keys: KeyStore, owner: string, name: string)
    requires Lookup(keys, owner, name).Some?
    ensures Lookup(keys, owner, name).value in keys && IsKey(Lookup(keys, owner, name).value, owner, name)
    ensures ValidKeyStore(keys) ==> ValidRecord(Lookup(keys, owner, name).value)
  {
    hide ValidRecord;
  }

  lemma LookupNone(keys: KeyStore, owner: string, name: string)
    ensures Lookup(keys, owner, name) == None <==> forall r :: r in keys ==> !IsKey(r, owner, name)
  {
    var i := IndexOfKey(keys, owner, name);
    if i == |keys| {
      forall r | r in keys ensures !IsKey(r, owner, name) {
        var j :| 0 <= j < |keys| && keys[j] == r;
      }
    } else {
      assert keys[i] in keys && IsKey(keys[i], owner, name);
    }
  }

  /** Creating adds one record and leaves the look-up of all others alone. */
  lemma CreateLookup(keys: KeyStore, r: KeyRecord, owner: string, name: string)
    requires ValidKeyStore(keys) && ValidRecord(r) && Lookup(keys, r.ownerEmail, r.keyName) == None
    ensures ValidKeyStore(keys + [r])
    ensures Lookup(keys + [r], owner, name) == if IsKey(r, owner, name) then Some(r) else Lookup(keys, owner, name)
  {
    hide ValidRecord, Lookup;
    var after := keys + [r];
    LookupNone(keys, r.ownerEmail, r.keyName);
    assert DistinctRecords(after) by {
      forall j | 0 <= j < |keys| ensures !IsKey(keys[j], r.ownerEmail, r.keyName) {
        assert keys[j] in keys;
      }
    }
    if IsKey(r, owner, name) {
      LookupMember(after, r);
    } else {
      SameRecordsSameLookup(keys, after, owner, name);
    }
  }

  /** Two stores that agree on the records of one key agree on its look-up. */
  lemma SameRecordsSameLookup(keys: KeyStore, other: KeyStore, owner: string, name: string)
    requires DistinctRecords(keys) && DistinctRecords(other)
    requires forall r :: IsKey(r, owner, name) ==> (r in keys <==> r in other)
    ensures Lookup(keys, owner, name) == Lookup(other, owner, name)
  {
    hide Lookup;
    LookupNone(keys, owner, name);
    LookupNone(other, owner, name);
    if Lookup(keys, owner, name).Some? {
      LookupFound(keys, owner, name);
      LookupMember(other, Lookup(keys, owner, name).value);
    }
  }

  lemma ReplaceLookup(keys: KeyStore, r: KeyRecord, owner: string, name: string)
    requires ValidKeyStore(keys) && ValidRecord(r) && Lookup(keys, r.ownerEmail, r.keyName).Some?
    ensures
      var after := keys[IndexOfKey(keys, r.ownerEmail, r.keyName) := r];
      && ValidKeyStore(after)
      && Lookup(after, owner, name) == if IsKey(r, owner, name) then Some(r) else Lookup(keys, owner, name)
  {
    hide ValidRecord;
    var i := IndexOfKey(keys, r.ownerEmail, r.keyName);
    var after := keys[i := r];
    assert forall j :: 0 <= j < |keys| ==>
      after[j].ownerEmail == keys[j].ownerEmail && after[j].keyName == keys[j].keyName;
    assert DistinctRecords(after);
    if IsKey(r, owner, name) {
      assert after[i] in after;
      LookupMember(after, r);
    } else {
      forall q | IsKey(q, owner, name) ensures q in keys <==> q in after {
        if q in keys {
          var j :| 0 <= j < |keys| && keys[j] == q;
          assert after[j] == q;
        }
      }
      SameRecordsSameLookup(keys, after, owner, name);
    }
  }

  lemma {:induction false} WithoutRecordElements(keys: KeyStore, owner: string, name: string, r: KeyRecord)
    ensures r in WithoutRecord(keys, owner, name) <==> r in keys && !IsKey(r, owner, name)
  {
    if keys != [] {
      WithoutRecordElements(keys[1..], owner, name, r);
      assert keys == [keys[0]] + keys[1..];
    }
  }

  lemma {:induction false} WithoutRecordValid(keys: KeyStore, owner: string, name: string)
    requires ValidKeyStore(keys)
    ensures ValidKeyStore(WithoutRecord(keys, owner, name))
    ensures |WithoutRecord(keys, owner, name)| <= |keys|
    ensures |WithoutRecord(keys, owner, name)| == |keys| <==> Lookup(keys, owner, name) == None
  {
    hide ValidRecord, Lookup;
    LookupNone(keys, owner, name);
    if keys != [] {
      var rest := WithoutRecord(keys[1..], owner, name);
      WithoutRecordValid(keys[1..], owner, name);
      LookupNone(keys[1..], owner, name);
      assert keys == [keys[0]] + keys[1..];
      if !IsKey(keys[0], owner, name) {
        forall j | 0 <= j < |rest|
          ensures !IsKey(keys[0], rest[j].ownerEmail, rest[j].keyName) && ValidRecord(rest[j])
        {
          WithoutRecordElements(keys[1..], owner, name, rest[j]);
        }
      }
    }
  }

  lemma DeleteLookup(keys: KeyStore, gone: string, goneName: string, owner: string, name: string)
    requires ValidKeyStore(keys)
    ensures Lookup(WithoutRecord(keys, gone, goneName), owner, name)
         == if owner == gone && name == goneName then None else Lookup(keys, owner, name)
  {
    hide Lookup, WithoutRecord, ValidRecord;
    var after := WithoutRecord(keys, gone, goneName);
    WithoutRecordValid(keys, gone, goneName);
    forall r ensures r in after <==> r in keys && !IsKey(r, gone, goneName) {
      WithoutRecordElements(keys, gone, goneName, r);
    }
    if owner == gone && name == goneName {
      LookupNone(after, owner, name);
    } else {
      SameRecordsSameLookup(keys, after, owner, name);
    }
  }
}
