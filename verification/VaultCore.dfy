/** The vault: create-only metadata that wraps the data encryption key (DEK),
    and a process that is locked until the DEK has been unwrapped. */
module VaultCore {
  import opened Wrappers
  import opened AuthenticatedEncryption
  import opened Passphrases
  import opened ShareCodec
  import opened Shamir
  import opened ShamirTheorems

  const METADATA_AAD := "mini-vault:vault-metadata:v1"
  const SALT_LEN := 16
  const DEK_LEN := 32
  const MEMORY_COST := 65536
  const TIME_COST := 3
  const PARALLELISM := 1
  const HASH_LEN := 32

  datatype VaultError = InvalidInput | AlreadyInitialized | UnlockFailed | VaultLocked

  datatype Metadata =
    | PassphraseMetadata(salt: Bytes, memoryCost: int, timeCost: int, parallelism: int, hashLen: int,
                         nonce: Bytes, sealed: Bytes)
    | ShamirMetadata(threshold: int, totalShares: int, shareSetId: Bytes, nonce: Bytes, sealed: Bytes)

  predicate ValidMetadata(m: Metadata) {
    && |m.nonce| == NONCE_LEN
    && |m.sealed| >= TAG_LEN + 1
    && match m
       case PassphraseMetadata(salt, memoryCost, timeCost, parallelism, hashLen, _, _) =>
         && |salt| == SALT_LEN
         && 8192 <= memoryCost <= 1048576 && 1 <= timeCost <= 10
         && 1 <= parallelism <= 16 && 16 <= hashLen <= 64
       case ShamirMetadata(threshold, totalShares, shareSetId, _, _) =>
         ValidConfig(threshold, totalShares) && |shareSetId| == SHARE_SET_ID_LEN
  }

  /** The foreign primitives: the cipher and the key derivation function with
      its arguments passphrase, salt, memory cost, time cost, parallelism, length. */
  datatype Primitives = Primitives(
    aead: Aead<string>,
    kdf: (string, Bytes, int, int, int, int) -> Bytes)
  {
    ghost predicate Correct() {
      aead.Correct() && forall p, s, m, t, l, h {:trigger kdf(p, s, m, t, l, h)} ::
        h == HASH_LEN ==> |kdf(p, s, m, t, l, h)| == HASH_LEN
    }

    function Derive(passphrase: string, salt: Bytes): Bytes {
      kdf(passphrase, salt, MEMORY_COST, TIME_COST, PARALLELISM, HASH_LEN)
    }
  }

  // ----- The abstract state machine

  datatype State = State(metadata: Option<Metadata>, dek: Option<Bytes>)

  const FRESH := State(None, None)

  /** One call, together with the random values it draws and whether writing the
      metadata file fails. */
  datatype Op =
    | Initialize(passphrase: string, salt: Bytes, newDek: Bytes, nonce: Bytes, diskFails: bool)
    | InitializeShamir(threshold: int, totalShares: int, newDek: Bytes, wrappingKey: Bytes, shareSetId: Bytes,
                       noise: Noise, nonce: Bytes, diskFails: bool)
    | Unlock(passphrase: string)
    | UnlockWithShares(shares: seq<string>)
    | GetDek
    | Restart

  /** The random values have the lengths the generators are asked for. */
  ghost predicate Drawn(op: Op) {
    match op
    case Initialize(_, salt, newDek, nonce, _) =>
      |salt| == SALT_LEN && |newDek| == DEK_LEN && |nonce| == NONCE_LEN
    case InitializeShamir(threshold, _, newDek, wrappingKey, shareSetId, noise, nonce, _) =>
      && |newDek| == DEK_LEN && |wrappingKey| == DEK_LEN && |nonce| == NONCE_LEN
      && |shareSetId| == SHARE_SET_ID_LEN && NoiseFor(noise, wrappingKey, threshold)
    case _ => true
  }

  datatype Response = Done | Shares(texts: seq<string>) | Dek(dek: Bytes) | Error(error: VaultError)

  /** The key that wraps the DEK created by op. */
  function WrappingKey(env: Primitives, op: Op): Bytes
    requires op.Initialize? || op.InitializeShamir?
  {
    if op.Initialize? then env.Derive(op.passphrase, op.salt) else op.wrappingKey
  }

  function CreatedMetadata(env: Primitives, op: Op): Metadata
    requires op.Initialize? || op.InitializeShamir?
  {
    var sealed := env.aead.seal(WrappingKey(env, op), op.nonce, METADATA_AAD, op.newDek);
    match op
    case Initialize(_, salt, _, nonce, _) =>
      PassphraseMetadata(salt, MEMORY_COST, TIME_COST, PARALLELISM, HASH_LEN, nonce, sealed)
    case InitializeShamir(threshold, totalShares, _, _, shareSetId, _, nonce, _) =>
      ShamirMetadata(threshold, totalShares, shareSetId, nonce, sealed)
  }

  /** Unwrapping with a candidate key: None unless it yields a 32-byte DEK. */
  function Unwrapped(env: Primitives, key: Bytes, m: Metadata): Option<Bytes> {
    if |key| != DEK_LEN then None
    else
      var r := env.aead.open(key, m.nonce, METADATA_AAD, m.sealed);
      if r.Some? && |r.value| == DEK_LEN then r else None
  }

  /** The DEK that unlocking with a passphrase obtains from the metadata. */
  function PassphraseDek(env: Primitives, m: Metadata, passphrase: string): Option<Bytes> {
    if m.PassphraseMetadata? then
      Unwrapped(env, env.kdf(passphrase, m.salt, m.memoryCost, m.timeCost, m.parallelism, m.hashLen), m)
    else None
  }

  /** The DEK that unlocking with shares obtains from the metadata. */
  ghost function ShamirDek(env: Primitives, m: Metadata, shares: seq<string>): Option<Bytes> {
    if m.ShamirMetadata? then
      match Combined(shares, m.threshold, m.totalShares, m.shareSetId)
      case None => None
      case Some(key) => Unwrapped(env, key, m)
    else None
  }

  ghost function Step(env: Primitives, s: State, op: Op): (State, Response)
    requires Drawn(op)
  {
    match op
    case Restart => (s.(dek := None), Done)
    case GetDek => (s, if s.dek.Some? then Dek(s.dek.value) else Error(VaultLocked))
    case Unlock(passphrase) =>
      var dek := if s.metadata.Some? then PassphraseDek(env, s.metadata.value, passphrase) else None;
      (s.(dek := dek), if dek.Some? then Done else Error(UnlockFailed))
    case UnlockWithShares(shares) =>
      var dek := if s.metadata.Some? then ShamirDek(env, s.metadata.value, shares) else None;
      (s.(dek := dek), if dek.Some? then Done else Error(UnlockFailed))
    case Initialize(passphrase, _, _, _, diskFails) =>
      if s.metadata.Some? then (s, Error(AlreadyInitialized))
      else if !StrongPassphrase(passphrase) then (s, Error(InvalidInput))
      else if diskFails then (s.(dek := None), Error(InvalidInput))
      else (State(Some(CreatedMetadata(env, op)), None), Done)
    case InitializeShamir(threshold, totalShares, _, wrappingKey, shareSetId, noise, _, diskFails) =>
      if s.metadata.Some? then (s, Error(AlreadyInitialized))
      else if !ValidConfig(threshold, totalShares) then (s, Error(InvalidInput))
      else if diskFails then (s.(dek := None), Error(InvalidInput))
      else
        (State(Some(CreatedMetadata(env, op)), None),
         Shares(ShareTexts(wrappingKey, noise, threshold, totalShares, shareSetId, totalShares)))
  }

  ghost predicate AllDrawn(ops: seq<Op>) {
    forall i :: 0 <= i < |ops| ==> Drawn(ops[i])
  }

  ghost function Run(env: Primitives, s: State, ops: seq<Op>): State
    requires AllDrawn(ops)
    decreases |ops|
  {
    if ops == [] then s else Run(env, Step(env, s, ops[0]).0, ops[1..])
  }

  // ----- The objects

  /** The metadata file: it can be created once and never changes. */
  class MetadataRepository {
    var metadata: Option<Metadata>

    constructor ()
      ensures metadata == None
    {
      metadata := None;
    }

    method Create(m: Metadata, diskFails: bool) returns (error: Option<VaultError>)
      modifies this
      ensures error ==
        if !ValidMetadata(m) then Some(InvalidInput)
        else if old(metadata).Some? then Some(AlreadyInitialized)
        else if diskFails then Some(InvalidInput)
        else None
      ensures metadata == if error == None then Some(m) else old(metadata)
    {
      if !ValidMetadata(m) {
        return Some(InvalidInput);
      }
      if metadata.Some? {
        return Some(AlreadyInitialized);
      }
      if diskFails {
        return Some(InvalidInput);
      }
      metadata := Some(m);
      error := None;
    }
  }

  class Vault {
    const env: Primitives
    const repository: MetadataRepository
    var dek: Option<Bytes>

    /** A new process: never unlocked. */
    constructor (env: Primitives, repository: MetadataRepository)
      ensures this.env == env && this.repository == repository && dek == None
      ensures Abstract() == Step(env, State(repository.metadata, dek), Restart).0
    {
      this.env := env;
      this.repository := repository;
      dek := None;
    }

    ghost function Abstract(): State
      reads this, repository
    {
      State(repository.metadata, dek)
    }

    method InitializeVault(passphrase: string, salt: Bytes, newDek: Bytes, nonce: Bytes, diskFails: bool)
      returns (r: Response)
      requires env.Correct() && Drawn(Initialize(passphrase, salt, newDek, nonce, diskFails))
      modifies this, repository
      ensures (Abstract(), r) == Step(env, old(Abstract()), Initialize(passphrase, salt, newDek, nonce, diskFails))
    {
      if repository.metadata.Some? {
        return Error(AlreadyInitialized);
      }
      if !StrongPassphrase(passphrase) {
        return Error(InvalidInput);
      }
      var wrappingKey := env.Derive(passphrase, salt);
      var sealed := env.aead.seal(wrappingKey, nonce, METADATA_AAD, newDek);
      var error := repository.Create(
        PassphraseMetadata(salt, MEMORY_COST, TIME_COST, PARALLELISM, HASH_LEN, nonce, sealed), diskFails);
      dek := None;
      r := if error.Some? then Error(error.value) else Done;
    }

    method InitializeVaultShamir(
      threshold: int, totalShares: int, newDek: Bytes, wrappingKey: Bytes, shareSetId: Bytes,
      noise: Noise, nonce: Bytes, diskFails: bool) returns (r: Response)
      requires env.Correct()
      requires Drawn(InitializeShamir(threshold, totalShares, newDek, wrappingKey, shareSetId, noise, nonce, diskFails))
      modifies this, repository
      ensures (Abstract(), r) == Step(env, old(Abstract()),
        InitializeShamir(threshold, totalShares, newDek, wrappingKey, shareSetId, noise, nonce, diskFails))
    {
      if repository.metadata.Some? {
        return Error(AlreadyInitialized);
      }
      if !ValidConfig(threshold, totalShares) {
        return Error(InvalidInput);
      }
      // Splitting cannot fail here: configuration and lengths are right.
      var shares := SplitSecret(wrappingKey, threshold, totalShares, shareSetId, noise);
      var sealed := env.aead.seal(wrappingKey, nonce, METADATA_AAD, newDek);
      var error := repository.Create(ShamirMetadata(threshold, totalShares, shareSetId, nonce, sealed), diskFails);
      dek := None;
      r := if error.Some? then Error(error.value) else Shares(shares.value);
    }

    method UnlockVault(passphrase: string) returns (r: Response)
      modifies this
      ensures (Abstract(), r) == Step(env, old(Abstract()), Unlock(passphrase))
    {
      dek := None;
      if repository.metadata.Some? {
        dek := PassphraseDek(env, repository.metadata.value, passphrase);
      }
      r := if dek.Some? then Done else Error(UnlockFailed);
    }

    method UnlockVaultWithShares(shares: seq<string>) returns (r: Response)
      modifies this
      ensures (Abstract(), r) == Step(env, old(Abstract()), UnlockWithShares(shares))
    {
      hide Combined, Unwrapped;
      dek := None;
      if repository.metadata.Some? && repository.metadata.value.ShamirMetadata? {
        var m := repository.metadata.value;
        var wrappingKey := CombineShares(shares, m.threshold, m.totalShares, m.shareSetId);
        if wrappingKey.Some? {
          dek := Unwrapped(env, wrappingKey.value, m);
        }
      }
      r := if dek.Some? then Done else Error(UnlockFailed);
    }

    method GetDek() returns (r: Response)
      ensures r == Step(env, Abstract(), Op.GetDek).1
    {
      if dek == None {
        return Error(VaultLocked);
      }
      r := Dek(dek.value);
    }
  }

  // ----- What holds in every run

  /** op created the metadata m. */
  ghost predicate Creates(env: Primitives, op: Op, m: Metadata) {
    && (op.Initialize? || op.InitializeShamir?)
    && Drawn(op)
    && m == CreatedMetadata(env, op)
  }

  /** The invariant: metadata stems from one creating call, and an unlocked
      vault holds what some key opened it to. */
  ghost predicate Sound(env: Primitives, s: State, creator: Op) {
    && (s.metadata.Some? ==> Creates(env, creator, s.metadata.value))
    && (s.dek.Some? ==> s.metadata.Some? && exists key :: Unwrapped(env, key, s.metadata.value) == s.dek)
  }

  lemma StepKeepsMetadata(env: Primitives, s: State, op: Op)
    requires s.metadata.Some? && Drawn(op)
    ensures Step(env, s, op).0.metadata == s.metadata
  {
  }

  /** Metadata, once created, is never altered or removed. */
  lemma {:induction false} MetadataIsPermanent(env: Primitives, s: State, ops: seq<Op>)
    requires s.metadata.Some? && AllDrawn(ops)
    ensures Run(env, s, ops).metadata == s.metadata
    decreases |ops|
  {
    if ops != [] {
      StepKeepsMetadata(env, s, ops[0]);
      MetadataIsPermanent(env, Step(env, s, ops[0]).0, ops[1..]);
    }
  }

  lemma StepKeepsSound(env: Primitives, s: State, op: Op, creator: Op)
    requires Drawn(op) && Sound(env, s, creator)
    ensures Sound(env, Step(env, s, op).0, if s.metadata == None then op else creator)
  {
    hide Combined, Unwrapped, CreatedMetadata, ShareTexts, StrongPassphrase;
    if op.Unlock? && s.metadata.Some? && s.metadata.value.PassphraseMetadata? {
      var m := s.metadata.value;
      var key := env.kdf(op.passphrase, m.salt, m.memoryCost, m.timeCost, m.parallelism, m.hashLen);
      assert Unwrapped(env, key, m) == Step(env, s, op).0.dek;
    }
  }

  /** The call that created the metadata of a run, if any (op is a placeholder). */
  ghost function Creator(env: Primitives, s: State, ops: seq<Op>, op: Op): Op
    requires AllDrawn(ops)
    decreases |ops|
  {
    if ops == [] then op
    else Creator(env, Step(env, s, ops[0]).0, ops[1..], if s.metadata == None then ops[0] else op)
  }

  lemma {:induction false} RunKeepsSound(env: Primitives, s: State, ops: seq<Op>, creator: Op)
    requires AllDrawn(ops) && Sound(env, s, creator)
    ensures Sound(env, Run(env, s, ops), Creator(env, s, ops, creator))
    ensures Creator(env, s, ops, creator) == creator || Creator(env, s, ops, creator) in ops
    decreases |ops|
  {
    hide Sound, Step, Drawn;
    if ops != [] {
      StepKeepsSound(env, s, ops[0], creator);
      RunKeepsSound(env, Step(env, s, ops[0]).0, ops[1..], if s.metadata == None then ops[0] else creator);
    }
  }

  /** In every run from an empty directory an unlocked vault holds exactly the
      DEK that was wrapped when its metadata was created, provided the cipher
      opens that one envelope under no other key. */
  lemma UnlockedHoldsWrappedDek(env: Primitives, ops: seq<Op>)
    requires env.aead.Correct() && AllDrawn(ops)
    requires Run(env, FRESH, ops).dek.Some?
    ensures
      var creator := Creator(env, FRESH, ops, Restart);
      && creator in ops && (creator.Initialize? || creator.InitializeShamir?)
      && Run(env, FRESH, ops).metadata == Some(CreatedMetadata(env, creator))
      && (env.aead.Exclusive(WrappingKey(env, creator), creator.nonce, METADATA_AAD,
            CreatedMetadata(env, creator).sealed)
          ==> Run(env, FRESH, ops).dek.value == creator.newDek)
  {
    hide Run, Creator, Step;
    var s, creator := Run(env, FRESH, ops), Creator(env, FRESH, ops, Restart);
    RunKeepsSound(env, FRESH, ops, Restart);
    var key :| Unwrapped(env, key, s.metadata.value) == s.dek;
    assert Creates(env, creator, s.metadata.value);
  }

  /** Whether the observed calls leave the vault unlocked: the last unlock or
      restart was an unlock that succeeded. */
  ghost function LeftUnlocked(env: Primitives, s: State, ops: seq<Op>, before: bool): bool
    requires AllDrawn(ops)
    decreases |ops|
  {
    if ops == [] then before
    else
      var (after, r) := Step(env, s, ops[0]);
      LeftUnlocked(env, after, ops[1..],
        if ops[0].Unlock? || ops[0].UnlockWithShares? then r == Done
        else if ops[0].Restart? then false
        else before)
  }

  lemma {:induction false} RunLeavesUnlocked(env: Primitives, s: State, ops: seq<Op>)
    requires AllDrawn(ops) && (s.dek.Some? ==> s.metadata.Some?)
    ensures Run(env, s, ops).dek.Some? <==> LeftUnlocked(env, s, ops, s.dek.Some?)
    decreases |ops|
  {
    hide PassphraseDek, ShamirDek, CreatedMetadata, ShareTexts, StrongPassphrase;
    if ops != [] {
      RunLeavesUnlocked(env, Step(env, s, ops[0]).0, ops[1..]);
    }
  }

  /** What asking for the DEK answers after any run: the DEK wrapped when the
      metadata was created (under the same proviso) if the last unlock or restart
      was a successful unlock, and VaultLocked in every other case. */
  lemma GetDekAnswersExactly(env: Primitives, ops: seq<Op>)
    requires env.aead.Correct() && AllDrawn(ops)
    ensures
      var creator := Creator(env, FRESH, ops, Restart);
      var r := Step(env, Run(env, FRESH, ops), GetDek).1;
      if LeftUnlocked(env, FRESH, ops, false)
      then
        && r.Dek? && creator in ops && (creator.Initialize? || creator.InitializeShamir?)
        && (env.aead.Exclusive(WrappingKey(env, creator), creator.nonce, METADATA_AAD,
              CreatedMetadata(env, creator).sealed)
            ==> r.dek == creator.newDek)
      else r == Error(VaultLocked)
  {
    hide Run, Creator, LeftUnlocked, CreatedMetadata, WrappingKey;
    RunLeavesUnlocked(env, FRESH, ops);
    if LeftUnlocked(env, FRESH, ops, false) {
      UnlockedHoldsWrappedDek(env, ops);
    }
  }

  /** A failed unlock, of either kind, leaves the vault locked. */
  lemma FailedUnlockLocks(env: Primitives, s: State, op: Op)
    requires Drawn(op) && (op.Unlock? || op.UnlockWithShares?)
    ensures Step(env, s, op).1.Error? <==> Step(env, s, op).0.dek == None
    ensures Step(env, s, op).0.metadata == s.metadata
  {
  }

  lemma {:induction false} RunSplits(env: Primitives, s: State, before: seq<Op>, after: seq<Op>)
    requires AllDrawn(before) && AllDrawn(after)
    ensures AllDrawn(before + after)
    ensures Run(env, s, before + after) == Run(env, Run(env, s, before), after)
    decreases |before|
  {
    if before == [] {
      assert before + after == after;
    } else {
      assert (before + after)[0] == before[0] && (before + after)[1..] == before[1..] + after;
      RunSplits(env, Step(env, s, before[0]).0, before[1..], after);
    }
  }

  /** The texts returned by a successful Shamir initialization unlock the vault
      ever after: in every later state, through restarts, failed unlocks and
      repeated initialization attempts, any threshold many of them give the DEK. */
  lemma ReturnedSharesUnlock(env: Primitives, s: State, init: Op, later: seq<Op>, picked: seq<string>)
    requires env.aead.Correct()
    requires init.InitializeShamir? && Drawn(init) && AllDrawn(later)
    requires Step(env, s, init).1.Shares?
    requires |picked| >= init.threshold && DistinctTexts(picked)
    requires forall i :: 0 <= i < |picked| ==> picked[i] in Step(env, s, init).1.texts
    ensures Step(env, Run(env, s, [init] + later), UnlockWithShares(picked))
         == (State(Some(CreatedMetadata(env, init)), Some(init.newDek)), Done)
  {
    hide ShareTexts, Combined;
    var created := Step(env, s, init).0;
    RunSplits(env, s, [init], later);
    assert Run(env, s, [init]) == created;
    MetadataIsPermanent(env, created, later);
    SharesReconstruct(init.wrappingKey, init.noise, init.threshold, init.totalShares, init.shareSetId, picked);
  }

  /** The passphrase given at initialization unlocks the vault ever after. */
  lemma PassphraseUnlocks(env: Primitives, s: State, init: Op, later: seq<Op>)
    requires env.Correct()
    requires init.Initialize? && Drawn(init) && AllDrawn(later) && Step(env, s, init).1 == Done
    ensures Step(env, Run(env, s, [init] + later), Unlock(init.passphrase))
         == (State(Some(CreatedMetadata(env, init)), Some(init.newDek)), Done)
  {
    var created := Step(env, s, init).0;
    RunSplits(env, s, [init], later);
    assert Run(env, s, [init]) == created;
    MetadataIsPermanent(env, created, later);
  }

  /** The two unlock modes cannot be crossed, whatever the credential. */
  lemma ModesCannotBeCrossed(env: Primitives, s: State, passphrase: string, shares: seq<string>)
    requires s.metadata.Some?
    ensures s.metadata.value.ShamirMetadata? ==>
      Step(env, s, Unlock(passphrase)) == (s.(dek := None), Error(UnlockFailed))
    ensures s.metadata.value.PassphraseMetadata? ==>
      Step(env, s, UnlockWithShares(shares)) == (s.(dek := None), Error(UnlockFailed))
  {
  }
}
