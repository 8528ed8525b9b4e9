/** What the calls of the vault answer after any run, from the calls made before
    and their answers, with all limits and parameters in numbers. */
module VaultOutcomes {
  import opened Wrappers
  import opened AuthenticatedEncryption
  import opened Passphrases
  import opened Shamir
  import opened VaultCore

  // ----- Observing a run

  lemma PrefixDrawn(ops: seq<Op>, i: nat)
    requires AllDrawn(ops) && i <= |ops|
    ensures AllDrawn(ops[..i])
  {
  }

  /** What the i-th call of a run from an empty directory answers. */
  ghost function AnswerAt(env: Primitives, ops: seq<Op>, i: nat): Response
    requires AllDrawn(ops) && i < |ops|
  {
    PrefixDrawn(ops, i);
    Step(env, Run(env, FRESH, ops[..i]), ops[i]).1
  }

  /** The i-th call initialized the vault. */
  ghost predicate Initializes(env: Primitives, ops: seq<Op>, i: nat)
    requires AllDrawn(ops) && i < |ops|
  {
    || (ops[i].Initialize? && AnswerAt(env, ops, i) == Done)
    || (ops[i].InitializeShamir? && AnswerAt(env, ops, i).Shares?)
  }

  ghost predicate NeverInitialized(env: Primitives, ops: seq<Op>)
    requires AllDrawn(ops)
  {
    forall i :: 0 <= i < |ops| ==> !Initializes(env, ops, i)
  }

  /** The metadata an initialization writes. */
  ghost function Written(env: Primitives, op: Op): Metadata
    requires op.Initialize? || op.InitializeShamir?
  {
    var aad := "mini-vault:vault-metadata:v1";
    if op.Initialize? then
      PassphraseMetadata(op.salt, 65536, 3, 1, 32, op.nonce,
        env.aead.seal(env.kdf(op.passphrase, op.salt, 65536, 3, 1, 32), op.nonce, aad, op.newDek))
    else
      ShamirMetadata(op.threshold, op.totalShares, op.shareSetId, op.nonce,
        env.aead.seal(op.wrappingKey, op.nonce, aad, op.newDek))
  }

  /** Which initializations an uninitialized vault accepts. */
  ghost predicate Acceptable(op: Op) {
    match op
    case Initialize(passphrase, _, _, _, diskFails) => MeetsPolicy(passphrase) && !diskFails
    case InitializeShamir(threshold, totalShares, _, _, _, _, _, diskFails) =>
      2 <= threshold <= totalShares <= 255 && !diskFails
    case _ => false
  }

  lemma StepWrites(env: Primitives, s: State, op: Op)
    requires Drawn(op)
    ensures
      var (after, r) := Step(env, s, op);
      if s.metadata == None && Acceptable(op)
      then
        && after == State(Some(Written(env, op)), None)
        && (if op.Initialize? then r == Done else r.Shares?)
      else
        && after.metadata == s.metadata
        && (op.Initialize? || op.InitializeShamir? ==>
              r == Error(if s.metadata.Some? then AlreadyInitialized else InvalidInput))
  {
    hide StrongPassphrase, MeetsPolicy, ShareTexts, Combined;
    if op.Initialize? {
      StrongMeetsPolicy(op.passphrase);
    }
  }

  lemma RunLast(env: Primitives, ops: seq<Op>)
    requires AllDrawn(ops) && ops != []
    ensures
      var n := |ops| - 1;
      && AllDrawn(ops[..n])
      && Run(env, FRESH, ops) == Step(env, Run(env, FRESH, ops[..n]), ops[n]).0
  {
    hide Step;
    var n := |ops| - 1;
    PrefixDrawn(ops, n);
    RunSplits(env, FRESH, ops[..n], [ops[n]]);
    assert ops == ops[..n] + [ops[n]];
    assert Run(env, Run(env, FRESH, ops[..n]), [ops[n]]) == Step(env, Run(env, FRESH, ops[..n]), ops[n]).0;
  }

  lemma AnswerOfPrefix(env: Primitives, ops: seq<Op>, n: nat, i: nat)
    requires AllDrawn(ops) && i < n <= |ops|
    ensures AllDrawn(ops[..n]) && (Initializes(env, ops[..n], i) <==> Initializes(env, ops, i))
  {
    hide Step, Run;
    PrefixDrawn(ops, n);
    assert ops[..n][..i] == ops[..i];
  }

  /** The metadata is what the initializing call wrote; there is none before. */
  lemma {:induction false} MetadataIsWritten(env: Primitives, ops: seq<Op>)
    requires AllDrawn(ops)
    ensures Run(env, FRESH, ops).metadata == None <==> NeverInitialized(env, ops)
    ensures forall i :: 0 <= i < |ops| && Initializes(env, ops, i) ==>
      Run(env, FRESH, ops).metadata == Some(Written(env, ops[i]))
    decreases |ops|
  {
    hide Step, Initializes, Run, Written;
    if ops == [] {
      StartsEmpty(env, ops);
    } else {
      var n := |ops| - 1;
      RunLast(env, ops);
      MetadataIsWritten(env, ops[..n]);
      forall i | 0 <= i < n ensures Initializes(env, ops[..n], i) <==> Initializes(env, ops, i) {
        AnswerOfPrefix(env, ops, n, i);
      }
      StepWrites(env, Run(env, FRESH, ops[..n]), ops[n]);
      LastInitializes(env, ops);
    }
  }

  lemma InitializerShape(env: Primitives, ops: seq<Op>, i: nat)
    requires AllDrawn(ops) && i < |ops| && Initializes(env, ops, i)
    ensures Drawn(ops[i]) && (ops[i].Initialize? || ops[i].InitializeShamir?)
  {
  }

  lemma StartsEmpty(env: Primitives, ops: seq<Op>)
    requires ops == []
    ensures Run(env, FRESH, ops).metadata == None
  {
  }

  lemma LastInitializes(env: Primitives, ops: seq<Op>)
    requires AllDrawn(ops) && ops != []
    ensures
      var n := |ops| - 1;
      && AllDrawn(ops[..n])
      && (Initializes(env, ops, n) <==> Run(env, FRESH, ops[..n]).metadata == None && Acceptable(ops[n]))
  {
    hide Step, Run, MeetsPolicy;
    var n := |ops| - 1;
    PrefixDrawn(ops, n);
    StepWrites(env, Run(env, FRESH, ops[..n]), ops[n]);
  }

  /** What the metadata file admits. */
  lemma MetadataExactly(m: Metadata)
    ensures ValidMetadata(m) <==>
      && |m.nonce| == 12 && |m.sealed| >= 17
      && if m.PassphraseMetadata? then
           && |m.salt| == 16 && 8192 <= m.memoryCost <= 1048576 && 1 <= m.timeCost <= 10
           && 1 <= m.parallelism <= 16 && 16 <= m.hashLen <= 64
         else 2 <= m.threshold <= m.totalShares <= 255 && |m.shareSetId| == 16
  {
  }

  // ----- Initializing

  /** After any run, initialization succeeds exactly when none has before, the
      passphrase meets the policy or 2 <= K <= N <= 255, and the file can be
      written. It leaves the vault locked and the file as written; a refused
      one leaves the file as it was and says AlreadyInitialized exactly when one
      succeeded before. */
  lemma InitializesExactly(env: Primitives, ops: seq<Op>, op: Op)
    requires AllDrawn(ops) && Drawn(op) && (op.Initialize? || op.InitializeShamir?)
    ensures
      var s := Run(env, FRESH, ops);
      var (after, r) := Step(env, s, op);
      if NeverInitialized(env, ops) && Acceptable(op)
      then
        && after == State(Some(Written(env, op)), None)
        && (if op.Initialize? then r == Done
            else r == Shares(ShareTexts(
              op.wrappingKey, op.noise, op.threshold, op.totalShares, op.shareSetId, op.totalShares)))
      else
        && after.metadata == s.metadata
        && r == Error(if NeverInitialized(env, ops) then InvalidInput else AlreadyInitialized)
  {
    hide Run, NeverInitialized, StrongPassphrase, MeetsPolicy, ShareTexts;
    MetadataIsWritten(env, ops);
    StepWrites(env, Run(env, FRESH, ops), op);
  }

  // ----- Unlocking

  /** The envelope the initializing call made opens under no key but its own. */
  ghost predicate OneKeyOpens(env: Primitives, init: Op)
    requires init.Initialize? || init.InitializeShamir?
  {
    var key := if init.Initialize? then env.kdf(init.passphrase, init.salt, 65536, 3, 1, 32) else init.wrappingKey;
    env.aead.Exclusive(key, init.nonce, "mini-vault:vault-metadata:v1", Written(env, init).sealed)
  }

  /** After any run in which the i-th call initialized the vault, a passphrase
      unlocks it exactly when that call gave one and both derive the same key,
      and share texts exactly when that call drew a wrapping key and they combine
      to it. Then the DEK is the one drawn there; otherwise the vault is locked. */
  lemma UnlocksExactly(env: Primitives, ops: seq<Op>, i: nat, passphrase: string, shares: seq<string>)
    requires env.Correct() && AllDrawn(ops) && i < |ops| && Initializes(env, ops, i) && OneKeyOpens(env, ops[i])
    ensures
      var s, init := Run(env, FRESH, ops), ops[i];
      && Step(env, s, Unlock(passphrase)) == (
           if init.Initialize?
              && env.kdf(passphrase, init.salt, 65536, 3, 1, 32) == env.kdf(init.passphrase, init.salt, 65536, 3, 1, 32)
           then (s.(dek := Some(init.newDek)), Done)
           else (s.(dek := None), Error(UnlockFailed)))
      && Step(env, s, UnlockWithShares(shares)) == (
           if init.InitializeShamir?
              && Combined(shares, init.threshold, init.totalShares, init.shareSetId) == Some(init.wrappingKey)
           then (s.(dek := Some(init.newDek)), Done)
           else (s.(dek := None), Error(UnlockFailed)))
  {
    hide Run, Initializes, Combined, ShareTexts, Unwrapped, OneKeyOpens;
    MetadataIsWritten(env, ops);
    var s, init := Run(env, FRESH, ops), ops[i];
    InitializerShape(env, ops, i);
    assert s.metadata == Some(Written(env, init));
    UnwrapsExactly(env, init, if init.Initialize? then env.kdf(passphrase, init.salt, 65536, 3, 1, 32) else []);
    var combined :=
      if init.InitializeShamir? then Combined(shares, init.threshold, init.totalShares, init.shareSetId) else None;
    if combined.Some? {
      UnwrapsExactly(env, init, combined.value);
    }
  }

  lemma UnwrapsExactly(env: Primitives, init: Op, key: Bytes)
    requires env.Correct() && Drawn(init) && (init.Initialize? || init.InitializeShamir?) && OneKeyOpens(env, init)
    ensures
      var own := if init.Initialize? then env.kdf(init.passphrase, init.salt, 65536, 3, 1, 32) else init.wrappingKey;
      Unwrapped(env, key, Written(env, init)) == if key == own then Some(init.newDek) else None
  {
  }

  /** A vault never initialized cannot be unlocked. */
  lemma NothingToUnlock(env: Primitives, ops: seq<Op>, passphrase: string, shares: seq<string>)
    requires AllDrawn(ops) && NeverInitialized(env, ops)
    ensures
      var s := Run(env, FRESH, ops);
      && Step(env, s, Unlock(passphrase)) == (s.(dek := None), Error(UnlockFailed))
      && Step(env, s, UnlockWithShares(shares)) == (s.(dek := None), Error(UnlockFailed))
  {
    hide Run, NeverInitialized;
    MetadataIsWritten(env, ops);
  }
}
