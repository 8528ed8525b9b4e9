/** Through any number of restarts and unlocks all calls work with one and the same
    DEK, so ciphertexts and KV histories outlive the process that made them. */
module SystemTheorems {
  import opened Wrappers
  import opened Base64
  import opened AuthenticatedEncryption
  import opened MiniVault
  import V = VaultCore
  import P = Policies
  import T = Transit
  import TT = TransitTheorems
  import K = Kv
  import KT = KvTheorems
  import TransitStore
  import TransitText

  // ----- One DEK

  /** The DEK wrapped by the call that created the metadata, if there was one. */
  function WrappedDek(creator: V.Op): Bytes {
    if creator.Initialize? || creator.InitializeShamir? then creator.newDek else []
  }

  /** The created envelope opens under no other key. */
  ghost predicate CreatorExclusive(env: V.Primitives, creator: V.Op) {
    creator.Initialize? || creator.InitializeShamir? ==>
      env.aead.Exclusive(V.WrappingKey(env, creator), creator.nonce, V.METADATA_AAD,
        V.CreatedMetadata(env, creator).sealed)
  }

  predicate Holds(s: State, dek: Bytes) {
    s.vault.dek == None || s.vault.dek == Some(dek)
  }

  /** At every moment of the run the vault is locked or holds this DEK. */
  ghost predicate HoldsOnly(w: World, s: State, events: seq<Event>, dek: Bytes)
    requires AllDrawn(events)
    decreases |events|
  {
    Holds(s, dek) && (events == [] || HoldsOnly(w, Step(w, s, events[0]), events[1..], dek))
  }

  lemma {:induction false} CreatorIsFixed(env: V.Primitives, s: V.State, ops: seq<V.Op>, creator: V.Op)
    requires V.AllDrawn(ops) && s.metadata.Some?
    ensures V.Creator(env, s, ops, creator) == creator
    decreases |ops|
  {
    hide V.Step;
    if ops != [] {
      V.StepKeepsMetadata(env, s, ops[0]);
      CreatorIsFixed(env, V.Step(env, s, ops[0]).0, ops[1..], creator);
    }
  }

  lemma HeldDekIsWrapped(env: V.Primitives, s: V.State, creator: V.Op)
    requires env.aead.Correct() && V.Sound(env, s, creator) && CreatorExclusive(env, creator) && s.dek.Some?
    ensures s.dek.value == WrappedDek(creator)
  {
    var key :| V.Unwrapped(env, key, s.metadata.value) == s.dek;
  }

  lemma LockedWithoutMetadata(env: V.Primitives, s: V.State, creator: V.Op)
    requires V.Sound(env, s, creator)
    ensures s.dek.Some? ==> s.metadata.Some?
  {
  }

  lemma FreshIsSound(env: V.Primitives)
    ensures V.Sound(env, V.FRESH, V.Restart)
  {
  }

  lemma {:induction false} VaultOpsDrawn(events: seq<Event>)
    requires AllDrawn(events)
    ensures V.AllDrawn(VaultOps(events))
    decreases |events|
  {
    hide V.Drawn, TT.Drawn;
    if events != [] {
      assert Drawn(events[0]);
      VaultOpsDrawn(events[1..]);
    }
  }

  /** What one call means for the creation of the metadata. */
  lemma CreatorOfStep(w: World, s: State, events: seq<Event>, creator: V.Op)
    requires events != [] && AllDrawn(events) && V.AllDrawn(VaultOps(events)) && V.AllDrawn(VaultOps(events[1..]))
    requires V.Sound(w.env, s.vault, creator)
    ensures
      var e := events[0];
      var next := if e.op.VaultCall? && s.vault.metadata == None then e.op.vaultOp else creator;
      && V.Sound(w.env, Step(w, s, e).vault, next)
      && V.Creator(w.env, s.vault, VaultOps(events), creator)
         == V.Creator(w.env, Step(w, s, e).vault, VaultOps(events[1..]), next)
  {
    hide V.Step, V.Drawn, TT.Drawn, V.Sound, Step;
    assert Drawn(events[0]);
    VaultStepProjects(w, s, events[0]);
    var rest := VaultOps(events[1..]);
    if events[0].op.VaultCall? {
      assert ([events[0].op.vaultOp] + rest)[1..] == rest;
      V.StepKeepsSound(w.env, s.vault, events[0].op.vaultOp, creator);
    } else {
      assert [] + rest == rest;
    }
  }

  /** Whenever the vault is unlocked, it holds what was wrapped when the metadata
      was created. */
  lemma {:induction false} OneDek(w: World, s: State, events: seq<Event>, creator: V.Op)
    requires w.env.aead.Correct() && AllDrawn(events) && V.AllDrawn(VaultOps(events))
    requires V.Sound(w.env, s.vault, creator)
    requires CreatorExclusive(w.env, V.Creator(w.env, s.vault, VaultOps(events), creator))
    ensures HoldsOnly(w, s, events, WrappedDek(V.Creator(w.env, s.vault, VaultOps(events), creator)))
    decreases |events|
  {
    hide V.Sound, CreatorExclusive, WrappedDek, Step, Drawn, VaultOps, V.Creator;
    if s.vault.dek.Some? {
      LockedWithoutMetadata(w.env, s.vault, creator);
      CreatorIsFixed(w.env, s.vault, VaultOps(events), creator);
      HeldDekIsWrapped(w.env, s.vault, creator);
    }
    if events != [] {
      VaultOpsDrawn(events[1..]);
      CreatorOfStep(w, s, events, creator);
      OneDek(w, Step(w, s, events[0]), events[1..],
        if events[0].op.VaultCall? && s.vault.metadata == None then events[0].op.vaultOp else creator);
    }
  }

  lemma {:induction false} HoldsOnlySplits(w: World, s: State, before: seq<Event>, later: seq<Event>, dek: Bytes)
    requires AllDrawn(before) && AllDrawn(later) && AllDrawn(before + later)
    requires HoldsOnly(w, s, before + later, dek)
    ensures HoldsOnly(w, s, before, dek) && HoldsOnly(w, Run(w, s, before), later, dek)
    decreases |before|
  {
    hide Step, Holds, Drawn;
    if before == [] {
      assert before + later == later;
    } else {
      assert (before + later)[0] == before[0] && (before + later)[1..] == before[1..] + later;
      HoldsOnlySplits(w, Step(w, s, before[0]), before[1..], later, dek);
    }
  }

  /** The call that created the metadata in a run from an empty directory. */
  ghost function CreatorOf(env: V.Primitives, events: seq<Event>): V.Op
    requires AllDrawn(events)
  {
    VaultOpsDrawn(events);
    V.Creator(env, V.FRESH, VaultOps(events), V.Restart)
  }

  /** From an empty directory every call of a run sees no DEK or the wrapped one. */
  lemma RunHoldsWrapped(w: World, events: seq<Event>)
    requires w.env.aead.Correct() && AllDrawn(events) && CreatorExclusive(w.env, CreatorOf(w.env, events))
    ensures HoldsOnly(w, START, events, WrappedDek(CreatorOf(w.env, events)))
  {
    hide V.Sound, CreatorExclusive, WrappedDek, HoldsOnly, VaultOps, V.Creator;
    VaultOpsDrawn(events);
    FreshIsSound(w.env);
    OneDek(w, START, events, V.Restart);
  }

  lemma {:induction false} EndHolds(w: World, s: State, events: seq<Event>, dek: Bytes)
    requires AllDrawn(events) && HoldsOnly(w, s, events, dek)
    ensures Holds(Run(w, s, events), dek)
    decreases |events|
  {
    hide Step, Holds, Drawn;
    if events != [] {
      EndHolds(w, Step(w, s, events[0]), events[1..], dek);
    }
  }

  // ----- Ciphertexts across restarts

  lemma PartIsProper(w: World, s: State, e: Event, dek: Bytes)
    requires Drawn(e) && Holds(s, dek) && Shared(s)
    ensures TT.Proper(dek, TransitPart(w, s, e))
  {
    hide TT.Step, KT.Step, Effect, V.Drawn;
    if e.op.KvCall? {
      if s.vault.dek.Some? {
        KvEffect(w.kv, s.vault.dek.value, s.kv, KvEvent(e));
      }
      EffectStep(s.kv.policies, AfterKv(w, s, e).policies, P.KvSecret);
    }
  }

  lemma ProperJoin(dek: Bytes, a: seq<TT.Event>, b: seq<TT.Event>)
    requires TT.Proper(dek, a) && TT.Proper(dek, b)
    ensures TT.Proper(dek, a + b)
  {
    hide TT.Drawn;
  }

  lemma {:induction false} EventsAreProper(w: World, s: State, events: seq<Event>, dek: Bytes)
    requires AllDrawn(events) && Shared(s) && HoldsOnly(w, s, events, dek)
    ensures TT.Proper(dek, TransitEvents(w, s, events))
    decreases |events|
  {
    hide Step, Holds, TT.Proper, TransitPart, Shared, Drawn;
    if events == [] {
      NothingIsProper(dek);
    } else {
      PartIsProper(w, s, events[0], dek);
      StepShares(w, s, events[0]);
      EventsAreProper(w, Step(w, s, events[0]), events[1..], dek);
      ProperJoin(dek, TransitPart(w, s, events[0]), TransitEvents(w, Step(w, s, events[0]), events[1..]));
    }
  }

  lemma NothingIsProper(dek: Bytes)
    ensures TT.Proper(dek, [])
  {
  }

  /** Over every run of the whole store from an empty directory, a ciphertext issued
      while the vault was unlocked decrypts whenever the vault is unlocked again,
      by whatever passphrase or shares and after any number of restarts, failed
      unlocks, KV calls and Transit calls that do not revoke its key. */
  lemma CiphertextSurvivesRestarts(
    w: World, before: seq<Event>, identity: Option<string>, reference: string, plaintext: string,
    keyOwner: Option<string>, nonce: Bytes, later: seq<Event>, reader: string, readerOwner: Option<string>)
    requires w.Correct() && AllDrawn(before) && AllDrawn(later) && |nonce| == NONCE_LEN
    requires CreatorExclusive(w.env, CreatorOf(w.env, before + later))
    requires
      var s := Run(w, START, before);
      var end := Run(w, s, later);
      && T.EncryptStep(w.transit, s.transit, T.Call(s.vault.dek, identity), reference, plaintext, keyOwner, nonce).1.Ok?
      && end.vault.dek.Some?
      && var r := TransitText.ResolveKeyReference(identity.value, reference, keyOwner).value;
      && (forall i :: 0 <= i < |TransitEvents(w, s, later)| ==>
            !TT.Revokes(TransitEvents(w, s, later)[i], r.ownerEmail, r.keyName))
      && TT.Authorized(end.transit, reader, r.ownerEmail, r.keyName, "DECRYPT")
      && TransitText.NamesOwner(r, reader, readerOwner)
    ensures
      var s := Run(w, START, before);
      var end := Run(w, s, later);
      var call := T.Call(s.vault.dek, identity);
      var reply := T.EncryptStep(w.transit, s.transit, call, reference, plaintext, keyOwner, nonce).1.value;
      && reply.Output? && Decode(plaintext).Some?
      && T.DecryptStep(w.transit, end.transit, T.Call(end.vault.dek, Some(reader)), reply.text, readerOwner).1
         == Ok(T.Output(Encode(Decode(plaintext).value)))
  {
    hide Run, TransitEvents, TT.Run, CreatorOf, WrappedDek, T.EncryptStep, T.DecryptStep, TT.Revokes, TT.Authorized,
      TransitText.NamesOwner, TransitText.ResolveKeyReference, Encode, Decode, CreatorExclusive, Drawn, TT.Proper,
      HoldsOnly, VaultOps, V.Run;
    var s := Run(w, START, before);
    var dek := WrappedDek(CreatorOf(w.env, before + later));
    RunProjects(w, START, before);
    RunProjects(w, s, later);
    RunHoldsWrapped(w, before + later);
    HoldsOnlySplits(w, START, before, later, dek);
    EndHolds(w, START, before, dek);
    EndHolds(w, s, later, dek);
    EventsAreProper(w, START, before, dek);
    EventsAreProper(w, s, later, dek);
    EncryptNeedsDek(w.transit, s.transit, T.Call(s.vault.dek, identity), reference, plaintext, keyOwner, nonce);
    TT.EveryIssuedCiphertextDecrypts(
      w.transit, dek, TransitEvents(w, START, before), T.Call(s.vault.dek, identity), reference, plaintext, keyOwner,
      nonce, TransitEvents(w, s, later), T.Call(Some(dek), Some(reader)), readerOwner);
  }

  lemma EncryptNeedsDek(
    aead: Aead<T.Aad>, s: T.State, call: T.Call, reference: string, plaintext: string, keyOwner: Option<string>,
    nonce: Bytes)
    requires T.EncryptStep(aead, s, call, reference, plaintext, keyOwner, nonce).1.Ok?
    ensures call.dek.Some?
  {
    hide TransitText.ResolveKeyReference, T.LoadKey, Decode;
  }

  // ----- KV histories across restarts

  lemma KvRunOne(aead: Aead<()>, key: Bytes, events: seq<KT.Event>, e: KT.Event)
    ensures KT.Run(aead, key, events + [e]) == KT.Step(aead, key, KT.Run(aead, key, events), e).0
  {
    hide KT.Step;
    assert (events + [e])[..|events|] == events;
  }

  /** One call does to the KV engine what its events do under the one DEK. */
  lemma KvStepProjects(w: World, s: State, e: Event, dek: Bytes, past: seq<KT.Event>)
    requires Drawn(e) && Shared(s) && Holds(s, dek) && s.kv == KT.Run(w.kv, dek, past)
    ensures Step(w, s, e).kv == KT.Run(w.kv, dek, past + KvPart(w, s, e))
  {
    hide V.Step, KT.Run, Logged, StepDenials, Effect, V.Drawn;
    if KvPart(w, s, e) == [] {
      assert past + [] == past;
    } else {
      KvRunOne(w.kv, dek, past, KvPart(w, s, e)[0]);
    }
    if e.op.TransitCall? {
      hide TT.Step;
      TransitEffect(w.transit, s.transit, TransitEvent(s, e));
      EffectStep(s.transit.policies, AfterTransit(w, s, e).policies, P.TransitKey);
    } else if e.op.KvCall? {
      hide KT.Step;
    }
  }

  lemma {:induction false} KvRunProjects(w: World, s: State, events: seq<Event>, dek: Bytes, past: seq<KT.Event>)
    requires AllDrawn(events) && Shared(s) && HoldsOnly(w, s, events, dek) && s.kv == KT.Run(w.kv, dek, past)
    ensures Run(w, s, events).kv == KT.Run(w.kv, dek, past + KvEvents(w, s, events))
    decreases |events|
  {
    hide Step, Holds, KvPart, Shared, Drawn, KT.Run;
    if events == [] {
      assert past + [] == past;
    } else {
      var part := KvPart(w, s, events[0]);
      KvStepProjects(w, s, events[0], dek, past);
      StepShares(w, s, events[0]);
      KvRunProjects(w, Step(w, s, events[0]), events[1..], dek, past + part);
      var rest := KvEvents(w, Step(w, s, events[0]), events[1..]);
      assert past + (part + rest) == past + part + rest;
    }
  }

  lemma KvRunNothing(aead: Aead<()>, key: Bytes)
    ensures KT.Run(aead, key, []) == K.EMPTY
  {
  }

  /** Over every run of the whole store from an empty directory, whenever the vault
      is unlocked an authorized read gives the writes since the path's last
      deletion, whatever restarts, unlocks and Transit calls lie between. */
  lemma KvReadSurvivesRestarts(
    w: World, events: seq<Event>, identity: Option<string>, path: string, version: Option<int>)
    requires w.Correct() && AllDrawn(events) && CreatorExclusive(w.env, CreatorOf(w.env, events))
    requires Run(w, START, events).vault.dek.Some?
    requires K.Authorized(Run(w, START, events).kv, identity, K.READ, path).Ok?
    ensures
      var end := Run(w, START, events);
      var written :=
        KT.WrittenTo(w.kv, WrappedDek(CreatorOf(w.env, events)), KvEvents(w, START, events), path);
      var n := if version.Some? then version.value else |written|;
      K.ReadStep(w.kv, end.vault.dek.value, end.kv, identity, path, version).1 ==
        if written == [] then Err(K.NotFound)
        else if 1 <= n <= |written| then Ok(K.Plaintext(written[n - 1]))
        else Err(K.VersionNotFound)
  {
    hide Run, KvEvents, KT.Run, CreatorOf, WrappedDek, K.ReadStep, K.Authorized, KT.WrittenTo, CreatorExclusive, Drawn,
      HoldsOnly;
    var dek := WrappedDek(CreatorOf(w.env, events));
    RunHoldsWrapped(w, events);
    EndHolds(w, START, events, dek);
    KvRunNothing(w.kv, dek);
    KvRunProjects(w, START, events, dek, []);
    assert [] + KvEvents(w, START, events) == KvEvents(w, START, events);
    KT.ReadGivesWritten(w.kv, dek, KvEvents(w, START, events), identity, path, version);
  }

  // ----- While locked

  lemma LockedTransitCall(aead: Aead<T.Aad>, s: T.State, identity: Option<string>, op: TT.Op)
    requires !op.KvPolicyCall?
    ensures TT.Step(aead, s, TT.Event(T.Call(None, identity), op)) == (s, Err(TransitStore.VaultLocked))
  {
  }

  lemma LockedStep(w: World, s: State, e: Event)
    requires Drawn(e) && Shared(s) && s.vault.dek == None
    requires e.op.VaultCall? ==> !e.op.vaultOp.Unlock? && !e.op.vaultOp.UnlockWithShares?
    ensures Step(w, s, e) == s.(vault := Step(w, s, e).vault) && Step(w, s, e).vault.dek == None
  {
    hide TT.Step, KT.Step;
    if e.op.TransitCall? {
      LockedTransitCall(w.transit, s.transit, e.op.identity, e.op.transitOp);
    }
  }

  /** Until someone tries to unlock it, a locked store changes neither keys, secrets,
      grants nor log, whoever calls, and answers every Transit call VAULT_LOCKED. */
  lemma {:induction false} LockedStoreIsStill(
    w: World, s: State, events: seq<Event>, identity: Option<string>, op: TT.Op)
    requires AllDrawn(events) && Shared(s) && s.vault.dek == None && !op.KvPolicyCall?
    requires forall i :: 0 <= i < |events| && events[i].op.VaultCall? ==>
      !events[i].op.vaultOp.Unlock? && !events[i].op.vaultOp.UnlockWithShares?
    ensures
      var end := Run(w, s, events);
      && end == s.(vault := end.vault) && end.vault.dek == None
      && TT.Step(w.transit, end.transit, TT.Event(T.Call(end.vault.dek, identity), op))
         == (s.transit, Err(TransitStore.VaultLocked))
    decreases |events|
  {
    hide Step, TT.Step, Drawn, Shared;
    if events == [] {
      LockedTransitCall(w.transit, s.transit, identity, op);
    } else {
      LockedStep(w, s, events[0]);
      StepShares(w, s, events[0]);
      LockedStoreIsStill(w, Step(w, s, events[0]), events[1..], identity, op);
    }
  }
}
