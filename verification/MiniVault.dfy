/** The whole store: the vault, the Transit service and the KV engine with the policy
    file both share, and the audit log both append their denials to. */
module MiniVault {
  import opened Wrappers
  import opened AuthenticatedEncryption
  import opened CanonicalJson
  import A = Audit
  import V = VaultCore
  import P = Policies
  import PT = PolicyTheorems
  import T = Transit
  import TT = TransitTheorems
  import K = Kv
  import KT = KvTheorems
  import Text
  import TransitStore

  /** A call of one component, by whoever the session check identified. */
  datatype Op =
    | VaultCall(vaultOp: V.Op)
    | TransitCall(identity: Option<string>, transitOp: TT.Op)
    | KvCall(identity: Option<string>, kvOp: KT.Op)

  /** A call, with the clock as seconds and as text. */
  datatype Event = Event(op: Op, now: int, timestamp: string)

  /** The foreign functions: the cipher as each component uses it, the key
      derivation function, the JSON parser and SHA-256. */
  datatype World = World(env: V.Primitives, transit: Aead<T.Aad>, kv: Aead<()>, lib: A.Library)
  {
    ghost predicate Correct() {
      env.aead.Correct() && transit.Correct() && kv.Correct()
    }
  }

  datatype State = State(vault: V.State, transit: T.State, kv: K.State, log: Option<string>)

  const START := State(V.FRESH, T.EMPTY, K.EMPTY, None)

  ghost predicate Drawn(e: Event) {
    match e.op
    case VaultCall(op) => V.Drawn(op)
    case TransitCall(_, op) => TT.Drawn(op) && !op.KvPolicyCall?
    case KvCall(_, op) => !op.TransitPolicyCall?
  }

  ghost predicate AllDrawn(events: seq<Event>) {
    forall i :: 0 <= i < |events| ==> Drawn(events[i])
  }

  // ----- The audit log

  datatype Denial = OfTransit(transit: T.Denial) | OfKv(kv: K.Denial)

  /** The fields of the audit event of a denial. */
  function Fields(d: Denial): A.Entry {
    match d
    case OfTransit(t) =>
      map["event" := JString("TRANSIT_PERMISSION_DENIED"), "requester_email" := JString(t.requester),
          "key_name" := JString(t.keyName)]
    case OfKv(k) =>
      map["event" := JString("KV_PERMISSION_DENIED"), "operation" := JString(k.operation), "path" := JString(k.path),
          "requester_email" := JString(k.caller), "owner_email" := JString(k.owner)]
  }

  /** The denial a call has recorded, if any. */
  function NewTransitDenial(before: T.State, after: T.State): seq<Denial> {
    if |after.denied| > |before.denied| then [OfTransit(after.denied[|after.denied| - 1])] else []
  }

  function NewKvDenial(before: K.State, after: K.State): seq<Denial> {
    if |after.denied| > |before.denied| then [OfKv(after.denied[|after.denied| - 1])] else []
  }

  /** Every denial is appended; a failure to append is ignored. */
  ghost function Logged(lib: A.Library, log: Option<string>, denials: seq<Denial>, timestamp: string): Option<string> {
    if denials == [] then log else A.AppendStep(lib, log, Fields(denials[0]), timestamp).0
  }

  // ----- One call

  /** A Transit call sees the DEK that the vault holds at that moment. */
  ghost function TransitEvent(s: State, e: Event): TT.Event
    requires e.op.TransitCall?
  {
    TT.Event(T.Call(s.vault.dek, e.op.identity), e.op.transitOp)
  }

  function KvEvent(e: Event): KT.Event
    requires e.op.KvCall?
  {
    KT.Event(e.op.identity, e.now, e.op.kvOp)
  }

  ghost function AfterTransit(w: World, s: State, e: Event): T.State
    requires e.op.TransitCall?
  {
    TT.Step(w.transit, s.transit, TransitEvent(s, e)).0
  }

  /** A KV call makes an engine with the held DEK; without one it is refused. */
  ghost function AfterKv(w: World, s: State, e: Event): K.State
    requires e.op.KvCall?
  {
    if s.vault.dek == None then s.kv else KT.Step(w.kv, s.vault.dek.value, s.kv, KvEvent(e)).0
  }

  /** The denials of one call: none or one. */
  ghost function StepDenials(w: World, s: State, e: Event): seq<Denial> {
    match e.op
    case VaultCall(_) => []
    case TransitCall(_, _) => NewTransitDenial(s.transit, AfterTransit(w, s, e))
    case KvCall(_, _) => NewKvDenial(s.kv, AfterKv(w, s, e))
  }

  ghost function Step(w: World, s: State, e: Event): State
    requires Drawn(e)
  {
    var log := Logged(w.lib, s.log, StepDenials(w, s, e), e.timestamp);
    match e.op
    case VaultCall(op) => s.(vault := V.Step(w.env, s.vault, op).0)
    case TransitCall(_, _) =>
      var transit := AfterTransit(w, s, e);
      s.(transit := transit, kv := s.kv.(policies := transit.policies), log := log)
    case KvCall(_, _) =>
      var kv := AfterKv(w, s, e);
      s.(kv := kv, transit := s.transit.(policies := kv.policies), log := log)
  }

  ghost function Run(w: World, s: State, events: seq<Event>): State
    requires AllDrawn(events)
    decreases |events|
  {
    if events == [] then s else Run(w, Step(w, s, events[0]), events[1..])
  }

  lemma {:induction false} RunSplits(w: World, s: State, before: seq<Event>, later: seq<Event>)
    requires AllDrawn(before) && AllDrawn(later)
    ensures AllDrawn(before + later)
    ensures Run(w, s, before + later) == Run(w, Run(w, s, before), later)
    decreases |before|
  {
    hide Step, Drawn;
    if before == [] {
      assert before + later == later;
    } else {
      assert (before + later)[0] == before[0] && (before + later)[1..] == before[1..] + later;
      RunSplits(w, Step(w, s, before[0]), before[1..], later);
    }
  }

  // ----- What a call does to the shared policy file

  ghost predicate IsEffect(before: P.Document, after: P.Document, op: PT.Op, t: P.ResourceType) {
    op.key.resourceType == t && after == PT.DocumentStep(before, op)
  }

  /** The call of the policy repository that turned one document into the other. */
  ghost function Effect(before: P.Document, after: P.Document, t: P.ResourceType): Option<PT.Op> {
    if after == before then None
    else if exists op :: IsEffect(before, after, op, t) then
      var op :| IsEffect(before, after, op, t);
      Some(op)
    else None
  }

  lemma EffectStep(before: P.Document, after: P.Document, t: P.ResourceType)
    requires after == before || exists op :: IsEffect(before, after, op, t)
    ensures
      var effect := Effect(before, after, t);
      && after == (if effect == None then before else PT.DocumentStep(before, effect.value))
      && (effect.Some? ==> effect.value.key.resourceType == t)
  {
    hide PT.DocumentStep;
  }

  /** A Transit call makes at most one call of the policy repository, about keys. */
  lemma TransitEffect(aead: Aead<T.Aad>, s: T.State, e: TT.Event)
    requires !e.op.KvPolicyCall?
    ensures
      var after := TT.Step(aead, s, e).0.policies;
      after == s.policies || exists op :: IsEffect(s.policies, after, op, P.TransitKey)
  {
    hide P.GrantStep, P.RevokeStep, P.DeleteStep, P.NormalizePermissions, T.OwnerOnly, T.Wrap, T.LoadKey,
      T.CiphertextText, T.CollectShared, T.SortShared;
    var after := TT.Step(aead, s, e).0.policies;
    if after != s.policies {
      match e.op {
        case RevokeKey(name) =>
          assert IsEffect(s.policies, after, PT.Delete(T.Resource(e.call.identity.value, name)), P.TransitKey);
        case Grant(name, grantee, permissions, keyOwner) => TransitGrantEffect(aead, s, e);
        case RevokeAccess(name, grantee, revoked, keyOwner) => TransitRevokeEffect(aead, s, e);
        case _ =>
      }
    }
  }

  lemma TransitGrantEffect(aead: Aead<T.Aad>, s: T.State, e: TT.Event)
    requires e.op.Grant?
    ensures
      var after := TT.Step(aead, s, e).0.policies;
      after == s.policies || exists op :: IsEffect(s.policies, after, op, P.TransitKey)
  {
    hide P.GrantStep, P.NormalizePermissions, T.OwnerOnly;
    var after := TT.Step(aead, s, e).0.policies;
    if after != s.policies {
      var owner := T.OwnerOnly(e.call.identity.value, e.op.name, e.op.keyOwner).value;
      var r := TransitStore.GetStep(s.keys, owner, e.op.name).value;
      var normalized := P.NormalizePermissions(e.op.permissions, T.PermissionsFor(r)).value;
      var who := Text.CanonicalEmail(e.op.grantee).value;
      assert IsEffect(s.policies, after, PT.Grant(T.Resource(owner, e.op.name), who, normalized), P.TransitKey);
    }
  }

  lemma TransitRevokeEffect(aead: Aead<T.Aad>, s: T.State, e: TT.Event)
    requires e.op.RevokeAccess?
    ensures
      var after := TT.Step(aead, s, e).0.policies;
      after == s.policies || exists op :: IsEffect(s.policies, after, op, P.TransitKey)
  {
    hide P.RevokeStep, P.NormalizePermissions, T.OwnerOnly;
    var after := TT.Step(aead, s, e).0.policies;
    if after != s.policies {
      var owner := T.OwnerOnly(e.call.identity.value, e.op.name, e.op.keyOwner).value;
      var r := TransitStore.GetStep(s.keys, owner, e.op.name).value;
      var removed := if e.op.revoked == None then None
                     else Some(P.NormalizePermissions(e.op.revoked.value, T.PermissionsFor(r)).value);
      var who := Text.CanonicalEmail(e.op.grantee).value;
      assert IsEffect(s.policies, after, PT.Revoke(T.Resource(owner, e.op.name), who, removed), P.TransitKey);
    }
  }

  /** A KV call makes at most one call of the policy repository, about paths. */
  lemma KvEffect(aead: Aead<()>, key: Bytes, s: K.State, e: KT.Event)
    requires !e.op.TransitPolicyCall?
    ensures
      var after := KT.Step(aead, key, s, e).0.policies;
      after == s.policies || exists op :: IsEffect(s.policies, after, op, P.KvSecret)
  {
    hide P.GrantStep, P.RevokeStep, P.DeleteStep, K.Authorized, K.OwnerOnly, K.Sealed, K.Opened;
    var after := KT.Step(aead, key, s, e).0.policies;
    if after != s.policies {
      match e.op {
        case Delete(path) =>
          var owner := K.Authorized(s, e.identity, K.DELETE, path).value;
          assert IsEffect(s.policies, after, PT.Delete(K.Resource(owner, path)), P.KvSecret);
        case Grant(path, grantee, permissions) =>
          var key := K.Resource(K.OwnerOnly(e.identity, path).value, path);
          var who := Text.CanonicalEmail(grantee).value;
          assert IsEffect(s.policies, after, PT.Grant(key, who, permissions), P.KvSecret);
        case Revoke(path, grantee, revoked) =>
          var key := K.Resource(K.OwnerOnly(e.identity, path).value, path);
          var who := Text.CanonicalEmail(grantee).value;
          assert IsEffect(s.policies, after, PT.Revoke(key, who, revoked), P.KvSecret);
        case _ =>
      }
    }
  }

  // ----- The run of each component

  function VaultOps(events: seq<Event>): seq<V.Op>
    decreases |events|
  {
    if events == [] then []
    else (if events[0].op.VaultCall? then [events[0].op.vaultOp] else []) + VaultOps(events[1..])
  }

  /** The events of one call for the Transit service: the call itself, or what a KV
      call does to the shared policy file. */
  ghost function TransitPart(w: World, s: State, e: Event): seq<TT.Event> {
    match e.op
    case VaultCall(_) => []
    case TransitCall(_, _) => [TransitEvent(s, e)]
    case KvCall(_, _) =>
      var effect := Effect(s.kv.policies, AfterKv(w, s, e).policies, P.KvSecret);
      if effect == None then [] else [TT.Event(T.Call(None, None), TT.KvPolicyCall(effect.value))]
  }

  ghost function TransitEvents(w: World, s: State, events: seq<Event>): seq<TT.Event>
    requires AllDrawn(events)
    decreases |events|
  {
    if events == [] then []
    else TransitPart(w, s, events[0]) + TransitEvents(w, Step(w, s, events[0]), events[1..])
  }

  /** The events of one call for the KV engine. */
  ghost function KvPart(w: World, s: State, e: Event): seq<KT.Event> {
    match e.op
    case VaultCall(_) => []
    case TransitCall(_, _) =>
      var effect := Effect(s.transit.policies, AfterTransit(w, s, e).policies, P.TransitKey);
      if effect == None then [] else [KT.Event(None, e.now, KT.TransitPolicyCall(effect.value))]
    case KvCall(_, _) => if s.vault.dek == None then [] else [KvEvent(e)]
  }

  ghost function KvEvents(w: World, s: State, events: seq<Event>): seq<KT.Event>
    requires AllDrawn(events)
    decreases |events|
  {
    if events == [] then []
    else KvPart(w, s, events[0]) + KvEvents(w, Step(w, s, events[0]), events[1..])
  }

  /** Both services see one policy file. */
  predicate Shared(s: State) {
    s.transit.policies == s.kv.policies
  }

  lemma StepShares(w: World, s: State, e: Event)
    requires Drawn(e) && Shared(s)
    ensures Shared(Step(w, s, e))
  {
    hide AfterTransit, AfterKv, V.Step, Logged, StepDenials;
  }

  lemma TransitStepProjects(w: World, s: State, e: Event)
    requires Drawn(e) && Shared(s)
    ensures Step(w, s, e).transit == TT.Run(w.transit, s.transit, TransitPart(w, s, e))
  {
    hide V.Step, KT.Step, Logged, StepDenials, Effect, V.Drawn;
    match e.op {
      case VaultCall(_) =>
      case TransitCall(_, _) =>
        hide TT.Step;
        TransitRunOne(w.transit, s.transit, TransitEvent(s, e));
      case KvCall(_, kvOp) =>
        if s.vault.dek.Some? {
          KvEffect(w.kv, s.vault.dek.value, s.kv, KvEvent(e));
        }
        EffectStep(s.kv.policies, AfterKv(w, s, e).policies, P.KvSecret);
        var effect := Effect(s.kv.policies, AfterKv(w, s, e).policies, P.KvSecret);
        if effect.Some? {
          TransitRunOne(w.transit, s.transit, TT.Event(T.Call(None, None), TT.KvPolicyCall(effect.value)));
        }
    }
  }

  lemma TransitRunOne(aead: Aead<T.Aad>, s: T.State, e: TT.Event)
    ensures TT.Run(aead, s, [e]) == TT.Step(aead, s, e).0
  {
    hide TT.Step;
    assert [e][1..] == [];
  }

  lemma {:induction false} TransitRunSplits(aead: Aead<T.Aad>, s: T.State, a: seq<TT.Event>, b: seq<TT.Event>)
    ensures TT.Run(aead, s, a + b) == TT.Run(aead, TT.Run(aead, s, a), b)
    decreases |a|
  {
    hide TT.Step;
    if a == [] {
      assert a + b == b;
    } else {
      assert (a + b)[0] == a[0] && (a + b)[1..] == a[1..] + b;
      TransitRunSplits(aead, TT.Step(aead, s, a[0]).0, a[1..], b);
    }
  }

  /** The vault and the Transit service run as they would alone, among the calls
      the other component makes on the policy file. */
  lemma {:induction false} RunProjects(w: World, s: State, events: seq<Event>)
    requires AllDrawn(events) && Shared(s)
    ensures Shared(Run(w, s, events))
    ensures V.AllDrawn(VaultOps(events))
    ensures Run(w, s, events).vault == V.Run(w.env, s.vault, VaultOps(events))
    ensures Run(w, s, events).transit == TT.Run(w.transit, s.transit, TransitEvents(w, s, events))
    decreases |events|
  {
    hide V.Step, V.Drawn, TT.Drawn, TT.Run, TransitPart, Step, Shared;
    if events == [] {
      TransitRunNothing(w.transit, s.transit);
    } else {
      assert Drawn(events[0]);
      var next := Step(w, s, events[0]);
      StepShares(w, s, events[0]);
      TransitStepProjects(w, s, events[0]);
      RunProjects(w, next, events[1..]);
      TransitRunSplits(w.transit, s.transit, TransitPart(w, s, events[0]), TransitEvents(w, next, events[1..]));
      VaultStepProjects(w, s, events[0]);
      var rest := VaultOps(events[1..]);
      if events[0].op.VaultCall? {
        assert ([events[0].op.vaultOp] + rest)[1..] == rest;
      } else {
        assert [] + rest == rest;
      }
    }
  }

  lemma VaultStepProjects(w: World, s: State, e: Event)
    requires Drawn(e)
    ensures Step(w, s, e).vault == if e.op.VaultCall? then V.Step(w.env, s.vault, e.op.vaultOp).0 else s.vault
  {
    hide AfterTransit, AfterKv, V.Step, Logged, StepDenials;
  }

  lemma TransitRunNothing(aead: Aead<T.Aad>, s: T.State)
    ensures TT.Run(aead, s, []) == s
  {
  }
}
