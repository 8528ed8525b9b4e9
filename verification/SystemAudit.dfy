/** The audit log of the whole store: it holds exactly the denials, as long as none
    of the denied names and paths has a line break that JSON leaves unescaped. */
module SystemAudit {
  import opened Wrappers
  import opened AuthenticatedEncryption
  import opened CanonicalJson
  import opened Audit
  import opened AuditFields
  import opened AuditAppend
  import opened AuditOutcomes
  import M = MiniVault
  import P = Policies
  import T = Transit
  import TT = TransitTheorems
  import K = Kv
  import KT = KvTheorems
  import Text
  import TransitText
  import TransitStore
  import Base64

  // ----- The denials of a run

  /** The append requests of the denials of a run, in order. */
  ghost function Requests(w: M.World, s: M.State, events: seq<M.Event>): seq<Request>
    requires M.AllDrawn(events)
    decreases |events|
  {
    if events == [] then []
    else
      var denials := M.StepDenials(w, s, events[0]);
      (if denials == [] then [] else [Request(M.Fields(denials[0]), events[0].timestamp)])
      + Requests(w, M.Step(w, s, events[0]), events[1..])
  }

  /** The denials of a run, in order. */
  ghost function Denials(w: M.World, s: M.State, events: seq<M.Event>): seq<M.Denial>
    requires M.AllDrawn(events)
    decreases |events|
  {
    if events == [] then []
    else M.StepDenials(w, s, events[0]) + Denials(w, M.Step(w, s, events[0]), events[1..])
  }

  function OfTransit(denials: seq<M.Denial>): seq<T.Denial>
    decreases |denials|
  {
    if denials == [] then []
    else (if denials[0].OfTransit? then [denials[0].transit] else []) + OfTransit(denials[1..])
  }

  function OfKv(denials: seq<M.Denial>): seq<K.Denial>
    decreases |denials|
  {
    if denials == [] then []
    else (if denials[0].OfKv? then [denials[0].kv] else []) + OfKv(denials[1..])
  }

  /** A Transit call records at most one denial. */
  lemma TransitDenies(aead: Aead<T.Aad>, s: T.State, e: TT.Event)
    ensures
      var after := TT.Step(aead, s, e).0;
      after.denied == s.denied || exists d :: after.denied == s.denied + [d]
  {
    hide P.GrantStep, P.RevokeStep, P.DeleteStep, P.NormalizePermissions, T.OwnerOnly, T.Wrap, T.LoadKey,
      T.CiphertextText, T.CollectShared, T.SortShared, TransitStore.CreateStep, TransitStore.ReplaceStep,
      TransitStore.DeleteStep, TransitText.ResolveKeyReference, TransitText.ParseCiphertext;
  }

  predicate IsOperation(operation: string) {
    operation in {"READ", "WRITE", "DELETE", "MANAGE_POLICY", "READ_POLICY"}
  }

  /** A KV call records at most one denial, of one of the five operations. */
  lemma KvDenies(aead: Aead<()>, key: Bytes, s: K.State, e: KT.Event)
    ensures
      var after := KT.Step(aead, key, s, e).0;
      after.denied == s.denied || exists d :: after.denied == s.denied + [d] && IsOperation(d.operation)
  {
    hide P.GrantStep, P.RevokeStep, P.DeleteStep, K.Authorized, K.OwnerOnly, K.Sealed, K.Opened, K.PathOwner;
  }

  lemma StepDenialsAreNew(w: M.World, s: M.State, e: M.Event)
    requires M.Drawn(e)
    ensures
      var d := M.StepDenials(w, s, e);
      && |d| <= 1
      && M.Step(w, s, e).transit.denied == s.transit.denied + OfTransit(d)
      && M.Step(w, s, e).kv.denied == s.kv.denied + OfKv(d)
      && forall i :: 0 <= i < |d| && d[i].OfKv? ==> IsOperation(d[i].kv.operation)
  {
    hide TT.Step, KT.Step, M.Logged, IsOperation;
    match e.op {
      case VaultCall(_) =>
      case TransitCall(_, _) => TransitDenies(w.transit, s.transit, M.TransitEvent(s, e));
      case KvCall(_, _) =>
        if s.vault.dek.Some? {
          KvDenies(w.kv, s.vault.dek.value, s.kv, M.KvEvent(e));
        }
    }
  }

  lemma {:induction false} TransitDenialsJoin(a: seq<M.Denial>, b: seq<M.Denial>)
    ensures OfTransit(a + b) == OfTransit(a) + OfTransit(b)
    decreases |a|
  {
    if a == [] {
      assert a + b == b;
    } else {
      assert (a + b)[0] == a[0] && (a + b)[1..] == a[1..] + b;
      TransitDenialsJoin(a[1..], b);
      var first := if a[0].OfTransit? then [a[0].transit] else [];
      assert first + (OfTransit(a[1..]) + OfTransit(b)) == (first + OfTransit(a[1..])) + OfTransit(b);
    }
  }

  lemma {:induction false} KvDenialsJoin(a: seq<M.Denial>, b: seq<M.Denial>)
    ensures OfKv(a + b) == OfKv(a) + OfKv(b)
    decreases |a|
  {
    if a == [] {
      assert a + b == b;
    } else {
      assert (a + b)[0] == a[0] && (a + b)[1..] == a[1..] + b;
      KvDenialsJoin(a[1..], b);
      var first := if a[0].OfKv? then [a[0].kv] else [];
      assert first + (OfKv(a[1..]) + OfKv(b)) == (first + OfKv(a[1..])) + OfKv(b);
    }
  }

  /** The denials of a run are those the services have recorded, and the KV ones
      name one of the five operations. */
  lemma {:induction false} DenialsAreRecorded(w: M.World, s: M.State, events: seq<M.Event>)
    requires M.AllDrawn(events)
    ensures
      var d := Denials(w, s, events);
      && M.Run(w, s, events).transit.denied == s.transit.denied + OfTransit(d)
      && M.Run(w, s, events).kv.denied == s.kv.denied + OfKv(d)
      && forall i :: 0 <= i < |d| && d[i].OfKv? ==> IsOperation(d[i].kv.operation)
    decreases |events|
  {
    hide M.Step, M.StepDenials, M.Drawn, IsOperation;
    if events != [] {
      StepDenialsAreNew(w, s, events[0]);
      DenialsAreRecorded(w, M.Step(w, s, events[0]), events[1..]);
      TransitDenialsJoin(M.StepDenials(w, s, events[0]), Denials(w, M.Step(w, s, events[0]), events[1..]));
      KvDenialsJoin(M.StepDenials(w, s, events[0]), Denials(w, M.Step(w, s, events[0]), events[1..]));
    }
  }

  // ----- The log

  lemma StepLogs(w: M.World, s: M.State, e: M.Event)
    requires M.Drawn(e)
    ensures M.Step(w, s, e).log == M.Logged(w.lib, s.log, M.StepDenials(w, s, e), e.timestamp)
  {
    hide M.AfterTransit, M.AfterKv, AppendStep;
  }

  /** The log is what appending the denials one by one makes. */
  lemma {:induction false} LogIsAppended(w: M.World, s: M.State, events: seq<M.Event>)
    requires M.AllDrawn(events)
    ensures M.Run(w, s, events).log == RunAppends(w.lib, s.log, Requests(w, s, events))
    decreases |events|
  {
    hide M.Step, M.StepDenials, M.Drawn, AppendStep, M.Fields;
    if events != [] {
      var next := M.Step(w, s, events[0]);
      StepLogs(w, s, events[0]);
      LogIsAppended(w, next, events[1..]);
      var denials, rest := M.StepDenials(w, s, events[0]), Requests(w, next, events[1..]);
      if denials == [] {
        assert [] + rest == rest;
      } else {
        var r := Request(M.Fields(denials[0]), events[0].timestamp);
        assert ([r] + rest)[0] == r && ([r] + rest)[1..] == rest;
      }
    }
  }

  // ----- Denied texts

  /** Some text of the denial that a caller chose holds a line break. */
  predicate DenialBreaks(d: M.Denial) {
    match d
    case OfTransit(t) => TextBreaks(t.requester) || TextBreaks(t.keyName)
    case OfKv(k) => TextBreaks(k.caller) || TextBreaks(k.owner) || TextBreaks(k.path)
  }

  lemma NamesArePlain()
    ensures !TextBreaks("event") && !TextBreaks("operation") && !TextBreaks("path")
    ensures !TextBreaks("requester_email") && !TextBreaks("owner_email") && !TextBreaks("key_name")
    ensures !TextBreaks("TRANSIT_PERMISSION_DENIED") && !TextBreaks("KV_PERMISSION_DENIED")
  {
    hide TextBreaks;
    PlainText("event");
    PlainText("operation");
    PlainText("path");
    PlainText("requester_email");
    PlainText("owner_email");
    PlainText("key_name");
    PlainText("TRANSIT_PERMISSION_DENIED");
    PlainText("KV_PERMISSION_DENIED");
  }

  lemma OperationIsPlain(operation: string)
    requires IsOperation(operation)
    ensures !TextBreaks(operation)
  {
    PlainText(operation);
  }

  lemma BreakIn(f: Entry, k: string)
    requires k in f && Breaks(f[k])
    ensures Breaks(JObject(f))
  {
  }

  lemma TransitFieldsBreak(t: T.Denial)
    ensures
      var f := M.Fields(M.OfTransit(t));
      ValidEvent(f) && (Breaks(JObject(f)) <==> TextBreaks(t.requester) || TextBreaks(t.keyName))
  {
    hide TextBreaks;
    NamesArePlain();
    var f := M.Fields(M.OfTransit(t));
    assert f.Keys == {"event", "requester_email", "key_name"};
    if TextBreaks(t.requester) {
      BreakIn(f, "requester_email");
    } else if TextBreaks(t.keyName) {
      BreakIn(f, "key_name");
    }
  }

  lemma KvFieldsBreak(k: K.Denial)
    requires IsOperation(k.operation)
    ensures
      var f := M.Fields(M.OfKv(k));
      ValidEvent(f) && (Breaks(JObject(f)) <==> TextBreaks(k.caller) || TextBreaks(k.owner) || TextBreaks(k.path))
  {
    hide TextBreaks, IsOperation;
    NamesArePlain();
    OperationIsPlain(k.operation);
    var f := M.Fields(M.OfKv(k));
    assert f.Keys == {"event", "operation", "path", "requester_email", "owner_email"};
    if TextBreaks(k.caller) {
      BreakIn(f, "requester_email");
    } else if TextBreaks(k.owner) {
      BreakIn(f, "owner_email");
    } else if TextBreaks(k.path) {
      BreakIn(f, "path");
    }
  }

  lemma FieldsBreak(d: M.Denial)
    requires d.OfKv? ==> IsOperation(d.kv.operation)
    ensures ValidEvent(M.Fields(d)) && (Breaks(JObject(M.Fields(d))) <==> DenialBreaks(d))
  {
    hide TextBreaks, IsOperation, M.Fields, Breaks, ValidEvent;
    if d.OfTransit? {
      TransitFieldsBreak(d.transit);
    } else {
      KvFieldsBreak(d.kv);
    }
  }

  /** Addresses never hold one: the three characters are white space. */
  lemma AddressIsClean(s: string)
    requires Text.IsEmail(s)
    ensures !TextBreaks(s)
  {
  }

  ghost predicate Timed(events: seq<M.Event>) {
    forall i :: 0 <= i < |events| ==> IsTimestamp(events[i].timestamp)
  }

  lemma {:induction false} RequestsMatchDenials(w: M.World, s: M.State, events: seq<M.Event>)
    requires M.AllDrawn(events) && Timed(events)
    ensures
      var r, d := Requests(w, s, events), Denials(w, s, events);
      && |r| == |d| && Acceptable(r)
      && forall i :: 0 <= i < |r| ==>
           r[i].fields == M.Fields(d[i]) && (Breaks(JObject(r[i].fields)) <==> DenialBreaks(d[i]))
    decreases |events|
  {
    hide M.Step, M.StepDenials, M.Drawn, ValidEvent, IsTimestamp, Breaks, DenialBreaks, M.Fields, IsOperation;
    if events != [] {
      StepDenialsAreNew(w, s, events[0]);
      RequestsMatchDenials(w, M.Step(w, s, events[0]), events[1..]);
      var denials := M.StepDenials(w, s, events[0]);
      if denials != [] {
        FieldsBreak(denials[0]);
      }
    }
  }

  /** Over every run of the whole store from an empty directory, the audit log reads
      back as exactly the denials, one entry each in order, when no denied caller,
      key name, owner or path holds U+0085, U+2028 or U+2029; otherwise it does not
      verify any more. */
  lemma LogReadsBackExactly(w: M.World, events: seq<M.Event>)
    requires w.lib.Sound() && M.AllDrawn(events) && Timed(events)
    ensures
      var d := Denials(w, M.START, events);
      ReadBack(w.lib, M.Run(w, M.START, events).log) ==
        if forall i :: 0 <= i < |d| ==> !DenialBreaks(d[i])
        then Some(Written(w.lib, [], Requests(w, M.START, events))) else None
  {
    hide ReadBack, M.Run, Breaks, DenialBreaks, Requests, Denials, RunAppends, ValidEvent, IsTimestamp;
    var r := Requests(w, M.START, events);
    LogIsAppended(w, M.START, events);
    RequestsMatchDenials(w, M.START, events);
    EmptyLogReads(w.lib);
    if r == [] {
      NothingAppended(w.lib);
    } else {
      RunReadsBackExactly(w.lib, None, r);
    }
  }

  /** The entry has the fields of this denial under their names, and the four that
      the log adds. */
  ghost predicate Reports(e: Entry, d: M.Denial, sequence: int, timestamp: string) {
    && {"event", "requester_email", "sequence", "timestamp", "previous_hash", "entry_hash"} <= e.Keys
    && e["sequence"] == JInt(sequence) && e["timestamp"] == JString(timestamp)
    && match d
       case OfTransit(t) =>
         && e.Keys == {"event", "requester_email", "key_name", "sequence", "timestamp", "previous_hash", "entry_hash"}
         && e["event"] == JString("TRANSIT_PERMISSION_DENIED")
         && e["requester_email"] == JString(t.requester) && e["key_name"] == JString(t.keyName)
       case OfKv(k) =>
         && e.Keys == {"event", "operation", "path", "requester_email", "owner_email",
                       "sequence", "timestamp", "previous_hash", "entry_hash"}
         && e["event"] == JString("KV_PERMISSION_DENIED")
         && e["operation"] == JString(k.operation) && e["path"] == JString(k.path)
         && e["requester_email"] == JString(k.caller) && e["owner_email"] == JString(k.owner)
  }

  lemma TransitFieldsKept(e: Entry, t: T.Denial)
    requires
      var f := M.Fields(M.OfTransit(t));
      && e.Keys == f.Keys + {"sequence", "timestamp", "previous_hash", "entry_hash"}
      && forall k :: k in f ==> e[k] == f[k]
    requires e["sequence"].JInt? && e["timestamp"].JString?
    ensures Reports(e, M.OfTransit(t), e["sequence"].number, e["timestamp"].text)
  {
    assert M.Fields(M.OfTransit(t)).Keys == {"event", "requester_email", "key_name"};
  }

  lemma KvFieldsKept(e: Entry, k: K.Denial)
    requires
      var f := M.Fields(M.OfKv(k));
      && e.Keys == f.Keys + {"sequence", "timestamp", "previous_hash", "entry_hash"}
      && forall key :: key in f ==> e[key] == f[key]
    requires e["sequence"].JInt? && e["timestamp"].JString?
    ensures Reports(e, M.OfKv(k), e["sequence"].number, e["timestamp"].text)
  {
    assert M.Fields(M.OfKv(k)).Keys == {"event", "operation", "path", "requester_email", "owner_email"};
  }

  lemma DenialIsLoggable(d: M.Denial)
    ensures Loggable(M.Fields(d))
  {
  }

  lemma NewEntryReports(lib: Library, es: seq<Entry>, d: M.Denial, timestamp: string)
    ensures Reports(NewEntry(lib, es, M.Fields(d), timestamp), d, |es| + 1, timestamp)
  {
    hide NewEntry, M.Fields, Reports, Loggable;
    DenialIsLoggable(d);
    NewEntryShape(lib, es, M.Fields(d), timestamp);
    var e := NewEntry(lib, es, M.Fields(d), timestamp);
    match d {
      case OfTransit(t) => TransitFieldsKept(e, t);
      case OfKv(k) => KvFieldsKept(e, k);
    }
  }

  lemma {:induction false} WrittenReports(
    lib: Library, es: seq<Entry>, requests: seq<Request>, denials: seq<M.Denial>, i: nat)
    requires |requests| == |denials|
    requires forall j :: 0 <= j < |requests| ==> requests[j].fields == M.Fields(denials[j])
    ensures |Written(lib, es, requests)| == |es| + |requests|
    ensures es <= Written(lib, es, requests)
    ensures i < |requests| ==>
      Reports(Written(lib, es, requests)[|es| + i], denials[i], |es| + i + 1, requests[i].timestamp)
    decreases |requests|
  {
    hide NewEntry, M.Fields, Reports;
    if requests != [] {
      var e := NewEntry(lib, es, requests[0].fields, requests[0].timestamp);
      WrittenReports(lib, es + [e], requests[1..], denials[1..], if i == 0 then 0 else i - 1);
      NewEntryReports(lib, es, denials[0], requests[0].timestamp);
      assert i > 0 && i < |requests| ==> denials[1..][i - 1] == denials[i] && requests[1..][i - 1] == requests[i];
    }
  }

  /** So a clean log has one entry for each denial, which names who asked for what
      and when: the caller and the key, or the operation, the path, the caller and
      the owner. */
  lemma LogNamesDenials(w: M.World, events: seq<M.Event>)
    requires w.lib.Sound() && M.AllDrawn(events) && Timed(events)
    requires
      var d := Denials(w, M.START, events);
      forall i :: 0 <= i < |d| ==> !DenialBreaks(d[i])
    ensures
      var d, r := Denials(w, M.START, events), Requests(w, M.START, events);
      var log := ReadBack(w.lib, M.Run(w, M.START, events).log);
      && log.Some? && |log.value| == |d| == |r|
      && forall i :: 0 <= i < |d| ==> Reports(log.value[i], d[i], i + 1, r[i].timestamp)
  {
    hide ReadBack, M.Run, DenialBreaks, Requests, Denials, Written, Reports, M.Fields, Breaks, ValidEvent, IsTimestamp;
    var d, r := Denials(w, M.START, events), Requests(w, M.START, events);
    LogReadsBackExactly(w, events);
    RequestsMatchDenials(w, M.START, events);
    WrittenReports(w.lib, [], r, d, 0);
    forall i | 0 <= i < |d| ensures Reports(Written(w.lib, [], r)[i], d[i], i + 1, r[i].timestamp) {
      WrittenReports(w.lib, [], r, d, i);
    }
  }

  lemma EmptyLogReads(lib: Library)
    ensures ReadBack(lib, None) == Some([]) && WellEnded(None)
  {
  }

  lemma NothingAppended(lib: Library)
    ensures RunAppends(lib, None, []) == None
  {
  }

  /** A log that does not verify stays as it is: later denials are lost. */
  lemma DamagedLogStays(w: M.World, s: M.State, events: seq<M.Event>)
    requires M.AllDrawn(events) && ReadBack(w.lib, s.log) == None
    ensures M.Run(w, s, events).log == s.log
  {
    hide ReadBack, M.Run, Requests, RunAppends;
    LogIsAppended(w, s, events);
    DamagedChainIsNotExtended(w.lib, s.log, Requests(w, s, events));
  }

  // ----- One request is enough

  lemma MissingKeyIsDenied(
    aead: Aead<T.Aad>, s: T.State, call: T.Call, name: string, plaintext: string, nonce: Bytes)
    requires T.Gate(call) == None && TransitStore.ValidKeyStore(s.keys)
    requires TransitStore.Lookup(s.keys, call.identity.value, name) == None
    requires TransitText.ValidKeyName(name) && TransitText.EmbeddedOwner(name) == None
    requires Base64.Decode(plaintext).Some?
    ensures T.EncryptStep(aead, s, call, name, plaintext, None, nonce).0.denied
         == s.denied + [T.Denial(call.identity.value, name)]
  {
    hide TransitText.ResolveKeyReference, TransitText.ValidKeyName, TransitText.EmbeddedOwner, TransitStore.Lookup,
      TransitStore.ValidRecord, Base64.Decode, T.CiphertextText, T.Unwrap, P.AllowsIn;
    TransitText.BareNameIsOwn(call.identity.value, name);
  }

  /** Any caller who asks, while the vault is unlocked, to encrypt under a valid name
      of a key he does not have that holds one of the three characters makes the
      log unverifiable. */
  lemma OneRequestDamagesLog(
    w: M.World, s: M.State, identity: string, name: string, plaintext: string, nonce: Bytes, now: int,
    timestamp: string)
    requires w.lib.Sound() && IsTimestamp(timestamp) && |nonce| == NONCE_LEN
    requires s.vault.dek.Some? && TransitStore.ValidKeyStore(s.transit.keys) && ReadBack(w.lib, s.log).Some?
    requires TransitStore.Lookup(s.transit.keys, identity, name) == None && Base64.Decode(plaintext).Some?
    requires TransitText.ValidKeyName(name) && TransitText.EmbeddedOwner(name) == None && TextBreaks(name)
    ensures
      var e := M.Event(M.TransitCall(Some(identity), TT.Encrypt(name, plaintext, None, nonce)), now, timestamp);
      M.Drawn(e) && ReadBack(w.lib, M.Step(w, s, e).log) == None
  {
    hide ReadBack, TextBreaks, TransitText.ValidKeyName, TransitText.EmbeddedOwner, TransitStore.Lookup, Base64.Decode,
      TransitStore.ValidKeyStore, T.EncryptStep, AppendStep, Breaks, M.Fields, IsTimestamp, ValidEvent;
    var e := M.Event(M.TransitCall(Some(identity), TT.Encrypt(name, plaintext, None, nonce)), now, timestamp);
    MissingKeyIsDenied(w.transit, s.transit, T.Call(s.vault.dek, Some(identity)), name, plaintext, nonce);
    StepLogs(w, s, e);
    var d := M.OfTransit(T.Denial(identity, name));
    assert M.StepDenials(w, s, e) == [d];
    FieldsBreak(d);
    AppendReadsBack(w.lib, s.log, M.Fields(d), timestamp);
  }

  /** Such a name is admitted. */
  lemma SeparatorIsAdmittedInNames()
    ensures
      var name := "a\U{2028}b";
      TransitText.ValidKeyName(name) && TransitText.EmbeddedOwner(name) == None && TextBreaks(name)
  {
    var name := "a\U{2028}b";
    assert name[1] as int == 0x2028;
    Text.StripIsIdentity(name);
  }
}
