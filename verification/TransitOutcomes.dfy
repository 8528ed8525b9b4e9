/** What the Transit calls answer after any run, from the calls observed in it:
    which version encryption uses, who may use a key, what sharing changes. */
module TransitOutcomes {
  import opened Wrappers
  import opened Base64
  import opened Text
  import opened Decimal
  import opened AuthenticatedEncryption
  import opened TransitText
  import opened TransitStore
  import opened Transit
  import opened TransitTheorems
  import opened TransitModel
  import P = Policies
  import PO = PolicyOutcomes
  import PT = PolicyTheorems

  // ----- What was drawn for a key

  /** The call is about this key and its owner makes it. */
  predicate ByOwner(e: Event, owner: string, name: string) {
    && e.call.identity == Some(owner)
    && match e.op
       case CreateKey(n, _, _) => n == name
       case CreateSigningKey(n, _, _, _, _) => n == name
       case RotateKey(n, _, _, _) => n == name
       case RevokeKey(n) => n == name
       case _ => false
  }

  /** The material drawn for a key since it was last created, in order: by the
      successful creation and every successful rotation. */
  ghost function DrawnFor(
    aead: Aead<Aad>, s: State, events: seq<Event>, owner: string, name: string, before: seq<Secret>): seq<Secret>
    decreases |events|
  {
    if events == [] then before
    else
      var (after, answer) := Step(aead, s, events[0]);
      DrawnFor(aead, after, events[1..], owner, name,
        if !answer.Ok? || !ByOwner(events[0], owner, name) then before
        else if events[0].op.CreateKey? then [Secret(events[0].op.material, events[0].op.nonce)]
        else if events[0].op.RotateKey? then before + [Secret(events[0].op.material, events[0].op.nonce)]
        else [])
  }

  /** The successful rotations of a key since it was last created. */
  ghost function Rotations(
    aead: Aead<Aad>, s: State, events: seq<Event>, owner: string, name: string, before: nat): nat
    decreases |events|
  {
    if events == [] then before
    else
      var (after, answer) := Step(aead, s, events[0]);
      Rotations(aead, after, events[1..], owner, name,
        if !answer.Ok? || !ByOwner(events[0], owner, name) then before
        else if events[0].op.RotateKey? then before + 1
        else 0)
  }

  ghost function VersionsOf(m: Model, owner: string, name: string): seq<Secret> {
    if (owner, name) in m.keys && m.keys[(owner, name)].Encryption? then m.keys[(owner, name)].versions else []
  }

  /** What one call of the machine draws. */
  lemma StepDraws(aead: Aead<Aad>, m: Model, e: Event, owner: string, name: string)
    ensures
      var (after, answer) := ModelStep(aead, m, e);
      var before := VersionsOf(m, owner, name);
      VersionsOf(after, owner, name) ==
        if !answer.Ok? || !ByOwner(e, owner, name) then before
        else if e.op.CreateKey? then [Secret(e.op.material, e.op.nonce)]
        else if e.op.RotateKey? then before + [Secret(e.op.material, e.op.nonce)]
        else []
  {
    hide NameFits, Refusal, Suits, PO.Shareable, Naming, AllOf, HeldBy, May, Printed, PT.RelationStep, CanonicalEmail,
      ResolveKeyReference, ParseCiphertext, Decode, Encode, TextAadOf;
  }

  lemma StepRotates(aead: Aead<Aad>, m: Model, e: Event, owner: string, name: string)
    requires e.op.RotateKey? && ByOwner(e, owner, name) && ModelStep(aead, m, e).1.Ok?
    ensures (owner, name) in m.keys && m.keys[(owner, name)].Encryption?
    ensures ModelStep(aead, m, e).1 == Ok(Numbered(|VersionsOf(m, owner, name)| + 1))
  {
    hide NameFits, Refusal, CanonicalEmail;
  }

  /** The machine's material is what was drawn in the run. */
  lemma {:induction false} RunDraws(
    aead: Aead<Aad>, dek: Bytes, s: State, m: Model, events: seq<Event>, owner: string, name: string)
    requires aead.Correct() && Represents(aead, dek, s, m) && Proper(dek, events)
    ensures VersionsOf(ModelRun(aead, m, events), owner, name)
         == DrawnFor(aead, s, events, owner, name, VersionsOf(m, owner, name))
    decreases |events|
  {
    hide Represents, Step, ModelStep, Proper, VersionsOf, ByOwner;
    if events != [] {
      ProperParts(dek, events);
      StepRefines(aead, dek, s, m, events[0]);
      SeenOk(Step(aead, s, events[0]).1);
      StepDraws(aead, m, events[0], owner, name);
      RunDraws(aead, dek, Step(aead, s, events[0]).0, ModelStep(aead, m, events[0]).0, events[1..], owner, name);
    }
  }

  lemma SeenOk(o: Outcome<Reply>)
    ensures Seen(o).Ok? <==> o.Ok?
    ensures o.Err? ==> Seen(o) == Err(o.error)
  {
  }

  /** The i-th call of the run rotated the key. */
  ghost predicate RotatesAt(aead: Aead<Aad>, s: State, events: seq<Event>, i: nat, owner: string, name: string)
    requires i < |events|
  {
    && events[i].op.RotateKey? && ByOwner(events[i], owner, name)
    && Step(aead, Run(aead, s, events[..i]), events[i]).1.Ok?
  }

  lemma {:induction false} DrawnCounts(
    aead: Aead<Aad>, s: State, events: seq<Event>, owner: string, name: string, before: seq<Secret>, n: nat)
    requires before != [] ==> |before| == n + 1
    requires forall i :: 0 <= i < |events| && RotatesAt(aead, s, events, i, owner, name) ==>
      DrawnFor(aead, s, events[..i], owner, name, before) != []
    ensures
      var drawn := DrawnFor(aead, s, events, owner, name, before);
      drawn != [] ==> |drawn| == 1 + Rotations(aead, s, events, owner, name, n)
    decreases |events|
  {
    hide Step, ByOwner;
    if events != [] {
      var (after, answer) := Step(aead, s, events[0]);
      assert events[..0] == [];
      var next :=
        if !answer.Ok? || !ByOwner(events[0], owner, name) then before
        else if events[0].op.CreateKey? then [Secret(events[0].op.material, events[0].op.nonce)]
        else if events[0].op.RotateKey? then before + [Secret(events[0].op.material, events[0].op.nonce)]
        else [];
      forall i | 0 <= i < |events[1..]| && RotatesAt(aead, after, events[1..], i, owner, name)
        ensures DrawnFor(aead, after, events[1..][..i], owner, name, next) != []
      {
        assert events[1..][i] == events[i + 1];
        assert events[..i + 1][1..] == events[1..][..i] && events[..i + 1][0] == events[0];
        assert RotatesAt(aead, s, events, i + 1, owner, name);
      }
      DrawnCounts(aead, after, events[1..], owner, name, next,
        if !answer.Ok? || !ByOwner(events[0], owner, name) then n
        else if events[0].op.RotateKey? then n + 1
        else 0);
    }
  }

  /** A key with material has one version more than successful rotations. */
  lemma VersionsCountRotations(aead: Aead<Aad>, dek: Bytes, events: seq<Event>, owner: string, name: string)
    requires aead.Correct() && Proper(dek, events)
    ensures
      var drawn := DrawnFor(aead, EMPTY, events, owner, name, []);
      drawn != [] ==> |drawn| == 1 + Rotations(aead, EMPTY, events, owner, name, 0)
  {
    hide Step, ByOwner, Run, DrawnFor, Represents, ModelStep, VersionsOf, Proper, ModelRun, RotatesAt;
    forall i | 0 <= i < |events| && RotatesAt(aead, EMPTY, events, i, owner, name)
      ensures DrawnFor(aead, EMPTY, events[..i], owner, name, []) != []
    {
      RotatedHasMaterial(aead, dek, events, i, owner, name);
    }
    DrawnCounts(aead, EMPTY, events, owner, name, [], 0);
  }

  lemma RotatedHasMaterial(aead: Aead<Aad>, dek: Bytes, events: seq<Event>, i: nat, owner: string, name: string)
    requires aead.Correct() && Proper(dek, events) && i < |events|
    requires RotatesAt(aead, EMPTY, events, i, owner, name)
    ensures DrawnFor(aead, EMPTY, events[..i], owner, name, []) != []
  {
    hide Step, ByOwner, Run, DrawnFor, Represents, ModelStep, ModelRun, Keeps;
    var s, m := Run(aead, EMPTY, events[..i]), ModelRun(aead, NOTHING, events[..i]);
    AfterRun(aead, dek, events[..i], owner, name);
    StepRefines(aead, dek, s, m, events[i]);
    SeenOk(Step(aead, s, events[i]).1);
    StepRotates(aead, m, events[i], owner, name);
    StandsFor(aead, dek, s, m, owner, name);
    KeptIsNonEmpty(aead, dek, Lookup(s.keys, owner, name).value, owner, name, m.keys[(owner, name)]);
  }

  lemma KeptIsNonEmpty(aead: Aead<Aad>, dek: Bytes, r: KeyRecord, owner: string, name: string, content: Content)
    requires Keeps(aead, dek, r, owner, name, content) && content.Encryption?
    ensures content.versions != []
  {
  }

  /** The machine beside a run from empty stores. */
  lemma AfterRun(aead: Aead<Aad>, dek: Bytes, events: seq<Event>, owner: string, name: string)
    requires aead.Correct() && Proper(dek, events)
    ensures
      var s, m := Run(aead, EMPTY, events), ModelRun(aead, NOTHING, events);
      && Represents(aead, dek, s, m)
      && VersionsOf(m, owner, name) == DrawnFor(aead, EMPTY, events, owner, name, [])
      && m.grants == PT.Relation(s.policies) && m.denied == s.denied
  {
    hide Run, ModelRun, DrawnFor, Represents, PT.Relation;
    EmptyIsNothing(aead, dek);
    RunRefines(aead, dek, EMPTY, NOTHING, events);
    RunDraws(aead, dek, EMPTY, NOTHING, events, owner, name);
    KeysStandOf(aead, dek, Run(aead, EMPTY, events), ModelRun(aead, NOTHING, events));
  }

  lemma VersionsMeanKey(aead: Aead<Aad>, dek: Bytes, s: State, m: Model, owner: string, name: string)
    requires Represents(aead, dek, s, m)
    ensures VersionsOf(m, owner, name) != [] <==> (owner, name) in m.keys && m.keys[(owner, name)].Encryption?
  {
    hide Lookup, Keeps, ValidKeyStore, ValidRecord, PT.Relation;
    StandsFor(aead, dek, s, m, owner, name);
    if (owner, name) in m.keys && m.keys[(owner, name)].Encryption? {
      KeptIsNonEmpty(aead, dek, Lookup(s.keys, owner, name).value, owner, name, m.keys[(owner, name)]);
    }
  }

  // ----- Using a key

  /** The caller owns the key or the policy document grants him this use of it. */
  ghost predicate Entitled(s: State, requester: string, owner: string, name: string, permission: string) {
    requester == owner || PT.Tuple(P.Key(P.TransitKey, owner, name), requester, permission) in PT.Relation(s.policies)
  }

  ghost function Denying(s: State, requester: string, name: string): (State, Outcome<Reply>) {
    (s.(denied := s.denied + [Denial(requester, name)]), Err(PermissionDenied))
  }

  /** Encryption after any run, once the reference and the plaintext are well
      formed. A caller who is not entitled is denied, and that is recorded. An
      entitled one gets, for a key with material, the text sealed under the
      material last drawn, with the version 1 plus the number of rotations; and
      an error where there is no such key. */
  lemma EncryptsExactly(
    aead: Aead<Aad>, dek: Bytes, events: seq<Event>, requester: string, reference: string, plaintext: string,
    keyOwner: Option<string>, nonce: Bytes, r: Resolved)
    requires aead.Correct() && Proper(dek, events) && |nonce| == 12
    requires ResolveKeyReference(requester, reference, keyOwner) == Some(r) && NameFits(r.keyName)
    requires Decode(plaintext).Some?
    ensures
      var s := Run(aead, EMPTY, events);
      var drawn := DrawnFor(aead, EMPTY, events, r.ownerEmail, r.keyName, []);
      var version := 1 + Rotations(aead, EMPTY, events, r.ownerEmail, r.keyName, 0);
      var step := EncryptStep(aead, s, Call(Some(dek), Some(requester)), reference, plaintext, keyOwner, nonce);
      if !Entitled(s, requester, r.ownerEmail, r.keyName, "ENCRYPT") then step == Denying(s, requester, r.keyName)
      else if drawn != [] then
        step == (s, Ok(Output(
          Printed(aead, r, drawn[|drawn| - 1].material, version, nonce, Decode(plaintext).value))))
      else step.1.Err?
  {
    hide Run, ModelRun, DrawnFor, Rotations, Represents, PT.Relation, Printed, ResolveKeyReference, NameFits, Decode,
      EncryptStep, Proper;
    var s, m := Run(aead, EMPTY, events), ModelRun(aead, NOTHING, events);
    var e := Event(Call(Some(dek), Some(requester)), Encrypt(reference, plaintext, keyOwner, nonce));
    AfterRun(aead, dek, events, r.ownerEmail, r.keyName);
    VersionsCountRotations(aead, dek, events, r.ownerEmail, r.keyName);
    VersionsMeanKey(aead, dek, s, m, r.ownerEmail, r.keyName);
    OneProper(dek, e);
    StepRefines(aead, dek, s, m, e);
    EncryptRefines(aead, dek, s, m, e);
    SeenText(Step(aead, s, e).1);
  }

  lemma OneProper(dek: Bytes, e: Event)
    requires Drawn(e.op) && e.call.dek == Some(dek)
    ensures Proper(dek, [e])
  {
  }

  lemma SeenText(o: Outcome<Reply>)
    ensures Seen(o).Ok? && Seen(o).value.Text? ==> o == Ok(Output(Seen(o).value.text))
    ensures Seen(o).Err? ==> o == Err(Seen(o).error)
    ensures Seen(o).Ok? && Seen(o).value.Numbered? ==> o == Ok(NewVersion(Seen(o).value.version))
  {
  }

  /** The printed version, as it is read back. */
  lemma PrintedVersionCounts(
    aead: Aead<Aad>, dek: Bytes, events: seq<Event>, requester: string, reference: string, plaintext: string,
    keyOwner: Option<string>, nonce: Bytes)
    requires aead.Correct() && Proper(dek, events) && |nonce| == 12
    requires EncryptStep(aead, Run(aead, EMPTY, events), Call(Some(dek), Some(requester)), reference, plaintext,
               keyOwner, nonce).1.Ok?
    ensures
      var reply := EncryptStep(aead, Run(aead, EMPTY, events), Call(Some(dek), Some(requester)), reference, plaintext,
        keyOwner, nonce).1.value;
      && ResolveKeyReference(requester, reference, keyOwner).Some? && reply.Output?
      && var r := ResolveKeyReference(requester, reference, keyOwner).value;
      ParseCiphertext(reply.text).Some? ==>
        ParseCiphertext(reply.text).value.version == 1 + Rotations(aead, EMPTY, events, r.ownerEmail, r.keyName, 0)
  {
    hide Run, DrawnFor, Rotations, Printed, PT.Relation, NameFits, ValidKeyName, ParseCiphertext, ResolveKeyReference,
      Decode, LoadKey, CiphertextText, Encode, PrintCiphertext;
    var resolved := ResolveKeyReference(requester, reference, keyOwner);
    var r := resolved.value;
    NameFitsExactly(r.keyName);
    EncryptsExactly(aead, dek, events, requester, reference, plaintext, keyOwner, nonce, r);
    var drawn := DrawnFor(aead, EMPTY, events, r.ownerEmail, r.keyName, []);
    var version := 1 + Rotations(aead, EMPTY, events, r.ownerEmail, r.keyName, 0);
    var key, bytes := drawn[|drawn| - 1].material, Decode(plaintext).value;
    TextIsPrinted(aead, r, key, version, nonce, bytes);
    TextParses(aead, r, LoadedKey(key, version), nonce, bytes);
  }

  lemma TextParses(aead: Aead<Aad>, r: Resolved, loaded: LoadedKey, nonce: Bytes, bytes: Bytes)
    requires ValidKeyName(r.keyName) && loaded.version >= 1
    ensures
      var parsed := ParseCiphertext(CiphertextText(aead, r, loaded, nonce, bytes));
      parsed.Some? ==> parsed.value.version == loaded.version
  {
    hide ParseCiphertext, PrintCiphertext, Encode, ValidKeyName, CiphertextAad, Identifier;
    PrintedParses(r, loaded.version, Envelope(aead, r, loaded, nonce, bytes));
  }

  /** Decryption after any run, once the text is well formed: a caller who is not
      entitled is denied, and that is recorded; an entitled one gets what the
      material drawn for the printed version opens, or an error. */
  lemma DecryptsExactly(
    aead: Aead<Aad>, dek: Bytes, events: seq<Event>, requester: string, ciphertext: string, keyOwner: Option<string>,
    p: Parsed, r: Resolved, envelope: Bytes)
    requires aead.Correct() && Proper(dek, events)
    requires ParseCiphertext(ciphertext) == Some(p) && Decode(p.encoded) == Some(envelope) && |envelope| >= 28
    requires ResolveKeyReference(requester, p.reference, keyOwner) == Some(r) && NameFits(r.keyName)
    ensures
      var s := Run(aead, EMPTY, events);
      var drawn := DrawnFor(aead, EMPTY, events, r.ownerEmail, r.keyName, []);
      var step := DecryptStep(aead, s, Call(Some(dek), Some(requester)), ciphertext, keyOwner);
      if !Entitled(s, requester, r.ownerEmail, r.keyName, "DECRYPT") then step == Denying(s, requester, r.keyName)
      else if 1 <= p.version <= |drawn| then
        var plaintext := aead.open(
          drawn[p.version - 1].material, envelope[..12], TextAadOf(r.keyName, p.version), envelope[12..]);
        step == (s, if plaintext.Some? then Ok(Output(Encode(plaintext.value))) else Err(DecryptionFailed))
      else step.1.Err?
  {
    hide Run, ModelRun, DrawnFor, Represents, PT.Relation, ResolveKeyReference, NameFits, Decode, DecryptStep, Proper,
      ParseCiphertext, TextAadOf, Encode;
    var s, m := Run(aead, EMPTY, events), ModelRun(aead, NOTHING, events);
    var e := Event(Call(Some(dek), Some(requester)), Decrypt(ciphertext, keyOwner));
    AfterRun(aead, dek, events, r.ownerEmail, r.keyName);
    VersionsMeanKey(aead, dek, s, m, r.ownerEmail, r.keyName);
    OneProper(dek, e);
    StepRefines(aead, dek, s, m, e);
    DecryptRefines(aead, dek, s, m, e);
    SeenText(Step(aead, s, e).1);
  }

  // ----- Rotating and sharing

  /** A successful rotation answers the number of versions there now are. */
  lemma RotationAnswersExactly(
    aead: Aead<Aad>, dek: Bytes, events: seq<Event>, owner: string, name: string, keyOwner: Option<string>,
    material: Bytes, nonce: Bytes)
    requires aead.Correct() && Proper(dek, events) && |material| == 32 && |nonce| == 12
    requires RotateKeyStep(aead, Run(aead, EMPTY, events), Call(Some(dek), Some(owner)), name, keyOwner, material,
               nonce).1.Ok?
    ensures RotateKeyStep(aead, Run(aead, EMPTY, events), Call(Some(dek), Some(owner)), name, keyOwner, material,
              nonce).1 == Ok(NewVersion(2 + Rotations(aead, EMPTY, events, owner, name, 0)))
  {
    hide Run, ModelRun, DrawnFor, Rotations, Represents, RotateKeyStep, Proper;
    var s, m := Run(aead, EMPTY, events), ModelRun(aead, NOTHING, events);
    var e := Event(Call(Some(dek), Some(owner)), RotateKey(name, keyOwner, material, nonce));
    AfterRun(aead, dek, events, owner, name);
    VersionsCountRotations(aead, dek, events, owner, name);
    VersionsMeanKey(aead, dek, s, m, owner, name);
    OneProper(dek, e);
    StepRefines(aead, dek, s, m, e);
    SeenOk(Step(aead, s, e).1);
    StepRotates(aead, m, e, owner, name);
    SeenText(Step(aead, s, e).1);
  }

  /** Sharing a key succeeds for its owner only; it adds exactly the named
      permissions of the named address on that key. */
  lemma SharesExactly(
    aead: Aead<Aad>, dek: Bytes, events: seq<Event>, identity: string, name: string, grantee: string,
    texts: seq<string>, keyOwner: Option<string>, t: PT.Tuple)
    requires aead.Correct() && Proper(dek, events)
    ensures
      var s := Run(aead, EMPTY, events);
      var (after, o) := GrantStep(s, Call(Some(dek), Some(identity)), name, grantee, texts, keyOwner);
      if o.Ok?
      then
        && (keyOwner.Some? ==> CanonicalEmail(keyOwner.value) == Some(identity))
        && (t in PT.Relation(after.policies) <==>
              || t in PT.Relation(s.policies)
              || (t.key == P.Key(P.TransitKey, identity, name) && CanonicalEmail(grantee) == Some(t.who)
                  && PO.Mentions(texts, t.permission)))
      else t in PT.Relation(after.policies) <==> t in PT.Relation(s.policies)
  {
    hide Run, ModelRun, Represents, PT.Relation, GrantStep, Proper, Suits, PO.Shareable, PO.Mentions, NameFits,
      CanonicalEmail, HeldBy;
    var s, m := Run(aead, EMPTY, events), ModelRun(aead, NOTHING, events);
    var e := Event(Call(Some(dek), Some(identity)), Grant(name, grantee, texts, keyOwner));
    AfterRun(aead, dek, events, identity, name);
    OneProper(dek, e);
    GrantRefines(aead, dek, s, m, e);
    SeenOk(Step(aead, s, e).1);
  }

  /** Withdrawing, likewise: exactly the named permissions, or all of them. */
  lemma WithdrawsExactly(
    aead: Aead<Aad>, dek: Bytes, events: seq<Event>, identity: string, name: string, grantee: string,
    texts: Option<seq<string>>, keyOwner: Option<string>, t: PT.Tuple)
    requires aead.Correct() && Proper(dek, events)
    ensures
      var s := Run(aead, EMPTY, events);
      var (after, o) := RevokeAccessStep(s, Call(Some(dek), Some(identity)), name, grantee, texts, keyOwner);
      if o.Ok?
      then
        && (keyOwner.Some? ==> CanonicalEmail(keyOwner.value) == Some(identity))
        && (t in PT.Relation(after.policies) <==>
              && t in PT.Relation(s.policies)
              && !(t.key == P.Key(P.TransitKey, identity, name) && CanonicalEmail(grantee) == Some(t.who)
                   && (texts == None || PO.Mentions(texts.value, t.permission))))
      else t in PT.Relation(after.policies) <==> t in PT.Relation(s.policies)
  {
    hide Run, ModelRun, Represents, PT.Relation, RevokeAccessStep, Proper, Suits, PO.Shareable, PO.Mentions, NameFits,
      CanonicalEmail, HeldBy;
    var s, m := Run(aead, EMPTY, events), ModelRun(aead, NOTHING, events);
    var e := Event(Call(Some(dek), Some(identity)), RevokeAccess(name, grantee, texts, keyOwner));
    AfterRun(aead, dek, events, identity, name);
    OneProper(dek, e);
    RevokeAccessRefines(aead, dek, s, m, e);
    SeenOk(Step(aead, s, e).1);
  }

  // ----- The list of shared keys

  /** One entry of a caller's list: a key, with all its permissions for the caller
      in alphabetical order, and its usage. */
  ghost predicate IsListed(s: State, requester: string, k: SharedKey) {
    && Lookup(s.keys, k.ownerEmail, k.keyName).Some?
    && k.usage == (if Lookup(s.keys, k.ownerEmail, k.keyName).value.SigningKey?
                   then "SIGN_VERIFY" else "ENCRYPT_DECRYPT")
    && k.permissions != []
    && (forall i, j :: 0 <= i < j < |k.permissions| ==> Less(k.permissions[i], k.permissions[j]))
    && forall p :: p in k.permissions <==>
         PT.Tuple(P.Key(P.TransitKey, k.ownerEmail, k.keyName), requester, p) in PT.Relation(s.policies)
  }

  lemma EntryIsListed(
    aead: Aead<Aad>, dek: Bytes, s: State, requester: string, e: P.SharedEntry, k: SharedKey)
    requires Invariant(aead, dek, s) && e in P.ListShared(s.policies, P.TransitKey, requester)
    requires Lookup(s.keys, e.ownerEmail, e.resourceId).Some? && k == Listed(s.keys, e)
    ensures IsListed(s, requester, k)
  {
    hide Lookup, ValidKeyStore, AllOpen, GrantsMatchKeys, P.ListShared, P.ValidPolicy;
    PT.CanonicalParts(s.policies);
    PT.ListSharedIsTranspose(s.policies, P.TransitKey, requester, e);
    EntryPermissionsNonEmpty(s.policies, P.Key(P.TransitKey, e.ownerEmail, e.resourceId), requester);
  }

  lemma ListedIsEntry(aead: Aead<Aad>, dek: Bytes, s: State, requester: string, k: SharedKey)
    requires Invariant(aead, dek, s) && IsListed(s, requester, k)
    ensures
      var e := P.SharedEntry(k.ownerEmail, k.keyName, k.permissions);
      e in P.ListShared(s.policies, P.TransitKey, requester) && k == Listed(s.keys, e)
  {
    hide Lookup, ValidKeyStore, AllOpen, GrantsMatchKeys, P.ListShared, P.ValidPolicy;
    var key, e := P.Key(P.TransitKey, k.ownerEmail, k.keyName), P.SharedEntry(k.ownerEmail, k.keyName, k.permissions);
    PT.CanonicalParts(s.policies);
    PT.ListSharedIsTranspose(s.policies, P.TransitKey, requester, e);
    assert k.permissions[0] in k.permissions;
    assert PT.Tuple(key, requester, k.permissions[0]) in PT.Relation(s.policies);
    EntryPermissionsNonEmpty(s.policies, key, requester);
    var held := P.PermissionsOf(s.policies, key, requester);
    forall p ensures p in held <==> p in k.permissions {
      assert p in held <==> PT.Tuple(key, requester, p) in PT.Relation(s.policies);
    }
    AscendingIsCanonical(held, k.permissions);
  }

  /** The list holds exactly what is shared with the caller, by owner and name. */
  lemma ListsExactly(aead: Aead<Aad>, dek: Bytes, events: seq<Event>, requester: string, k: SharedKey)
    requires aead.Correct() && Proper(dek, events)
    ensures
      var s := Run(aead, EMPTY, events);
      var o := ListSharedStep(s, Call(Some(dek), Some(requester)));
      && o.Ok? && o.value.SharedKeys?
      && (k in o.value.keys <==> IsListed(s, requester, k))
      && forall i, j :: 0 <= i < j < |o.value.keys| ==>
           || Less(o.value.keys[i].ownerEmail, o.value.keys[j].ownerEmail)
           || (o.value.keys[i].ownerEmail == o.value.keys[j].ownerEmail
               && Less(o.value.keys[i].keyName, o.value.keys[j].keyName))
  {
    hide Run, Invariant, Lookup, P.ListShared, ListSharedStep, IsListed, Less;
    var s, call := Run(aead, EMPTY, events), Call(Some(dek), Some(requester));
    EmptyHasInvariant(aead, dek);
    RunKeepsInvariant(aead, dek, EMPTY, events, "", "");
    SharedListIsComplete(aead, dek, s, call);
    var keys, entries := ListSharedStep(s, call).value.keys, P.ListShared(s.policies, P.TransitKey, requester);
    forall i, j | 0 <= i < j < |keys| ensures SharedBefore(keys[i], keys[j]) {
    }
    if k in keys {
      var i :| 0 <= i < |keys| && keys[i] == k;
      assert entries[i] in entries;
      EntryIsListed(aead, dek, s, requester, entries[i], k);
    }
    if IsListed(s, requester, k) {
      ListedIsEntry(aead, dek, s, requester, k);
      var e := P.SharedEntry(k.ownerEmail, k.keyName, k.permissions);
      var i :| 0 <= i < |entries| && entries[i] == e;
      assert keys[i] == Listed(s.keys, entries[i]);
    }
  }

  /** Nothing is listed while the vault is locked or for nobody. */
  lemma ListRefusals(s: State, dek: Option<Bytes>, identity: Option<string>)
    requires dek == None || identity == None
    ensures ListSharedStep(s, Call(dek, identity)) == Err(if dek == None then VaultLocked else Unauthenticated)
  {
  }
}
