/** What the calls of the authentication service answer after any run, from the
    calls made before and their answers alone. */
module AuthOutcomes {
  import opened Wrappers
  import opened Text
  import opened Passphrases
  import opened Authentication
  import opened AuthTheorems

  // ----- What a run shows

  /** The hash given when the address was registered. */
  function HashOf(v: Verifier, events: seq<Event>, who: string): Option<string>
    decreases |events|
  {
    if events == [] then None
    else
      var n := |events| - 1;
      if events[n].op.Register? && CanonicalEmail(events[n].op.email) == Some(who) && AnswerAt(v, events, n) == Done
      then Some(events[n].op.hash)
      else HashOf(v, events[..n], who)
  }

  /** The seed given when MFA was enabled for the address. */
  function SeedOf(v: Verifier, events: seq<Event>, who: string): Option<string>
    decreases |events|
  {
    if events == [] then None
    else
      var n := |events| - 1;
      if events[n].op.EnableMfa? && CanonicalEmail(events[n].op.email) == Some(who) && AnswerAt(v, events, n) == Done
      then events[n].op.seed
      else SeedOf(v, events[..n], who)
  }

  datatype Entry = Entry(email: string, time: int)

  /** Who last logged in with this token and when, if since then there was no
      restart and the token was not refused. */
  function LoggedIn(v: Verifier, events: seq<Event>, token: string): Option<Entry>
    decreases |events|
  {
    if events == [] then None
    else
      var n := |events| - 1;
      match events[n].op
      case Login(email, _, _, _) =>
        if AnswerAt(v, events, n) == Token(token) && CanonicalEmail(email).Some?
        then Some(Entry(CanonicalEmail(email).value, events[n].now))
        else LoggedIn(v, events[..n], token)
      case ValidateSession(t) =>
        if t == token && AnswerAt(v, events, n).Refused? then None else LoggedIn(v, events[..n], token)
      case Restart => None
      case _ => LoggedIn(v, events[..n], token)
  }

  /** The accounts and sessions say what the run shows. */
  ghost predicate Shows(s: State, who: string, hash: Option<string>, seed: Option<string>) {
    && (who in s.users <==> hash.Some?)
    && (hash.Some? ==> s.users[who].passwordHash == hash.value && s.users[who].mfa == seed)
    && (hash == None ==> seed == None)
  }

  lemma StepShows(v: Verifier, s: State, e: Event, who: string, hash: Option<string>, seed: Option<string>)
    requires Shows(s, who, hash, seed)
    ensures
      var (after, o) := Step(v, s, e);
      var on := (e.op.Register? || e.op.EnableMfa?) && CanonicalEmail(e.op.email) == Some(who) && o == Done;
      Shows(after, who, if on && e.op.Register? then Some(e.op.hash) else hash,
        if on && e.op.EnableMfa? then e.op.seed else seed)
  {
    hide CanonicalEmail, StrongPassphrase;
  }

  lemma {:induction false} RunShows(v: Verifier, events: seq<Event>, who: string)
    ensures Shows(Run(v, events), who, HashOf(v, events, who), SeedOf(v, events, who))
    decreases |events|
  {
    hide Step, Shows, CanonicalEmail;
    if events == [] {
      NothingShows(who);
    } else {
      var n := |events| - 1;
      RunShows(v, events[..n], who);
      StepShows(v, Run(v, events[..n]), events[n], who, HashOf(v, events[..n], who), SeedOf(v, events[..n], who));
    }
  }

  lemma NothingShows(who: string)
    ensures Shows(EMPTY, who, None, None)
  {
  }

  // ----- Credentials

  /** Within five minutes of the last of at least five failures. */
  predicate LockedOut(times: seq<int>, now: int) {
    |times| >= 5 && now < times[|times| - 1] + 300
  }

  lemma LastAnswer(v: Verifier, events: seq<Event>, e: Event)
    ensures AnswerAt(v, events + [e], |events|) == Step(v, Run(v, events), e).1
    ensures (events + [e])[..|events|] == events
    ensures Run(v, events + [e]) == Step(v, Run(v, events), e).0
  {
    assert (events + [e])[..|events|] == events;
  }

  lemma FailuresAfter(v: Verifier, events: seq<Event>, e: Event, who: string)
    ensures Failures(v, events + [e], who)
         == Observe(Failures(v, events, who), who, e, Step(v, Run(v, events), e).1)
  {
    hide Step, Observe;
    LastAnswer(v, events, e);
  }

  /** Exactly when a login succeeds. After any run, for a registered address that
      is not locked out: the passphrase must match the hash given at
      registration and, once MFA was enabled, the one-time password the seed given
      then. Otherwise the credentials are rejected, and that is one more failure.
      With good credentials the failures are forgotten and the token, if one could
      be made, stands for the address for half an hour. */
  lemma LoginsExactly(
    v: Verifier, events: seq<Event>, email: string, passphrase: string, otp: Option<string>, token: string, now: int)
    ensures
      var s, e := Run(v, events), Event(Login(email, passphrase, otp, token), now);
      var (after, o) := Step(v, s, e);
      match CanonicalEmail(email)
      case None => after == s && o == Refused(InvalidInput)
      case Some(who) =>
        var hash, seed, times := HashOf(v, events, who), SeedOf(v, events, who), Failures(v, events, who);
        if hash == None then after == s && o == Refused(InvalidCredentials)
        else
          && times.Some?
          && if LockedOut(times.value, now) then after == s && o == Refused(AccountLocked)
             else if v.password(hash.value, passphrase)
                     && (seed == None || v.otp(seed.value, passphrase, who, otp, now))
             then
               && o == (if token == "" then Refused(InvalidInput) else Token(token))
               && Failures(v, events + [e], who) == Some([])
               && after.sessions == if token == "" then s.sessions else s.sessions[token := Session(who, now + 1800)]
             else
               && o == Refused(InvalidCredentials)
               && Failures(v, events + [e], who) == Some(times.value + [now])
               && after.sessions == s.sessions
  {
    hide CanonicalEmail, Run, Failures;
    var e := Event(Login(email, passphrase, otp, token), now);
    if CanonicalEmail(email).Some? {
      var who := CanonicalEmail(email).value;
      RunShows(v, events, who);
      RunCounts(v, events, who);
      FailuresAfter(v, events, e, who);
    }
  }

  /** Enabling MFA, likewise: it takes the registered passphrase, and an account
      that has no second factor yet. */
  lemma EnablesExactly(
    v: Verifier, events: seq<Event>, email: string, passphrase: string, seed: Option<string>, now: int)
    ensures
      var s, e := Run(v, events), Event(EnableMfa(email, passphrase, seed), now);
      var (after, o) := Step(v, s, e);
      && after.sessions == s.sessions
      && match CanonicalEmail(email)
         case None => after == s && o == Refused(InvalidInput)
         case Some(who) =>
           var hash, times := HashOf(v, events, who), Failures(v, events, who);
           if hash == None then after == s && o == Refused(InvalidCredentials)
           else
             && times.Some?
             && if LockedOut(times.value, now) then after == s && o == Refused(AccountLocked)
                else if !v.password(hash.value, passphrase) then
                  && o == Refused(InvalidCredentials)
                  && Failures(v, events + [e], who) == Some(times.value + [now])
                else if SeedOf(v, events, who).Some? || seed == None then after == s && o == Refused(InvalidInput)
                else
                  && o == Done
                  && Failures(v, events + [e], who) == Some([]) && SeedOf(v, events + [e], who) == seed
  {
    hide CanonicalEmail, Run, Failures;
    var e := Event(EnableMfa(email, passphrase, seed), now);
    if CanonicalEmail(email).Some? {
      var who := CanonicalEmail(email).value;
      RunShows(v, events, who);
      RunCounts(v, events, who);
      FailuresAfter(v, events, e, who);
      LastAnswer(v, events, e);
    }
  }

  /** Registering succeeds exactly for a free address and a confirmed passphrase
      that meets the policy; it starts without failures and without MFA. */
  lemma RegistersExactly(
    v: Verifier, events: seq<Event>, email: string, passphrase: string, confirmation: string, hash: string, now: int)
    ensures
      var s, e := Run(v, events), Event(Register(email, passphrase, confirmation, hash), now);
      var (after, o) := Step(v, s, e);
      match CanonicalEmail(email)
      case None => after == s && o == Refused(InvalidInput)
      case Some(who) =>
        if passphrase != confirmation || !MeetsPolicy(passphrase) then after == s && o == Refused(InvalidInput)
        else if HashOf(v, events, who).Some? then after == s && o == Refused(DuplicateUser)
        else
          && o == Done && after.sessions == s.sessions
          && HashOf(v, events + [e], who) == Some(hash) && SeedOf(v, events + [e], who) == None
          && Failures(v, events + [e], who) == Some([])
  {
    hide CanonicalEmail, Run, Failures, StrongPassphrase, MeetsPolicy;
    var e := Event(Register(email, passphrase, confirmation, hash), now);
    StrongMeetsPolicy(passphrase);
    if CanonicalEmail(email).Some? {
      var who := CanonicalEmail(email).value;
      RunShows(v, events, who);
      FailuresAfter(v, events, e, who);
      LastAnswer(v, events, e);
    }
  }

  // ----- Sessions

  ghost predicate Open(s: State, token: string, entry: Option<Entry>) {
    && (token in s.sessions <==> entry.Some?)
    && (entry.Some? ==> s.sessions[token] == Session(entry.value.email, entry.value.time + 1800))
  }

  lemma StepOpens(v: Verifier, s: State, e: Event, token: string, entry: Option<Entry>)
    requires Open(s, token, entry)
    ensures
      var (after, o) := Step(v, s, e);
      Open(after, token,
        match e.op
        case Login(email, _, _, _) =>
          if o == Token(token) && CanonicalEmail(email).Some? then Some(Entry(CanonicalEmail(email).value, e.now))
          else entry
        case ValidateSession(t) => if t == token && o.Refused? then None else entry
        case Restart => None
        case _ => entry)
  {
    hide CanonicalEmail, StrongPassphrase;
  }

  lemma {:induction false} RunOpens(v: Verifier, events: seq<Event>, token: string)
    ensures Open(Run(v, events), token, LoggedIn(v, events, token))
    decreases |events|
  {
    hide Step, Open, CanonicalEmail;
    if events == [] {
      NothingOpen(token);
    } else {
      var n := |events| - 1;
      RunOpens(v, events[..n], token);
      StepOpens(v, Run(v, events[..n]), events[n], token, LoggedIn(v, events[..n], token));
    }
  }

  lemma NothingOpen(token: string)
    ensures Open(EMPTY, token, None)
  {
  }

  /** Exactly whom a token stands for: whoever last logged in with it, for half an
      hour, unless the service was restarted or the token refused since. */
  lemma SessionsExactly(v: Verifier, events: seq<Event>, token: string, now: int)
    ensures
      var s, entry := Run(v, events), LoggedIn(v, events, token);
      var (after, o) := Step(v, s, Event(ValidateSession(token), now));
      if entry.Some? && now < entry.value.time + 1800
      then after == s && o == Identity(entry.value.email)
      else after == s.(sessions := s.sessions - {token}) && o == Refused(Unauthenticated)
  {
    hide Run, LoggedIn;
    RunOpens(v, events, token);
    var s := Run(v, events);
    assert token !in s.sessions ==> s.sessions - {token} == s.sessions;
  }
}
