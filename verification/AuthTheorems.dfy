/** What holds in every run of the authentication service. Failures are counted
    from the observed calls and outcomes, never from the stored counters, and
    nothing is assumed about the clock. */
module AuthTheorems {
  import opened Wrappers
  import opened Text
  import opened Authentication

  datatype Op =
    | Register(email: string, passphrase: string, confirmation: string, hash: string)
    | Login(email: string, passphrase: string, otp: Option<string>, token: string)
    | EnableMfa(email: string, passphrase: string, seed: Option<string>)
    | ValidateSession(token: string)
    | Restart

  datatype Event = Event(op: Op, now: int)

  function Step(v: Verifier, s: State, e: Event): (State, Answer) {
    match e.op
    case Register(email, passphrase, confirmation, hash) => RegisterStep(s, email, passphrase, confirmation, hash)
    case Login(email, passphrase, otp, token) => LoginStep(v, s, email, passphrase, otp, token, e.now)
    case EnableMfa(email, passphrase, seed) => EnableMfaStep(v, s, email, passphrase, seed, e.now)
    case ValidateSession(token) => ValidateSessionStep(s, token, e.now)
    case Restart => (s.(sessions := map[]), Done)
  }

  /** The state after a run from the empty service. */
  function Run(v: Verifier, events: seq<Event>): State
    decreases |events|
  {
    if events == [] then EMPTY
    else Step(v, Run(v, events[..|events| - 1]), events[|events| - 1]).0
  }

  /** What the i-th call of a run answers. */
  function AnswerAt(v: Verifier, events: seq<Event>, i: nat): Answer
    requires i < |events|
  {
    Step(v, Run(v, events[..i]), events[i]).1
  }

  // ----- Observed failures

  predicate Concerns(op: Op, who: string) {
    (op.Register? || op.Login? || op.EnableMfa?) && CanonicalEmail(op.email) == Some(who)
  }

  /** How one observed call changes the times of an account's failures since its
      last reset; None before the account exists. A login refused only because
      no token could be made has reset the account. */
  function Observe(times: Option<seq<int>>, who: string, e: Event, o: Answer): Option<seq<int>> {
    if !Concerns(e.op, who) then times
    else if e.op.Register? then if o == Done then Some([]) else times
    else if times == None then None
    else if o == Refused(InvalidCredentials) then Some(times.value + [e.now])
    else if !o.Refused? || (e.op.Login? && o == Refused(InvalidInput)) then Some([])
    else times
  }

  /** The times of the account's failures since its last reset. */
  function Failures(v: Verifier, events: seq<Event>, who: string): Option<seq<int>>
    decreases |events|
  {
    if events == [] then None
    else
      var n := |events| - 1;
      Observe(Failures(v, events[..n], who), who, events[n], AnswerAt(v, events, n))
  }

  /** The stored counters say what the observed failures say. */
  ghost predicate Counts(s: State, who: string, times: Option<seq<int>>) {
    && (who in s.users <==> times.Some?)
    && (times.Some? ==>
          && s.users[who].failedAttempts == |times.value|
          && s.users[who].lockedUntil == LockFor(times.value))
  }

  function LockFor(times: seq<int>): Option<int> {
    if |times| >= LOCKOUT_THRESHOLD then Some(times[|times| - 1] + LOCKOUT_LIFETIME) else None
  }

  /** From the fifth on, each failure comes a lockout after the one before. */
  ghost predicate Spaced(times: Option<seq<int>>) {
    times.Some? ==>
      forall k :: LOCKOUT_THRESHOLD <= k < |times.value| ==> times.value[k] >= times.value[k - 1] + LOCKOUT_LIFETIME
  }

  /** A call that is about other accounts changes nothing of this one. */
  lemma OthersUntouched(v: Verifier, s: State, e: Event, who: string)
    requires !Concerns(e.op, who)
    ensures var users := Step(v, s, e).0.users;
      (who in users <==> who in s.users) && (who in users ==> users[who] == s.users[who])
  {
    hide CanonicalEmail;
  }

  lemma StepCounts(v: Verifier, s: State, e: Event, who: string, times: Option<seq<int>>)
    requires Counts(s, who, times) && Spaced(times)
    ensures Counts(Step(v, s, e).0, who, Observe(times, who, e, Step(v, s, e).1))
    ensures Spaced(Observe(times, who, e, Step(v, s, e).1))
  {
    hide CanonicalEmail;
    if !Concerns(e.op, who) {
      OthersUntouched(v, s, e, who);
    }
  }

  /** In every reachable state the stored counter equals the number of failures
      observed since the last reset, and the lock is set exactly from the fifth
      on, until a lockout after the last one. */
  lemma {:induction false} RunCounts(v: Verifier, events: seq<Event>, who: string)
    ensures Counts(Run(v, events), who, Failures(v, events, who))
    ensures Spaced(Failures(v, events, who))
    decreases |events|
  {
    hide Step, Observe, Counts, Spaced;
    if events == [] {
      NothingCounts(who);
    } else {
      var n := |events| - 1;
      RunCounts(v, events[..n], who);
      StepCounts(v, Run(v, events[..n]), events[n], who, Failures(v, events[..n], who));
    }
  }

  lemma NothingCounts(who: string)
    ensures Counts(EMPTY, who, None) && Spaced(None)
  {
  }

  lemma {:induction false} SpacingAdds(times: seq<int>, n: nat, m: nat)
    requires Spaced(Some(times))
    requires LOCKOUT_THRESHOLD <= n <= m <= |times|
    ensures times[m - 1] >= times[n - 1] + (m - n) * LOCKOUT_LIFETIME
    decreases m
  {
    if n < m {
      SpacingAdds(times, n, m - 1);
    }
  }

  /** The rate bound: of the failures since the last reset, through login or
      through enabling MFA, the m-th comes at least m - n lockouts after the
      n-th, from the fifth on. */
  lemma FailureRateBound(v: Verifier, events: seq<Event>, who: string, n: nat, m: nat)
    requires Failures(v, events, who).Some?
    requires 5 <= n <= m <= |Failures(v, events, who).value|
    ensures Failures(v, events, who).value[m - 1] >= Failures(v, events, who).value[n - 1] + (m - n) * 300
  {
    hide Spaced, Failures;
    RunCounts(v, events, who);
    SpacingAdds(Failures(v, events, who).value, n, m);
  }

  /** An attempt, right or wrong, is refused as locked exactly within a lockout of
      the last of at least five observed failures, and then nothing changes. */
  lemma LockedExactlyAfterFailures(v: Verifier, events: seq<Event>, who: string, e: Event)
    requires Concerns(e.op, who) && !e.op.Register?
    ensures Step(v, Run(v, events), e).1 == Refused(AccountLocked) <==>
      var times := Failures(v, events, who);
      times.Some? && |times.value| >= 5 && e.now < times.value[|times.value| - 1] + 300
    ensures Step(v, Run(v, events), e).1 == Refused(AccountLocked) ==>
      Step(v, Run(v, events), e).0 == Run(v, events)
  {
    hide CanonicalEmail, Failures, Run;
    RunCounts(v, events, who);
  }

  // ----- Sessions

  /** The i-th call is the login that made this session. */
  ghost predicate IsLoginOf(v: Verifier, events: seq<Event>, i: nat, token: string, session: Session) {
    && i < |events|
    && events[i].op.Login? && CanonicalEmail(events[i].op.email) == Some(session.email)
    && AnswerAt(v, events, i) == Token(token)
    && session.expiresAt == events[i].now + SESSION_LIFETIME
  }

  lemma StepSession(v: Verifier, s: State, e: Event, token: string)
    requires token in Step(v, s, e).0.sessions
    ensures
      var session := Step(v, s, e).0.sessions[token];
      || (token in s.sessions && s.sessions[token] == session)
      || (e.op.Login? && CanonicalEmail(e.op.email) == Some(session.email) && Step(v, s, e).1 == Token(token)
          && session.expiresAt == e.now + SESSION_LIFETIME)
  {
    hide CanonicalEmail;
  }

  /** In every run, every session was made by a successful login of its account. */
  lemma {:induction false} SessionHasLogin(v: Verifier, events: seq<Event>, token: string) returns (i: nat)
    requires token in Run(v, events).sessions
    ensures IsLoginOf(v, events, i, token, Run(v, events).sessions[token])
    decreases |events|
  {
    hide Step, CanonicalEmail;
    var n := |events| - 1;
    var before := Run(v, events[..n]);
    StepSession(v, before, events[n], token);
    if token in before.sessions && before.sessions[token] == Run(v, events).sessions[token] {
      i := SessionHasLogin(v, events[..n], token);
      assert events[..n][..i] == events[..i];
    } else {
      i := n;
    }
  }

  /** Whoever a token is accepted for logged in, with success, less than a session
      lifetime before. */
  lemma IdentityLoggedIn(v: Verifier, events: seq<Event>, token: string, now: int, who: string) returns (i: nat)
    requires ValidateSessionStep(Run(v, events), token, now).1 == Identity(who)
    ensures i < |events| && events[i].op.Login? && CanonicalEmail(events[i].op.email) == Some(who)
    ensures AnswerAt(v, events, i) == Token(token) && now < events[i].now + 1800
  {
    hide Run, CanonicalEmail, AnswerAt;
    i := SessionHasLogin(v, events, token);
  }

  // ----- The second factor

  lemma StepKeepsFactors(v: Verifier, s: State, e: Event, who: string)
    requires who in s.users
    ensures who in Step(v, s, e).0.users
    ensures
      var after := Step(v, s, e).0.users[who];
      after.passwordHash == s.users[who].passwordHash
      && (s.users[who].mfa.Some? ==> after.mfa == s.users[who].mfa)
  {
    hide CanonicalEmail;
  }

  lemma {:induction false} RunKeepsFactors(v: Verifier, events: seq<Event>, i: nat, who: string)
    requires i <= |events| && who in Run(v, events[..i]).users
    ensures who in Run(v, events).users
    ensures
      var before, after := Run(v, events[..i]).users[who], Run(v, events).users[who];
      after.passwordHash == before.passwordHash && (before.mfa.Some? ==> after.mfa == before.mfa)
    decreases |events|
  {
    hide Step;
    if i == |events| {
      assert events[..i] == events;
    } else {
      var n := |events| - 1;
      assert events[..n][..i] == events[..i];
      RunKeepsFactors(v, events[..n], i, who);
      StepKeepsFactors(v, Run(v, events[..n]), events[n], who);
    }
  }

  /** Once a call has enabled MFA with a seed, every later login that succeeds, in
      any run, gave a one-time password valid for that seed and the passphrase
      the account was registered with. */
  lemma SecondFactorIsPermanent(v: Verifier, events: seq<Event>, i: nat, who: string, login: Event)
    requires i < |events| && events[i].op.EnableMfa? && CanonicalEmail(events[i].op.email) == Some(who)
    requires AnswerAt(v, events, i) == Done
    requires login.op.Login? && CanonicalEmail(login.op.email) == Some(who)
    requires Step(v, Run(v, events), login).1.Token?
    ensures who in Run(v, events[..i]).users
    ensures v.password(Run(v, events[..i]).users[who].passwordHash, login.op.passphrase)
    ensures v.otp(events[i].op.seed.value, login.op.passphrase, who, login.op.otp, login.now)
  {
    hide CanonicalEmail;
    assert events[..i + 1][..i] == events[..i];
    assert Run(v, events[..i + 1]) == Step(v, Run(v, events[..i]), events[i]).0;
    RunKeepsFactors(v, events, i + 1, who);
  }
}
