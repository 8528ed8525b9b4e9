/** Accounts, the lockout policy and process-local sessions. */
module Authentication {
  import opened Wrappers
  import opened Text
  import opened Passphrases

  const SESSION_LIFETIME := 1800
  const LOCKOUT_LIFETIME := 300
  const LOCKOUT_THRESHOLD := 5

  /** Times are in seconds. The MFA entry is the encrypted one-time-password seed. */
  datatype Account = Account(passwordHash: string, failedAttempts: nat, lockedUntil: Option<int>, mfa: Option<string>)

  datatype Session = Session(email: string, expiresAt: int)

  datatype State = State(users: map<string, Account>, sessions: map<string, Session>)

  const EMPTY := State(map[], map[])

  /** Foreign checks: Argon2 on stored hash and passphrase; the one-time password
      on encrypted seed, passphrase, account, code and time. */
  datatype Verifier = Verifier(
    password: (string, string) -> bool,
    otp: (string, string, string, Option<string>, int) -> bool)

  datatype AuthError = InvalidInput | InvalidCredentials | AccountLocked | DuplicateUser | Unauthenticated

  datatype Answer = Done | Token(token: string) | Identity(email: string) | Refused(error: AuthError)

  // ----- The effect of the methods

  predicate IsLocked(a: Account, now: int) {
    a.lockedUntil.Some? && now < a.lockedUntil.value
  }

  function WithFailure(a: Account, now: int): Account {
    a.(failedAttempts := a.failedAttempts + 1,
       lockedUntil := if a.failedAttempts + 1 >= LOCKOUT_THRESHOLD then Some(now + LOCKOUT_LIFETIME) else None)
  }

  function Cleared(a: Account): Account {
    a.(failedAttempts := 0, lockedUntil := None)
  }

  function RegisterStep(s: State, email: string, passphrase: string, confirmation: string, hash: string)
    : (State, Answer)
  {
    match CanonicalEmail(email)
    case None => (s, Refused(InvalidInput))
    case Some(who) =>
      if passphrase != confirmation || !StrongPassphrase(passphrase) then (s, Refused(InvalidInput))
      else if who in s.users then (s, Refused(DuplicateUser))
      else (s.(users := s.users[who := Account(hash, 0, None, None)]), Done)
  }

  predicate SecondFactorHolds(v: Verifier, a: Account, passphrase: string, who: string, otp: Option<string>, now: int) {
    a.mfa.Some? ==> v.otp(a.mfa.value, passphrase, who, otp, now)
  }

  function LoginStep(
    v: Verifier, s: State, email: string, passphrase: string, otp: Option<string>, token: string, now: int)
    : (State, Answer)
  {
    match CanonicalEmail(email)
    case None => (s, Refused(InvalidInput))
    case Some(who) =>
      if who !in s.users then (s, Refused(InvalidCredentials))
      else
        var a := s.users[who];
        if IsLocked(a, now) then (s, Refused(AccountLocked))
        else if !v.password(a.passwordHash, passphrase) || !SecondFactorHolds(v, a, passphrase, who, otp, now) then
          (s.(users := s.users[who := WithFailure(a, now)]), Refused(InvalidCredentials))
        else
          var users := s.users[who := Cleared(a)];
          if token == "" then (s.(users := users), Refused(InvalidInput))
          else (State(users, s.sessions[token := Session(who, now + SESSION_LIFETIME)]), Token(token))
  }

  /** The seed is None when generating or encrypting it fails. */
  function EnableMfaStep(v: Verifier, s: State, email: string, passphrase: string, seed: Option<string>, now: int)
    : (State, Answer)
  {
    match CanonicalEmail(email)
    case None => (s, Refused(InvalidInput))
    case Some(who) =>
      if who !in s.users then (s, Refused(InvalidCredentials))
      else
        var a := s.users[who];
        if IsLocked(a, now) then (s, Refused(AccountLocked))
        else if !v.password(a.passwordHash, passphrase) then
          (s.(users := s.users[who := WithFailure(a, now)]), Refused(InvalidCredentials))
        else if a.mfa.Some? || seed == None then (s, Refused(InvalidInput))
        else (s.(users := s.users[who := Cleared(a).(mfa := seed)]), Done)
  }

  function ValidateSessionStep(s: State, token: string, now: int): (State, Answer) {
    if token !in s.sessions then (s, Refused(Unauthenticated))
    else if now >= s.sessions[token].expiresAt then (s.(sessions := s.sessions - {token}), Refused(Unauthenticated))
    else (s, Identity(s.sessions[token].email))
  }

  // ----- The objects

  class UserRepository {
    var users: map<string, Account>

    constructor ()
      ensures users == map[]
    {
      users := map[];
    }

    method CreateAccount(email: string, account: Account) returns (ok: bool)
      modifies this
      ensures ok <==> email !in old(users)
      ensures users == if ok then old(users)[email := account] else old(users)
    {
      ok := email !in users;
      if ok {
        users := users[email := account];
      }
    }

    method ReplaceAccount(email: string, account: Account)
      requires email in users
      modifies this
      ensures users == old(users)[email := account]
    {
      users := users[email := account];
    }
  }

  class AuthService {
    const verifier: Verifier
    const repository: UserRepository
    var sessions: map<string, Session>

    constructor (verifier: Verifier, repository: UserRepository)
      ensures this.verifier == verifier && this.repository == repository && sessions == map[]
    {
      this.verifier := verifier;
      this.repository := repository;
      sessions := map[];
    }

    ghost function Abstract(): State
      reads this, repository
    {
      State(repository.users, sessions)
    }

    method Register(email: string, passphrase: string, confirmation: string, hash: string) returns (o: Answer)
      modifies repository
      ensures (Abstract(), o) == RegisterStep(old(Abstract()), email, passphrase, confirmation, hash)
    {
      hide CanonicalEmail, StrongPassphrase;
      var who := CanonicalEmail(email);
      if who == None || passphrase != confirmation || !StrongPassphrase(passphrase) {
        return Refused(InvalidInput);
      }
      var created := repository.CreateAccount(who.value, Account(hash, 0, None, None));
      o := if created then Done else Refused(DuplicateUser);
    }

    /** Records a failure, which locks the account from the fifth on. */
    method RejectAuthentication(who: string, account: Account, now: int) returns (o: Answer)
      requires who in repository.users
      modifies repository
      ensures repository.users == old(repository.users)[who := WithFailure(account, now)]
      ensures o == Refused(InvalidCredentials)
    {
      var failures := account.failedAttempts + 1;
      var updated := account.(failedAttempts := failures);
      updated := updated.(lockedUntil := if failures >= LOCKOUT_THRESHOLD then Some(now + LOCKOUT_LIFETIME) else None);
      repository.ReplaceAccount(who, updated);
      o := Refused(InvalidCredentials);
    }

    method Login(email: string, passphrase: string, otp: Option<string>, token: string, now: int) returns (o: Answer)
      modifies this, repository
      ensures (Abstract(), o) == LoginStep(verifier, old(Abstract()), email, passphrase, otp, token, now)
      ensures o.Token? ==>
        && CanonicalEmail(email).Some? && CanonicalEmail(email).value in old(repository.users)
        && var a := old(repository.users)[CanonicalEmail(email).value];
        && verifier.password(a.passwordHash, passphrase)
        && (a.mfa.Some? ==> verifier.otp(a.mfa.value, passphrase, CanonicalEmail(email).value, otp, now))
    {
      hide CanonicalEmail;
      var who := CanonicalEmail(email);
      if who == None {
        return Refused(InvalidInput);
      }
      if who.value !in repository.users {
        return Refused(InvalidCredentials);
      }
      var account := repository.users[who.value];
      if account.lockedUntil.Some? && now < account.lockedUntil.value {
        return Refused(AccountLocked);
      }
      if !verifier.password(account.passwordHash, passphrase) {
        o := RejectAuthentication(who.value, account, now);
        return;
      }
      if account.mfa.Some? {
        if !verifier.otp(account.mfa.value, passphrase, who.value, otp, now) {
          o := RejectAuthentication(who.value, account, now);
          return;
        }
      }
      account := account.(failedAttempts := 0, lockedUntil := None);
      repository.ReplaceAccount(who.value, account);
      if token == "" {
        return Refused(InvalidInput);
      }
      sessions := sessions[token := Session(who.value, now + SESSION_LIFETIME)];
      o := Token(token);
    }

    method EnableMfa(email: string, passphrase: string, seed: Option<string>, now: int) returns (o: Answer)
      modifies repository
      ensures (Abstract(), o) == EnableMfaStep(verifier, old(Abstract()), email, passphrase, seed, now)
    {
      hide CanonicalEmail;
      var who := CanonicalEmail(email);
      if who == None {
        return Refused(InvalidInput);
      }
      if who.value !in repository.users {
        return Refused(InvalidCredentials);
      }
      var account := repository.users[who.value];
      if account.lockedUntil.Some? && now < account.lockedUntil.value {
        return Refused(AccountLocked);
      }
      if !verifier.password(account.passwordHash, passphrase) {
        o := RejectAuthentication(who.value, account, now);
        return;
      }
      if account.mfa.Some? || seed == None {
        return Refused(InvalidInput);
      }
      account := account.(mfa := seed);
      account := account.(failedAttempts := 0, lockedUntil := None);
      repository.ReplaceAccount(who.value, account);
      o := Done;
    }

    method ValidateSession(token: string, now: int) returns (o: Answer)
      modifies this
      ensures (Abstract(), o) == ValidateSessionStep(old(Abstract()), token, now)
    {
      if token !in sessions {
        return Refused(Unauthenticated);
      }
      var session := sessions[token];
      if now >= session.expiresAt {
        sessions := sessions - {token};
        return Refused(Unauthenticated);
      }
      o := Identity(session.email);
    }
  }
}
