/**
  The brute-force guard of the Express backend: a map from the e-mail string
  given at login to the number of failed attempts and the time of the last
  one. `Date.now()` is passed in as `now` (milliseconds).
 */
module LoginGuard {

  const MaxLoginAttempts: nat := 5

  /** Fifteen minutes, in milliseconds. */
  const LockoutTime: nat := 15 * 60 * 1000

  datatype AttemptRecord = AttemptRecord(count: nat, lastAttempt: int)

  /** The `loginAttempts` map, keyed by the e-mail exactly as the client sent it. */
  type Attempts = map<string, AttemptRecord>

  /** What `isAccountLocked` answers, and the map it leaves behind. */
  datatype LockCheck = LockCheck(locked: bool, attempts: Attempts)

  /** A record at the threshold whose lockout window has not yet elapsed. */
  predicate LockedAt(r: AttemptRecord, now: int) {
    r.count >= MaxLoginAttempts && now - r.lastAttempt < LockoutTime
  }

  /** `email` maps to the same record (or to none) in both maps. */
  predicate SameEntry(a: Attempts, b: Attempts, email: string) {
    (email in a <==> email in b) && (email in a ==> a[email] == b[email])
  }

  /** Every key other than `email` is untouched. */
  ghost predicate OthersUnchanged(a: Attempts, b: Attempts, email: string) {
    forall e :: e != email ==> SameEntry(a, b, e)
  }

  /** `isAccountLocked(email)`. */
  function IsAccountLocked(attempts: Attempts, email: string, now: int): (r: LockCheck)
    ensures r.locked <==> email in attempts && LockedAt(attempts[email], now)
    ensures email !in attempts ==> r.attempts == attempts
    ensures email in attempts && attempts[email].count < MaxLoginAttempts ==> r.attempts == attempts
    ensures email in attempts && attempts[email].count >= MaxLoginAttempts
            && now - attempts[email].lastAttempt >= LockoutTime ==>
              r.attempts == attempts - {email}
    ensures r.locked ==> r.attempts == attempts
    ensures OthersUnchanged(attempts, r.attempts, email)
  {
    if email !in attempts then LockCheck(false, attempts)
    else
      var a := attempts[email];
      if a.count >= MaxLoginAttempts then
        if now - a.lastAttempt < LockoutTime then LockCheck(true, attempts)
        else LockCheck(false, attempts - {email})
      else LockCheck(false, attempts)
  }

  /** Asking again at the same moment gives the same answer and changes nothing more. */
  lemma LockCheckIdempotent(attempts: Attempts, email: string, now: int)
    ensures var first := IsAccountLocked(attempts, email, now);
      IsAccountLocked(first.attempts, email, now) == first
  {
  }

  /** The count before a failure is recorded: zero without a record. */
  function PriorCount(attempts: Attempts, email: string): nat {
    if email in attempts then attempts[email].count else 0
  }

  /** `recordFailedLogin(email)`. */
  function RecordFailedLogin(attempts: Attempts, email: string, now: int): (r: Attempts)
    ensures email in r && r[email] == AttemptRecord(PriorCount(attempts, email) + 1, now)
    ensures r.Keys == attempts.Keys + {email}
    ensures OthersUnchanged(attempts, r, email)
  {
    var prior := if email in attempts then attempts[email] else AttemptRecord(0, now);
    attempts[email := prior.(count := prior.count + 1, lastAttempt := now)]
  }

  /** `resetLoginAttempts(email)`. */
  function ResetLoginAttempts(attempts: Attempts, email: string): (r: Attempts)
    ensures email !in r
    ensures r.Keys == attempts.Keys - {email}
    ensures OthersUnchanged(attempts, r, email)
  {
    attempts - {email}
  }

  /** `attemptsRemaining` of the wrong-password response:
      `MAX_LOGIN_ATTEMPTS - (count || 0)`, floored at zero. */
  function AttemptsRemaining(attempts: Attempts, email: string): (n: nat)
    ensures n <= MaxLoginAttempts
    ensures n == 0 <==> email in attempts && attempts[email].count >= MaxLoginAttempts
    ensures email !in attempts ==> n == MaxLoginAttempts
    ensures email in attempts && attempts[email].count < MaxLoginAttempts ==>
              n + attempts[email].count == MaxLoginAttempts
  {
    var count := if email in attempts then attempts[email].count else 0;
    var remaining: int := MaxLoginAttempts - count;
    if remaining > 0 then remaining else 0
  }

  /** After a reset the account is unlocked and the check changes nothing. */
  lemma ResetUnlocks(attempts: Attempts, email: string, now: int)
    ensures var reset := ResetLoginAttempts(attempts, email);
      IsAccountLocked(reset, email, now) == LockCheck(false, reset)
  {
  }

  /** The hint agrees with the lock: right after a failure the remaining
      count is zero exactly when the account is now locked. */
  lemma RemainingZeroIffLocked(attempts: Attempts, email: string, now: int)
    ensures var after := RecordFailedLogin(attempts, email, now);
      AttemptsRemaining(after, email) == 0 <==> IsAccountLocked(after, email, now).locked
  {
  }

  /** Guard operations on one key never change what the guard says of another. */
  lemma KeysIndependent(attempts: Attempts, email: string, other: string, now: int, later: int)
    requires other != email
    ensures IsAccountLocked(IsAccountLocked(attempts, email, now).attempts, other, later).locked
            == IsAccountLocked(attempts, other, later).locked
    ensures IsAccountLocked(RecordFailedLogin(attempts, email, now), other, later).locked
            == IsAccountLocked(attempts, other, later).locked
    ensures IsAccountLocked(ResetLoginAttempts(attempts, email), other, later).locked
            == IsAccountLocked(attempts, other, later).locked
    ensures AttemptsRemaining(RecordFailedLogin(attempts, email, now), other)
            == AttemptsRemaining(attempts, other)
  {
    assert SameEntry(attempts, IsAccountLocked(attempts, email, now).attempts, other);
    assert SameEntry(attempts, RecordFailedLogin(attempts, email, now), other);
    assert SameEntry(attempts, ResetLoginAttempts(attempts, email), other);
  }
}
