/** The per-account lockout (app/modules/auth/service.py). Times are microseconds. */
module Lockout {
  import opened Wrappers

  const LOCKOUT_THRESHOLD := 5
  const MINUTE := 60_000_000
  const LOCKOUT_BASE := MINUTE
  const LOCKOUT_MAX := 30 * MINUTE

  /** A `timedelta` holds less than this many days, in minutes. */
  const TIMEDELTA_MINUTES := 1_000_000_000 * 24 * 60

  function Pow2(n: nat): nat {
    if n == 0 then 1 else 2 * Pow2(n - 1)
  }

  /** `_lockout_duration`; None when the product is more than a `timedelta` holds, before it is clamped. */
  function LockoutDuration(failures: nat): Option<int> {
    var excess := if failures > LOCKOUT_THRESHOLD then failures - LOCKOUT_THRESHOLD else 0;
    if Pow2(excess) >= TIMEDELTA_MINUTES then None
    else
      var duration := LOCKOUT_BASE * Pow2(excess);
      Some(if duration < LOCKOUT_MAX then duration else LOCKOUT_MAX)
  }

  datatype Account = Account(failures: nat, lockedUntil: Option<int>, active: bool, lastLogin: Option<int>)

  /** One login attempt: the clock is read when the lock is checked and again when it is set. */
  datatype Attempt = Attempt(passwordOk: bool, checkedAt: int, recordedAt: int)

  /** `Failed` is an exception: the session is rolled back and the stored account is as before. */
  datatype Outcome = Accepted | Refused | LockedOut | Failed

  predicate IsLocked(a: Account, now: int) {
    a.lockedUntil.Some? && a.lockedUntil.value > now
  }

  function OutcomeOf(a: Account, t: Attempt): Outcome {
    if IsLocked(a, t.checkedAt) then LockedOut
    else if !a.active then Refused
    else if t.passwordOk then Accepted
    else if a.failures + 1 >= LOCKOUT_THRESHOLD && LockoutDuration(a.failures + 1).None? then Failed
    else Refused
  }

  function After(a: Account, t: Attempt): Account {
    match OutcomeOf(a, t)
    case LockedOut => a
    case Failed => a
    case Accepted => a.(failures := 0, lockedUntil := None, lastLogin := Some(t.recordedAt))
    case Refused =>
      if !a.active then a
      else if a.failures + 1 >= LOCKOUT_THRESHOLD
      then a.(failures := a.failures + 1, lockedUntil := Some(t.recordedAt + LockoutDuration(a.failures + 1).value))
      else a.(failures := a.failures + 1)
  }

  class User {
    var failedLoginCount: nat
    var lockedUntil: Option<int>
    var isActive: bool
    var lastLoginAt: Option<int>

    function Stored(): Account
      reads this
    {
      Account(failedLoginCount, lockedUntil, isActive, lastLoginAt)
    }
  }

  /** `authenticate`, after the query for the user; an unknown name is refused like a wrong password. */
  method Authenticate(user: User?, attempt: Attempt) returns (r: Outcome)
    modifies user
    ensures r == if user == null then Refused else OutcomeOf(old(user.Stored()), attempt)
    ensures user != null ==> user.Stored() == After(old(user.Stored()), attempt)
    // Who gets in: an active user who is not locked and has the right password.
    ensures r == Accepted <==>
      && user != null && old(user.isActive) && attempt.passwordOk
      && !(old(user.lockedUntil).Some? && old(user.lockedUntil).value > attempt.checkedAt)
    ensures r == Accepted ==>
      user.failedLoginCount == 0 && user.lockedUntil == None && user.lastLoginAt == Some(attempt.recordedAt)
    ensures user != null ==> user.isActive == old(user.isActive)
    // A locked user is told so; a disabled one is refused like a wrong password. Neither changes.
    ensures user != null && old(user.lockedUntil).Some? && old(user.lockedUntil).value > attempt.checkedAt ==>
      r == LockedOut && unchanged(user)
    ensures user != null && !(old(user.lockedUntil).Some? && old(user.lockedUntil).value > attempt.checkedAt) && !old(user.isActive) ==>
      r == Refused && unchanged(user)
    // Every other wrong password counts as one failure; before the fifth it sets no lock.
    ensures r == Refused && user != null && user.isActive ==>
      !attempt.passwordOk && user.failedLoginCount == old(user.failedLoginCount) + 1 && user.lastLoginAt == old(user.lastLoginAt)
    ensures r == Refused && user != null && user.isActive && user.failedLoginCount < 5 ==> user.lockedUntil == old(user.lockedUntil)
    ensures r == Refused && user != null && user.isActive && user.failedLoginCount >= 5 ==>
      user.lockedUntil.Some? && user.lockedUntil.value > attempt.recordedAt
    // The one exception is rolled back.
    ensures r == Failed ==> user != null && !attempt.passwordOk && user.failedLoginCount >= 45 && unchanged(user)
    ensures r == Refused && user != null && user.isActive ==> user.failedLoginCount <= 45
  {
    if user != null {
      LockIsLater(user.failedLoginCount + 1);
    }
    if user == null {
      return Refused;
    }
    if user.lockedUntil.Some? && user.lockedUntil.value > attempt.checkedAt {
      return LockedOut;
    }
    if !user.isActive {
      return Refused;
    }
    if !attempt.passwordOk {
      var failures := user.failedLoginCount + 1;
      if failures >= LOCKOUT_THRESHOLD {
        var duration := LockoutDuration(failures);
        if duration.None? {
          return Failed;
        }
        user.lockedUntil := Some(attempt.recordedAt + duration.value);
      }
      user.failedLoginCount := failures;
      return Refused;
    }
    user.failedLoginCount := 0;
    user.lockedUntil := None;
    user.lastLoginAt := Some(attempt.recordedAt);
    return Accepted;
  }

  // ---------------------------------------------------------------- how long a lock lasts

  lemma LockIsLater(failures: nat)
    ensures LockoutDuration(failures).Some? ==> LockoutDuration(failures).value > 0
    ensures failures >= LOCKOUT_THRESHOLD ==> (LockoutDuration(failures).None? <==> failures > 45)
  {
    if failures >= LOCKOUT_THRESHOLD {
      LockDurations(failures);
    }
    Pow2Grows(0, if failures > LOCKOUT_THRESHOLD then failures - LOCKOUT_THRESHOLD else 0);
  }

  lemma {:induction false} Pow2Adds(a: nat, b: nat)
    ensures Pow2(a + b) == Pow2(a) * Pow2(b)
  {
    if a > 0 {
      Pow2Adds(a - 1, b);
      assert Pow2(a + b) == 2 * (Pow2(a - 1) * Pow2(b)) == (2 * Pow2(a - 1)) * Pow2(b);
    }
  }

  lemma {:induction false} Pow2Grows(a: nat, b: nat)
    requires a <= b
    ensures Pow2(a) <= Pow2(b)
  {
    if a < b {
      Pow2Grows(a, b - 1);
    }
  }

  lemma Pow2Values()
    ensures Pow2(5) == 32 && Pow2(40) == 0x100_0000_0000 && Pow2(41) == 0x200_0000_0000
  {
    assert Pow2(3) == 8;
    assert Pow2(5) == 4 * Pow2(3);
    Pow2Adds(5, 5);
    Pow2Adds(10, 10);
    Pow2Adds(20, 20);
  }

  /** The lock doubles from one minute and stays at thirty; past forty-five failures there is none. */
  lemma LockDurations(failures: nat)
    requires failures >= LOCKOUT_THRESHOLD
    ensures failures < 10 ==> LockoutDuration(failures) == Some(MINUTE * Pow2(failures - LOCKOUT_THRESHOLD))
    ensures 10 <= failures <= 45 ==> LockoutDuration(failures) == Some(LOCKOUT_MAX)
    ensures failures > 45 <==> LockoutDuration(failures).None?
  {
    var excess := failures - LOCKOUT_THRESHOLD;
    Pow2Values();
    assert Pow2(4) == 16;
    if failures < 10 {
      Pow2Grows(excess, 4);
    } else if failures <= 45 {
      Pow2Grows(5, excess);
      Pow2Grows(excess, 40);
    } else {
      Pow2Grows(41, excess);
    }
  }

  // ---------------------------------------------------------------- runs of attempts

  /** The account after the first `n` attempts. */
  function RunTo(start: Account, attempts: seq<Attempt>, n: nat): Account
    requires n <= |attempts|
  {
    if n == 0 then start else After(RunTo(start, attempts, n - 1), attempts[n - 1])
  }

  function OutcomeAt(start: Account, attempts: seq<Attempt>, i: nat): Outcome
    requires i < |attempts|
  {
    OutcomeOf(RunTo(start, attempts, i), attempts[i])
  }

  /** When the wrong passwords among the first `n` attempts were evaluated. */
  function Evaluated(start: Account, attempts: seq<Attempt>, n: nat): seq<int>
    requires n <= |attempts|
  {
    if n == 0 then []
    else
      var before := Evaluated(start, attempts, n - 1);
      if OutcomeAt(start, attempts, n - 1) in {Refused, Failed} then before + [attempts[n - 1].recordedAt] else before
  }

  predicate ClockRuns(attempts: seq<Attempt>) {
    && (forall i :: 0 <= i < |attempts| ==> attempts[i].checkedAt <= attempts[i].recordedAt)
    && (forall i, j :: 0 <= i < j < |attempts| ==> attempts[i].recordedAt <= attempts[j].checkedAt)
  }

  predicate NoneAccepted(start: Account, attempts: seq<Attempt>) {
    forall i :: 0 <= i < |attempts| ==> OutcomeAt(start, attempts, i) != Accepted
  }

  /** An active account with no failure on record, whether or not anybody has logged in before. */
  predicate Clean(a: Account) {
    a.active && a.failures == 0 && a.lockedUntil.None?
  }

  /** After failure `j`, the next one waits for the lock that `j` set. */
  predicate Spaced(times: seq<int>) {
    forall j :: LOCKOUT_THRESHOLD <= j <= 45 && j < |times| ==>
      LockoutDuration(j).Some? && times[j] - times[j - 1] >= LockoutDuration(j).value
  }

  /** What the account records of the failures so far. */
  predicate Records(a: Account, times: seq<int>) {
    && a.active
    && a.failures == (if |times| < 45 then |times| else 45)
    && (a.failures < LOCKOUT_THRESHOLD ==> a.lockedUntil.None?)
    && (a.failures >= LOCKOUT_THRESHOLD ==>
          LockoutDuration(a.failures).Some? && a.lockedUntil == Some(times[a.failures - 1] + LockoutDuration(a.failures).value))
  }

  lemma OneMoreAttempt(a: Account, times: seq<int>, t: Attempt)
    requires Records(a, times) && Spaced(times) && OutcomeOf(a, t) != Accepted
    requires t.checkedAt <= t.recordedAt && forall i :: 0 <= i < |times| ==> times[i] <= t.checkedAt
    ensures var after := if OutcomeOf(a, t) in {Refused, Failed} then times + [t.recordedAt] else times;
      Records(After(a, t), after) && Spaced(after)
  {
    LockDurations(if a.failures + 1 < LOCKOUT_THRESHOLD then LOCKOUT_THRESHOLD else a.failures + 1);
    if OutcomeOf(a, t) in {Refused, Failed} {
      var after := times + [t.recordedAt];
      assert forall i :: 0 <= i < |times| ==> after[i] == times[i];
    }
  }

  lemma {:induction false} RunRecords(start: Account, attempts: seq<Attempt>, n: nat)
    requires Clean(start) && ClockRuns(attempts) && NoneAccepted(start, attempts) && n <= |attempts|
    ensures var times := Evaluated(start, attempts, n);
      && Records(RunTo(start, attempts, n), times) && Spaced(times)
      && forall i, j :: 0 <= i < |times| && n <= j < |attempts| ==> times[i] <= attempts[j].checkedAt
  {
    if n > 0 {
      RunRecords(start, attempts, n - 1);
      assert OutcomeAt(start, attempts, n - 1) != Accepted;
      OneMoreAttempt(RunTo(start, attempts, n - 1), Evaluated(start, attempts, n - 1), attempts[n - 1]);
    }
  }

  lemma {:induction false} SpacesAddUp(times: seq<int>, k: nat)
    requires Spaced(times) && 10 <= k <= 46 && k <= |times|
    ensures times[k - 1] - times[4] >= (31 + 30 * (k - 10)) * MINUTE
  {
    if k == 10 {
      LockDurations(5);
      LockDurations(6);
      LockDurations(7);
      LockDurations(8);
      LockDurations(9);
      assert Pow2(0) == 1 && Pow2(1) == 2 && Pow2(2) == 4 && Pow2(3) == 8 && Pow2(4) == 16;
      assert times[5] - times[4] >= MINUTE && times[6] - times[5] >= 2 * MINUTE && times[7] - times[6] >= 4 * MINUTE;
      assert times[8] - times[7] >= 8 * MINUTE && times[9] - times[8] >= 16 * MINUTE;
    } else {
      SpacesAddUp(times, k - 1);
      LockDurations(k - 1);
      assert times[k - 1] - times[k - 2] >= 30 * MINUTE;
    }
  }

  /**
   * Guessing is slow: over every run of attempts on an account, none of them accepted, the k-th evaluated
   * wrong password comes at least 31 + 30 (k - 10) minutes after the fifth, for k from 10 to 46.
   */
  lemma GuessingIsSlow(start: Account, attempts: seq<Attempt>, k: nat)
    requires Clean(start) && ClockRuns(attempts) && NoneAccepted(start, attempts)
    requires 10 <= k <= 46 && k <= |Evaluated(start, attempts, |attempts|)|
    ensures var times := Evaluated(start, attempts, |attempts|);
      times[k - 1] - times[4] >= (31 + 30 * (k - 10)) * MINUTE
  {
    RunRecords(start, attempts, |attempts|);
    SpacesAddUp(Evaluated(start, attempts, |attempts|), k);
  }

  /** While an account is locked nothing changes it and nobody gets in, whatever the password. */
  lemma {:induction false} LockedAccountsStay(a: Account, attempts: seq<Attempt>, n: nat)
    requires n <= |attempts| && forall i :: 0 <= i < n ==> IsLocked(a, attempts[i].checkedAt)
    ensures RunTo(a, attempts, n) == a
    ensures forall i :: 0 <= i < n ==> OutcomeAt(a, attempts, i) == LockedOut
  {
    if n > 0 {
      LockedAccountsStay(a, attempts, n - 1);
    }
  }

  /**
   * A wrong password from the fifth on locks the account exactly when it is at most the
   * forty-fifth in a row. After that the duration overflows, the change is rolled back, and the
   * account stays as open as it was.
   */
  lemma FailureLocksIff(a: Account, t: Attempt)
    requires a.active && !IsLocked(a, t.checkedAt) && t.checkedAt <= t.recordedAt && !t.passwordOk
    requires a.failures + 1 >= LOCKOUT_THRESHOLD
    ensures IsLocked(After(a, t), t.recordedAt) <==> a.failures < 45
    ensures a.failures >= 45 ==> After(a, t) == a && OutcomeOf(a, t) == Failed
  {
    LockDurations(a.failures + 1);
    if a.failures < 9 {
      Pow2Grows(0, a.failures + 1 - LOCKOUT_THRESHOLD);
    }
  }

  /** So from forty-five failures on, wrong passwords are evaluated without any delay. */
  lemma {:induction false} NoLockPast45(a: Account, attempts: seq<Attempt>, n: nat)
    requires a.active && a.failures >= 45 && n <= |attempts|
    requires forall i :: 0 <= i < n ==> !attempts[i].passwordOk && !IsLocked(a, attempts[i].checkedAt)
    ensures RunTo(a, attempts, n) == a && |Evaluated(a, attempts, n)| == n
  {
    if n > 0 {
      NoLockPast45(a, attempts, n - 1);
      LockDurations(a.failures + 1);
    }
  }

  /** Forty-six wrong passwords, half an hour apart. */
  function SlowGuesses(): (attempts: seq<Attempt>)
    ensures |attempts| == 46
  {
    seq(46, i requires 0 <= i < 46 => Attempt(false, i * LOCKOUT_MAX, i * LOCKOUT_MAX))
  }

  lemma SlowGuess(a: Account, n: nat)
    requires n < 45 && a.active && a.failures == n && !IsLocked(a, n * LOCKOUT_MAX)
    requires n < LOCKOUT_THRESHOLD ==> a.lockedUntil.None?
    ensures var after := After(a, Attempt(false, n * LOCKOUT_MAX, n * LOCKOUT_MAX));
      && after.active && after.failures == n + 1 && !IsLocked(after, (n + 1) * LOCKOUT_MAX)
      && (n + 1 < LOCKOUT_THRESHOLD ==> after.lockedUntil.None?)
  {
    if n + 1 >= LOCKOUT_THRESHOLD {
      ShortLocks(n + 1);
    }
  }

  lemma {:induction false} SlowGuessesAreRecorded(n: nat)
    requires n <= 45
    ensures var a := RunTo(Account(0, None, true, None), SlowGuesses(), n);
      && a.active && a.failures == n && !IsLocked(a, n * LOCKOUT_MAX)
      && (n < LOCKOUT_THRESHOLD ==> a.lockedUntil.None?)
  {
    if n > 0 {
      SlowGuessesAreRecorded(n - 1);
      SlowGuess(RunTo(Account(0, None, true, None), SlowGuesses(), n - 1), n - 1);
    }
  }

  lemma ShortLocks(failures: nat)
    requires LOCKOUT_THRESHOLD <= failures <= 45
    ensures LockoutDuration(failures).Some? && LockoutDuration(failures).value <= LOCKOUT_MAX
  {
    LockDurations(failures);
  }

  /** A run that reaches forty-five recorded failures; the next wrong password locks nothing. */
  lemma OverflowExample()
    ensures var start := Account(0, None, true, None);
      && Clean(start) && RunTo(start, SlowGuesses(), 45).failures == 45
      && OutcomeAt(start, SlowGuesses(), 45) == Failed
      && !IsLocked(RunTo(start, SlowGuesses(), 46), SlowGuesses()[45].recordedAt)
  {
    SlowGuessesAreRecorded(45);
    FailureLocksIff(RunTo(Account(0, None, true, None), SlowGuesses(), 45), SlowGuesses()[45]);
  }
}
