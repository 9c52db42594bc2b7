/** The stored failure count behind the password prompt and the second factor
    (internal/auth/manager.go: confirmPassword, Verify2FA, handleFailedLogin).  Times are
    nanoseconds; attempts on one account follow one another. */
module Lockout {
  import opened Wrappers

  const MAX_FAILED_ATTEMPTS: nat := 5
  const LOCKOUT_DURATION: nat := 900_000_000_000

  /** failed_attempts and locked_until of a users row. */
  datatype Counter = Counter(failed: nat, lockedUntil: Option<int>)

  predicate Locked(c: Counter, now: int) {
    c.lockedUntil.Some? && now < c.lockedUntil.value
  }

  /** handleFailedLogin at `now`. */
  function Failed(c: Counter, now: int): Counter {
    Counter(c.failed + 1, if c.failed + 1 >= MAX_FAILED_ATTEMPTS then Some(now + LOCKOUT_DURATION) else None)
  }

  /** What an attempt meets.  `checked` is when the lock is consulted and `counted` when a
      failure is written down; `issues` is whether the session can be issued in the end. */
  datatype Attempt =
    | Password(checked: int, counted: int, gateBusy: bool, matches: bool, disabled: bool)
    | Code(checked: int, counted: int, decrypts: bool, enrolled: bool, totpMatches: bool,
           hasRecoveryCodes: bool, gateBusy: bool, recoveryMatches: bool, writes: bool, disabled: bool,
           issues: bool)

  /** `WrongUncounted` is a code that was compared and found wrong, and the attempt then
      refused as busy before it was counted. */
  datatype Outcome = RefusedLocked | NotCompared | NoSecret | WrongCounted | WrongUncounted | RightKept | RightReset

  function OutcomeOf(c: Counter, a: Attempt): Outcome {
    if Locked(c, a.checked) then RefusedLocked
    else
      match a
      case Password(_, _, gateBusy, matches, disabled) =>
        if gateBusy then NotCompared
        else if !matches then WrongCounted
        else if disabled then RightKept
        else RightReset
      case Code(_, _, decrypts, enrolled, totpMatches, hasRecoveryCodes, gateBusy, recoveryMatches, writes, disabled,
          _) =>
        if !decrypts then NotCompared
        else if !enrolled then NoSecret
        else if totpMatches then if !writes || disabled then RightKept else RightReset
        else if !hasRecoveryCodes then WrongCounted
        else if gateBusy then WrongUncounted
        else if !recoveryMatches then WrongCounted
        else if !writes || disabled then RightKept
        else RightReset
  }

  function After(c: Counter, a: Attempt): Counter {
    match OutcomeOf(c, a)
    case WrongCounted => Failed(c, a.counted)
    case NoSecret => Failed(c, a.counted)
    case RightReset => Counter(0, None)
    case _ => c
  }

  // ----- The code -----

  class Account {
    var failed: nat
    var lockedUntil: Option<int>

    ghost function Stored(): Counter
      reads this
    {
      Counter(failed, lockedUntil)
    }

    constructor ()
      ensures Stored() == Counter(0, None)
    {
      failed, lockedUntil := 0, None;
    }

    /** handleFailedLogin.  `currentAttempts` is the count the caller read: the stored one goes
        up by one whatever it was, and the lock follows the count that was read. */
    method HandleFailedLogin(currentAttempts: nat, now: int)
      modifies this
      ensures failed == old(failed) + 1
      ensures lockedUntil == if currentAttempts + 1 >= MAX_FAILED_ATTEMPTS then Some(now + LOCKOUT_DURATION) else None
      ensures currentAttempts == old(failed) ==> Stored() == Failed(old(Stored()), now)
    {
      var until: Option<int> := None;
      if currentAttempts + 1 >= MAX_FAILED_ATTEMPTS {
        until := Some(now + LOCKOUT_DURATION);
      }
      failed, lockedUntil := failed + 1, until;
    }

    method ResetFailedAttempts()
      modifies this
      ensures Stored() == Counter(0, None)
    {
      failed, lockedUntil := 0, None;
    }

    /** confirmPassword. */
    method ConfirmPassword(a: Attempt) returns (ok: bool)
      requires a.Password?
      modifies this
      ensures Stored() == After(old(Stored()), a) && (ok <==> OutcomeOf(old(Stored()), a) == RightReset)
      ensures var locked := old(lockedUntil).Some? && a.checked < old(lockedUntil).value;
              && (ok <==> !locked && !a.gateBusy && a.matches && !a.disabled)
              && (ok ==> failed == 0 && lockedUntil == None)
              && (!locked && !a.gateBusy && !a.matches ==>
                    && failed == old(failed) + 1
                    && lockedUntil == if failed >= 5 then Some(a.counted + LOCKOUT_DURATION) else None)
              && (locked || a.gateBusy || (a.matches && a.disabled) ==> Stored() == old(Stored()))
    {
      if lockedUntil.Some? && a.checked < lockedUntil.value {
        return false;
      }
      if a.gateBusy {
        return false;
      }
      if !a.matches {
        HandleFailedLogin(failed, a.counted);
        return false;
      }
      if a.disabled {
        return false;
      }
      ResetFailedAttempts();
      return true;
    }

    /** Verify2FA past the challenge, with acceptCode and completeSecondFactor.  The count is
        cleared before the session is issued, and stays cleared if it cannot be. */
    method CheckCode(a: Attempt) returns (ok: bool)
      requires a.Code?
      modifies this
      ensures Stored() == After(old(Stored()), a)
      ensures ok <==> OutcomeOf(old(Stored()), a) == RightReset && a.issues
      ensures var locked := old(lockedUntil).Some? && a.checked < old(lockedUntil).value;
              var recovers := a.hasRecoveryCodes && !a.gateBusy && a.recoveryMatches;
              var right := !locked && a.decrypts && a.enrolled && (a.totpMatches || recovers);
              var busy := !a.totpMatches && a.hasRecoveryCodes && a.gateBusy;
              && (ok <==> right && a.writes && !a.disabled && a.issues)
              && (right && a.writes && !a.disabled ==> failed == 0 && lockedUntil == None)
              && (!locked && a.decrypts && (!a.enrolled || !(a.totpMatches || recovers || busy)) ==>
                    && failed == old(failed) + 1
                    && lockedUntil == if failed >= 5 then Some(a.counted + LOCKOUT_DURATION) else None)
              && (locked || !a.decrypts || (a.enrolled && busy) || (right && !(a.writes && !a.disabled)) ==>
                    Stored() == old(Stored()))
    {
      if lockedUntil.Some? && a.checked < lockedUntil.value {
        return false;
      }
      if !a.decrypts {
        return false;
      }
      if !a.enrolled {
        HandleFailedLogin(failed, a.counted);
        return false;
      }
      var accepted := a.totpMatches;
      if !accepted && a.hasRecoveryCodes {
        if a.gateBusy {
          return false;
        }
        accepted := a.recoveryMatches;
      }
      if !accepted {
        HandleFailedLogin(failed, a.counted);
        return false;
      }
      if !a.writes || a.disabled {
        return false;
      }
      ResetFailedAttempts();
      return a.issues;
    }
  }

  // ----- Runs of attempts -----

  function CounterAfter(c: Counter, run: seq<Attempt>): Counter {
    if run == [] then c else After(CounterAfter(c, run[..|run| - 1]), run[|run| - 1])
  }

  function OutcomeAt(c: Counter, run: seq<Attempt>, k: nat): Outcome
    requires k < |run|
  {
    OutcomeOf(CounterAfter(c, run[..k]), run[k])
  }

  /** One attempt after the other, none of which clears the count. */
  ghost predicate BetweenResets(c: Counter, run: seq<Attempt>) {
    && (forall k :: 0 <= k < |run| ==> run[k].checked <= run[k].counted)
    && (forall i, k :: 0 <= i < k < |run| ==> run[i].counted <= run[k].checked)
    && (forall k :: 0 <= k < |run| ==> OutcomeAt(c, run, k) != RightReset)
  }

  predicate InPeriod(a: Attempt, start: int, length: nat) {
    start <= a.checked <= start + length
  }

  predicate Compared(o: Outcome) {
    o == WrongCounted || o == WrongUncounted
  }

  /** The wrong guesses compared in the period among the first `n` attempts. */
  function GuessesIn(c: Counter, run: seq<Attempt>, n: nat, start: int, length: nat): nat
    requires n <= |run|
  {
    if n == 0 then 0
    else GuessesIn(c, run, n - 1, start, length)
         + if InPeriod(run[n - 1], start, length) && Compared(OutcomeAt(c, run, n - 1)) then 1 else 0
  }

  /** Those counted before the account locks, and those that lock it. */
  function EarlyIn(c: Counter, run: seq<Attempt>, n: nat, start: int, length: nat): nat
    requires n <= |run|
  {
    if n == 0 then 0
    else EarlyIn(c, run, n - 1, start, length)
         + if InPeriod(run[n - 1], start, length) && OutcomeAt(c, run, n - 1) == WrongCounted
              && CounterAfter(c, run[..n - 1]).failed + 1 < MAX_FAILED_ATTEMPTS then 1 else 0
  }

  function LockingIn(c: Counter, run: seq<Attempt>, n: nat, start: int, length: nat): nat
    requires n <= |run|
  {
    if n == 0 then 0
    else LockingIn(c, run, n - 1, start, length)
         + if InPeriod(run[n - 1], start, length) && OutcomeAt(c, run, n - 1) == WrongCounted
              && CounterAfter(c, run[..n - 1]).failed + 1 >= MAX_FAILED_ATTEMPTS then 1 else 0
  }

  /** A wrong code meets a busy hash gate: the account is not locked, has a readable factor
      and recovery codes, the code is not the authenticator's, and no slot came free to
      compare it with the recovery codes in. */
  predicate MeetsBusyGate(c: Counter, a: Attempt) {
    !Locked(c, a.checked) && a.Code? && a.decrypts && a.enrolled && !a.totpMatches && a.hasRecoveryCodes && a.gateBusy
  }

  /** The wrong codes of the period that met a busy gate. */
  function UncountedIn(c: Counter, run: seq<Attempt>, n: nat, start: int, length: nat): nat
    requires n <= |run|
  {
    if n == 0 then 0
    else UncountedIn(c, run, n - 1, start, length)
         + if InPeriod(run[n - 1], start, length)
             && MeetsBusyGate(CounterAfter(c, run[..n - 1]), run[n - 1]) then 1 else 0
  }

  /** These are the guesses that are compared and leave the counter alone. */
  lemma UncountedExactlyWhenGateBusy(c: Counter, a: Attempt)
    ensures OutcomeOf(c, a) == WrongUncounted <==> MeetsBusyGate(c, a)
    ensures Compared(OutcomeOf(c, a)) && After(c, a) == c <==> MeetsBusyGate(c, a)
  {
  }

  lemma {:induction false} GuessesSplit(c: Counter, run: seq<Attempt>, n: nat, start: int, length: nat)
    requires n <= |run|
    ensures GuessesIn(c, run, n, start, length)
         == EarlyIn(c, run, n, start, length) + LockingIn(c, run, n, start, length) + UncountedIn(c, run, n, start,
             length)
  {
    if n > 0 {
      GuessesSplit(c, run, n - 1, start, length);
      UncountedExactlyWhenGateBusy(CounterAfter(c, run[..n - 1]), run[n - 1]);
    }
  }

  lemma {:induction false} EarlyBound(c: Counter, run: seq<Attempt>, n: nat, start: int, length: nat)
    requires n <= |run| && BetweenResets(c, run)
    ensures EarlyIn(c, run, n, start, length) <= CounterAfter(c, run[..n]).failed
    ensures EarlyIn(c, run, n, start, length) <= MAX_FAILED_ATTEMPTS - 1
  {
    if n > 0 {
      assert run[..n][..n - 1] == run[..n - 1];
      hide OutcomeOf, InPeriod;
      EarlyBound(c, run, n - 1, start, length);
      assert OutcomeAt(c, run, n - 1) != RightReset;
    }
  }

  lemma UnlockedWhenCounted(c: Counter, a: Attempt)
    requires OutcomeOf(c, a) != RightReset
    ensures After(c, a) == c || (After(c, a) == Failed(c, a.counted) && !Locked(c, a.checked))
    ensures OutcomeOf(c, a) == WrongCounted ==> After(c, a) == Failed(c, a.counted) && !Locked(c, a.checked)
  {
  }

  /** Every locking guess of the period moves the lock a whole lockout further from its start. */
  lemma {:induction false} LockingBound(c: Counter, run: seq<Attempt>, n: nat, start: int, length: nat)
    requires n <= |run| && BetweenResets(c, run)
    ensures var l, now := LockingIn(c, run, n, start, length), CounterAfter(c, run[..n]);
            l > 0 ==> && now.failed >= MAX_FAILED_ATTEMPTS && now.lockedUntil.Some?
                      && now.lockedUntil.value >= start + l * LOCKOUT_DURATION
                      && (l - 1) * LOCKOUT_DURATION <= length
  {
    if n > 0 {
      assert run[..n][..n - 1] == run[..n - 1];
      LockingBound(c, run, n - 1, start, length);
      assert OutcomeAt(c, run, n - 1) != RightReset;
      hide OutcomeOf, After;
      UnlockedWhenCounted(CounterAfter(c, run[..n - 1]), run[n - 1]);
    }
  }

  /** The guess rate.  In every run between two resets of the count, the wrong passwords and
      codes compared within any period number at most MaxFailedAttempts, one more for every
      whole lockout in it, and the codes of that period that met a busy hash gate. */
  lemma GuessRate(c: Counter, run: seq<Attempt>, start: int, length: nat)
    requires BetweenResets(c, run)
    ensures GuessesIn(c, run, |run|, start, length)
         <= MAX_FAILED_ATTEMPTS + length / LOCKOUT_DURATION + UncountedIn(c, run, |run|, start, length)
  {
    GuessesSplit(c, run, |run|, start, length);
    EarlyBound(c, run, |run|, start, length);
    LockingBound(c, run, |run|, start, length);
  }

  /** So the promised bound holds of every period in which no wrong code meets a busy gate,
      whatever happens before and after it. */
  lemma GuessRateWhileGateFree(c: Counter, run: seq<Attempt>, start: int, length: nat)
    requires BetweenResets(c, run)
    requires forall k ::
              0 <= k < |run| && InPeriod(run[k], start, length) ==> !MeetsBusyGate(CounterAfter(c, run[..k]), run[k])
    ensures GuessesIn(c, run, |run|, start, length) <= MAX_FAILED_ATTEMPTS + length / LOCKOUT_DURATION
  {
    GuessRate(c, run, start, length);
    NoneUncounted(c, run, |run|, start, length);
  }

  lemma {:induction false} NoneUncounted(c: Counter, run: seq<Attempt>, n: nat, start: int, length: nat)
    requires n <= |run|
    requires forall k ::
              0 <= k < n && InPeriod(run[k], start, length) ==> !MeetsBusyGate(CounterAfter(c, run[..k]), run[k])
    ensures UncountedIn(c, run, n, start, length) == 0
  {
    if n > 0 { NoneUncounted(c, run, n - 1, start, length); }
  }

  function BusyCode(at: int): Attempt {
    Code(at, at, true, true, false, true, true, false, true, false, true)
  }

  /** With the gate busy throughout, any number of codes is compared at one instant. */
  lemma {:induction false} BusyGateLiftsTheBound(n: nat)
    ensures var run := seq(n, _ => BusyCode(0));
            && BetweenResets(Counter(0, None), run)
            && GuessesIn(Counter(0, None), run, n, 0, 0) == n
            && CounterAfter(Counter(0, None), run) == Counter(0, None)
  {
    var c, run := Counter(0, None), seq(n, _ => BusyCode(0));
    forall k | 0 <= k <= n ensures CounterAfter(c, run[..k]) == c { BusyKeepsCounter(run, k); }
    assert run[..n] == run;
    BusyCounts(run, n);
  }

  lemma {:induction false} BusyKeepsCounter(run: seq<Attempt>, k: nat)
    requires k <= |run| && forall i :: 0 <= i < |run| ==> run[i] == BusyCode(0)
    ensures CounterAfter(Counter(0, None), run[..k]) == Counter(0, None)
  {
    if k > 0 {
      assert run[..k][..k - 1] == run[..k - 1];
      BusyKeepsCounter(run, k - 1);
    }
  }

  lemma {:induction false} BusyCounts(run: seq<Attempt>, k: nat)
    requires k <= |run| && forall i :: 0 <= i < |run| ==> run[i] == BusyCode(0)
    ensures GuessesIn(Counter(0, None), run, k, 0, 0) == k
  {
    if k > 0 {
      BusyCounts(run, k - 1);
      BusyKeepsCounter(run, k - 1);
    }
  }

  // ----- The bound is tight -----

  function WrongPassword(at: int): Attempt {
    Password(at, at, false, false, false)
  }

  /** When the `i`-th wrong password of the worst run is tried: five at once, and then one
      whenever the lock ends. */
  function WrongAt(i: nat): int {
    if i + 1 < MAX_FAILED_ATTEMPTS then 0 else (i + 1 - MAX_FAILED_ATTEMPTS) * LOCKOUT_DURATION
  }

  /** `busy` codes under a busy gate, and then `n` wrong passwords as fast as can be. */
  function WorstRun(busy: nat, n: nat): seq<Attempt> {
    if n == 0 then seq(busy, _ => BusyCode(0)) else WorstRun(busy, n - 1) + [WrongPassword(WrongAt(n - 1))]
  }

  /** The worst run as far as it has come: counter, times and counts. */
  ghost predicate IsWorst(run: seq<Attempt>, busy: nat, n: nat, length: nat) {
    && BetweenResets(Counter(0, None), run) && |run| == busy + n
    && CounterAfter(Counter(0, None), run)
       == Counter(n, if n < MAX_FAILED_ATTEMPTS then None else Some(WrongAt(n - 1) + LOCKOUT_DURATION))
    && CountedBy(run, if n == 0 then 0 else WrongAt(n - 1))
    && GuessesIn(Counter(0, None), run, |run|, 0, length) == busy + n
    && UncountedIn(Counter(0, None), run, |run|, 0, length) == busy
  }

  lemma {:induction false} CountsOfPrefix(c: Counter, run: seq<Attempt>, a: Attempt, n: nat, start: int, length: nat)
    requires n <= |run|
    ensures GuessesIn(c, run + [a], n, start, length) == GuessesIn(c, run, n, start, length)
    ensures UncountedIn(c, run + [a], n, start, length) == UncountedIn(c, run, n, start, length)
  {
    if n > 0 {
      CountsOfPrefix(c, run, a, n - 1, start, length);
      assert (run + [a])[..n - 1] == run[..n - 1];
    }
  }

  lemma BetweenResetsExtends(c: Counter, run: seq<Attempt>, a: Attempt)
    requires BetweenResets(c, run) && a.checked <= a.counted && OutcomeOf(CounterAfter(c, run), a) != RightReset
    requires forall k :: 0 <= k < |run| ==> run[k].counted <= a.checked
    ensures BetweenResets(c, run + [a])
  {
    var all := run + [a];
    assert all[..|run|] == run;
    forall k | 0 <= k < |all| ensures OutcomeAt(c, all, k) != RightReset {
      if k < |run| { assert all[..k] == run[..k] && OutcomeAt(c, run, k) != RightReset; }
    }
  }

  lemma {:induction false} WorstRunIsWorst(busy: nat, n: nat, length: nat)
    requires n > 0 ==> WrongAt(n - 1) <= length
    ensures IsWorst(WorstRun(busy, n), busy, n, length)
  {
    if n == 0 {
      BusyStart(busy, length);
    } else {
      hide WrongAt, IsWorst;
      WrongAtGrows(n - 1);
      WorstRunIsWorst(busy, n - 1, length);
      WorstStep(WorstRun(busy, n - 1), busy, n - 1, length);
    }
  }

  lemma WrongAtGrows(i: nat)
    ensures 0 <= WrongAt(i) && (i > 0 ==> WrongAt(i - 1) <= WrongAt(i))
    ensures i >= MAX_FAILED_ATTEMPTS ==> WrongAt(i) == WrongAt(i - 1) + LOCKOUT_DURATION
  {
  }

  ghost predicate CountedBy(run: seq<Attempt>, t: int) {
    forall k :: 0 <= k < |run| ==> run[k].counted <= t
  }

  lemma CountedByExtends(run: seq<Attempt>, a: Attempt, t: int)
    requires CountedBy(run, t) && t <= a.checked <= a.counted
    ensures CountedBy(run + [a], a.counted) && forall k :: 0 <= k < |run| ==> run[k].counted <= a.checked
  {
  }

  lemma OneMoreGuess(c: Counter, run: seq<Attempt>, a: Attempt, start: int, length: nat)
    requires OutcomeOf(CounterAfter(c, run), a) == WrongCounted && !MeetsBusyGate(CounterAfter(c, run), a)
    requires InPeriod(a, start, length)
    ensures CounterAfter(c, run + [a]) == After(CounterAfter(c, run), a)
    ensures GuessesIn(c, run + [a], |run| + 1, start, length) == GuessesIn(c, run, |run|, start, length) + 1
    ensures UncountedIn(c, run + [a], |run| + 1, start, length) == UncountedIn(c, run, |run|, start, length)
  {
    assert (run + [a])[..|run|] == run;
    CountsOfPrefix(c, run, a, |run|, start, length);
    hide OutcomeOf, After, MeetsBusyGate;
  }

  lemma WorstStep(run: seq<Attempt>, busy: nat, n: nat, length: nat)
    requires IsWorst(run, busy, n, length) && WrongAt(n) <= length
    ensures IsWorst(run + [WrongPassword(WrongAt(n))], busy, n + 1, length)
  {
    var c, a := Counter(0, None), WrongPassword(WrongAt(n));
    NextWrong(n);
    WrongAtGrows(n);
    hide WrongAt, OutcomeOf, After, MeetsBusyGate, CounterAfter, GuessesIn, UncountedIn, BetweenResets, CountedBy;
    CountedByExtends(run, a, if n == 0 then 0 else WrongAt(n - 1));
    OneMoreGuess(c, run, a, 0, length);
    BetweenResetsExtends(c, run, a);
  }

  /** A wrong password tried just when the lock ends. */
  lemma NextWrong(n: nat)
    ensures var c := Counter(n, if n < MAX_FAILED_ATTEMPTS then None else Some(WrongAt(n - 1) + LOCKOUT_DURATION));
            var a := WrongPassword(WrongAt(n));
            && OutcomeOf(c, a) == WrongCounted && !MeetsBusyGate(c, a)
            && After(c, a) == Counter(n + 1, if n + 1 < MAX_FAILED_ATTEMPTS then None
                else Some(WrongAt(n) + LOCKOUT_DURATION))
  {
    WrongAtGrows(n);
    hide WrongAt;
  }

  lemma BusyStart(busy: nat, length: nat)
    ensures IsWorst(WorstRun(busy, 0), busy, 0, length)
  {
    var run := WorstRun(busy, 0);
    BusyGateLiftsTheBound(busy);
    BusyUncounted(run, busy, length);
  }

  lemma {:induction false} BusyUncounted(run: seq<Attempt>, k: nat, length: nat)
    requires k <= |run| && forall i :: 0 <= i < |run| ==> run[i] == BusyCode(0)
    ensures GuessesIn(Counter(0, None), run, k, 0, length) == k
    ensures UncountedIn(Counter(0, None), run, k, 0, length) == k
  {
    if k > 0 {
      BusyUncounted(run, k - 1, length);
      BusyKeepsCounter(run, k - 1);
    }
  }

  /** For any period and any number of codes that met a busy gate in it there is a run that
      makes as many guesses as GuessRate allows. */
  lemma GuessRateIsTight(busy: nat, length: nat) returns (run: seq<Attempt>)
    ensures BetweenResets(Counter(0, None), run)
    ensures UncountedIn(Counter(0, None), run, |run|, 0, length) == busy
    ensures GuessesIn(Counter(0, None), run, |run|, 0, length) == MAX_FAILED_ATTEMPTS + length / LOCKOUT_DURATION + busy
  {
    var n := MAX_FAILED_ATTEMPTS + length / LOCKOUT_DURATION;
    assert WrongAt(n - 1) == length / LOCKOUT_DURATION * LOCKOUT_DURATION <= length;
    WorstRunIsWorst(busy, n, length);
    run := WorstRun(busy, n);
    hide BetweenResets, GuessesIn, UncountedIn, WorstRun;
  }

  /** Every period of this length in which this many codes met a busy gate is within the bound
      on guesses. */
  ghost predicate AllWithinBound(busy: nat, length: nat) {
    forall c, run, start | BetweenResets(c, run) && UncountedIn(c, run, |run|, start, length) == busy ::
      GuessesIn(c, run, |run|, start, length) <= MAX_FAILED_ATTEMPTS + length / LOCKOUT_DURATION
  }

  /** That is so exactly when none did. */
  lemma WithinBoundExactlyWhenGateFree(busy: nat, length: nat)
    ensures AllWithinBound(busy, length) <==> busy == 0
  {
    if busy == 0 {
      forall c, run, start | BetweenResets(c, run) && UncountedIn(c, run, |run|, start, length) == 0
        ensures GuessesIn(c, run, |run|, start, length) <= MAX_FAILED_ATTEMPTS + length / LOCKOUT_DURATION
      {
        GuessRate(c, run, start, length);
      }
    } else {
      var run := GuessRateIsTight(busy, length);
    }
  }
}
