/**
 * `airos_connect`: up to nine guarded attempts to open an SSH session to
 * the device and, only if all nine fail with a retried SSH error, a tenth
 * unguarded one. An authentication failure is
 * re-raised at once, any other SSH failure is reported and followed by a
 * two-second sleep before the next attempt, and an error that is not an SSH
 * error is not caught at all. The outcome of the n-th attempt to build the
 * client is a parameter: the network is not part of this model.
 */
module Connect {

  /** What one attempt to build the SSH client ends in. */
  datatype Outcome =
    | Connected      // the client object is returned
    | AuthFailure    // paramiko's AuthenticationException
    | SshFailure     // any other SSHException
    | OtherFailure   // an exception outside the SSHException hierarchy

  /** Attempts made inside the guarded loop. */
  const GuardedAttempts: nat := 9

  /** Seconds slept after each retried SSH failure. */
  const RetryDelay: nat := 2

  /**
   * What a call does: how many attempts it made, how many seconds it slept,
   * and the outcome the caller sees (a client or the exception raised).
   */
  datatype Trace = Trace(attempts: nat, slept: nat, outcome: Outcome)

  /**
   * The calls from attempt `n` on: the guarded attempts retry only on an
   * SSH failure that is not an authentication failure; the last attempt is
   * not guarded.
   */
  function Tries(attempt: nat -> Outcome, n: nat): (t: Trace)
    requires n <= GuardedAttempts
    ensures n < t.attempts <= GuardedAttempts + 1
    ensures t.outcome == attempt(t.attempts - 1)
    ensures t.slept == RetryDelay * (t.attempts - 1)
    ensures forall j :: n <= j < t.attempts - 1 ==> attempt(j) == SshFailure
    ensures t.attempts <= GuardedAttempts ==> t.outcome != SshFailure
    decreases GuardedAttempts - n
  {
    if n == GuardedAttempts then Trace(n + 1, RetryDelay * n, attempt(n))
    else match attempt(n)
      case SshFailure => Tries(attempt, n + 1)
      case other => Trace(n + 1, RetryDelay * n, other)
  }

  /**
   * The whole call: one to ten attempts, every one before the last a
   * retried SSH failure, two seconds of sleep after each of those, and the
   * last attempt's outcome for the caller, which is an SSH failure only when
   * it is the tenth.
   */
  function Connection(attempt: nat -> Outcome): (t: Trace)
    ensures 1 <= t.attempts <= GuardedAttempts + 1
    ensures t.slept == RetryDelay * (t.attempts - 1)
    ensures forall j :: 0 <= j < t.attempts - 1 ==> attempt(j) == SshFailure
    ensures t.outcome == attempt(t.attempts - 1)
    ensures t.attempts <= GuardedAttempts ==> t.outcome != SshFailure
  {
    Tries(attempt, 0)
  }

  /**
   * The connection loop. It makes at most ten attempts and sleeps after
   * every attempt but the last one; every attempt before the last one failed
   * with a retried SSH error; the caller sees the last attempt's outcome,
   * which is a retried SSH error only when it is the tenth.
   */
  method AirosConnect(attempt: nat -> Outcome) returns (outcome: Outcome, attempts: nat, slept: nat)
    ensures 1 <= attempts <= GuardedAttempts + 1
    ensures slept == RetryDelay * (attempts - 1)
    ensures forall j :: 0 <= j < attempts - 1 ==> attempt(j) == SshFailure
    ensures outcome == attempt(attempts - 1)
    ensures attempts <= GuardedAttempts ==> outcome != SshFailure
    ensures Trace(attempts, slept, outcome) == Connection(attempt)
  {
    slept := 0;
    var n := 0;
    while n < GuardedAttempts
      invariant n <= GuardedAttempts
      invariant slept == RetryDelay * n
      invariant forall j :: 0 <= j < n ==> attempt(j) == SshFailure
      invariant Tries(attempt, n) == Connection(attempt)
    {
      var result := attempt(n);
      match result {
        case AuthFailure =>
          // re-raised at once
          return result, n + 1, slept;
        case SshFailure =>
          // reported, then a pause before the next attempt
          slept := slept + RetryDelay;
        case Connected =>
          return result, n + 1, slept;
        case OtherFailure =>
          // not caught: propagates to the caller
          return result, n + 1, slept;
      }
      n := n + 1;
    }
    outcome := attempt(GuardedAttempts);
    attempts := GuardedAttempts + 1;
  }

  /**
   * The call is determined by its number of attempts: it makes exactly `k`
   * attempts when the first `k - 1` failed with retried SSH errors and the
   * `k`-th did not, or `k` is ten.
   */
  lemma AttemptsExactly(attempt: nat -> Outcome, k: nat)
    ensures Connection(attempt).attempts == k <==>
      1 <= k <= GuardedAttempts + 1
      && (forall j :: 0 <= j < k - 1 ==> attempt(j) == SshFailure)
      && (k <= GuardedAttempts ==> attempt(k - 1) != SshFailure)
  {
  }

  /** A rejected password is raised from the first attempt, with no sleep. */
  lemma AuthFailureIsImmediate(attempt: nat -> Outcome)
    requires attempt(0) == AuthFailure
    ensures Connection(attempt) == Trace(1, 0, AuthFailure)
  {
  }

  /** An error outside the SSH hierarchy is not retried. */
  lemma OtherFailureIsNotRetried(attempt: nat -> Outcome, k: nat)
    requires k < GuardedAttempts && attempt(k) == OtherFailure
    requires forall j :: 0 <= j < k ==> attempt(j) == SshFailure
    ensures Connection(attempt) == Trace(k + 1, RetryDelay * k, OtherFailure)
  {
    AttemptsExactly(attempt, k + 1);
  }

  /**
   * After nine retried SSH errors the tenth attempt is unguarded: whatever it
   * ends in, including another SSH error, is what the caller sees, after
   * eighteen seconds of sleep.
   */
  lemma TenthAttemptUnguarded(attempt: nat -> Outcome)
    requires forall j :: 0 <= j < GuardedAttempts ==> attempt(j) == SshFailure
    ensures Connection(attempt) == Trace(10, 18, attempt(9))
  {
    AttemptsExactly(attempt, GuardedAttempts + 1);
  }
}
