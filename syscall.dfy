/**
 * `_libc_call`: call a libc function, hand back its return code unless it is -1,
 * try again when the failure was an interrupted system call, and raise `OSError`
 * with the error number otherwise. The foreign function is replaced by the
 * sequence of outcomes its successive calls produce.
 */
module Syscall {
  import opened Wire

  /** `errno.EINTR` on Linux. */
  const EINTR := 4

  /** What one call of the foreign function gives: its return code and the `errno` read after it. */
  datatype Outcome = Outcome(rc: i32, errno: int)

  /** How `_libc_call` ends, or that the outcomes ran out while every call was interrupted. */
  datatype CallResult = Returned(rc: i32) | Raised(errno: int) | Exhausted

  /** A call after which the loop stops: a return code other than -1, or an errno other than EINTR. */
  predicate Settles(o: Outcome) {
    o.rc != -1 || o.errno != EINTR
  }

  /** How a settling call ends `_libc_call`. */
  function Verdict(o: Outcome): (r: CallResult)
    requires Settles(o)
    ensures r != Exhausted
  {
    if o.rc != -1 then Returned(o.rc) else Raised(o.errno)
  }

  /** k is the first call that settles: every earlier call failed with EINTR. */
  predicate FirstSettled(outcomes: seq<Outcome>, k: nat) {
    k < |outcomes| && Settles(outcomes[k]) && forall j :: 0 <= j < k ==> !Settles(outcomes[j])
  }

  /** The retry policy, one outcome at a time. */
  function Retry(outcomes: seq<Outcome>): CallResult {
    if outcomes == [] then Exhausted
    else if Settles(outcomes[0]) then Verdict(outcomes[0])
    else Retry(outcomes[1..])
  }

  /** The result is decided by the first call that settles. */
  lemma {:induction false} RetryFirst(outcomes: seq<Outcome>, k: nat)
    requires FirstSettled(outcomes, k)
    ensures Retry(outcomes) == Verdict(outcomes[k])
  {
    if k > 0 {
      assert !Settles(outcomes[0]);
      assert FirstSettled(outcomes[1..], k - 1) by {
        forall j | 0 <= j < k - 1 ensures !Settles(outcomes[1..][j]) {
          assert outcomes[1..][j] == outcomes[j + 1];
        }
      }
      RetryFirst(outcomes[1..], k - 1);
    }
  }

  /** The outcomes run out exactly when every call failed with EINTR. */
  lemma {:induction false} RetryExhausted(outcomes: seq<Outcome>)
    ensures Retry(outcomes) == Exhausted <==> forall j :: 0 <= j < |outcomes| ==> !Settles(outcomes[j])
  {
    if outcomes != [] {
      RetryExhausted(outcomes[1..]);
      if !Settles(outcomes[0]) {
        assert forall j :: 1 <= j < |outcomes| ==> outcomes[j] == outcomes[1..][j - 1];
      }
    }
  }

  /** A returned code is never -1, a raised errno is never EINTR, and each comes from the first call that settles. */
  lemma {:induction false} RetryOutcome(outcomes: seq<Outcome>)
    ensures Retry(outcomes).Returned? ==> Retry(outcomes).rc != -1
    ensures Retry(outcomes).Raised? ==> Retry(outcomes).errno != EINTR
    ensures Retry(outcomes) != Exhausted ==> exists k: nat :: FirstSettled(outcomes, k) && Retry(outcomes) == Verdict(outcomes[k])
  {
    if outcomes != [] && !Settles(outcomes[0]) {
      RetryOutcome(outcomes[1..]);
      if Retry(outcomes) != Exhausted {
        var k: nat :| FirstSettled(outcomes[1..], k) && Retry(outcomes[1..]) == Verdict(outcomes[1..][k]);
        assert outcomes[k + 1] == outcomes[1..][k];
        assert FirstSettled(outcomes, k + 1) by {
          forall j | 0 <= j < k + 1 ensures !Settles(outcomes[j]) {
            if j > 0 {
              assert outcomes[j] == outcomes[1..][j - 1];
            }
          }
        }
      }
    } else if outcomes != [] {
      assert FirstSettled(outcomes, 0);
    }
  }

  /** Once a call settles, later outcomes are never consulted. */
  lemma {:induction false} RetryExtend(outcomes: seq<Outcome>, more: seq<Outcome>)
    requires Retry(outcomes) != Exhausted
    ensures Retry(outcomes + more) == Retry(outcomes)
  {
    assert (outcomes + more)[0] == outcomes[0];
    if !Settles(outcomes[0]) {
      assert (outcomes + more)[1..] == outcomes[1..] + more;
      RetryExtend(outcomes[1..], more);
    }
  }

  /**
   * The `while True` loop of `_libc_call`, drawing each call's outcome from outcomes.
   * calls is how many calls were made.
   */
  method LibcCall(outcomes: seq<Outcome>) returns (r: CallResult, calls: nat)
    ensures r == Retry(outcomes)
    ensures r != Exhausted ==> 0 < calls && FirstSettled(outcomes, calls - 1)
    ensures r == Exhausted ==> calls == |outcomes|
  {
    calls := 0;
    while calls < |outcomes|
      invariant calls <= |outcomes|
      invariant forall j :: 0 <= j < calls ==> !Settles(outcomes[j])
      invariant Retry(outcomes[calls..]) == Retry(outcomes)
    {
      var o := outcomes[calls];
      assert outcomes[calls..][1..] == outcomes[calls + 1..];
      calls := calls + 1;
      if o.rc != -1 {
        return Returned(o.rc), calls;
      }
      if o.errno != EINTR {
        return Raised(o.errno), calls;
      }
    }
    assert outcomes[calls..] == [];
    return Exhausted, calls;
  }
}
