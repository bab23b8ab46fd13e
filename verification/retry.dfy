/** The retry loop both portal scrapers wrap around a search: up to
    `maxRetries` attempts, a pause of (attempt + 1) * 2 seconds after every
    failed attempt but the last, and a fallback value once all have failed.
    An attempt is an oracle answer: `Some(v)` when the search returned `v`,
    `None` when it raised. */
module Backoff {
  import opened Wrappers

  /** The pauses after the first `n` failed attempts, in seconds. */
  function Pauses(n: nat): (r: seq<nat>)
    ensures |r| == n
  {
    seq(n, i requires 0 <= i < n => (i + 1) * 2)
  }

  /** The first attempt below `limit` that returns, if any. */
  function FirstSuccess<R>(outcomes: nat -> Option<R>, limit: nat): (r: Option<nat>)
    ensures r.Some? ==> r.value < limit && outcomes(r.value).Some? && forall a: nat :: a < r.value ==> outcomes(a).None?
    ensures r.None? ==> forall a: nat :: a < limit ==> outcomes(a).None?
  {
    if limit == 0 then None
    else
      var r := FirstSuccess(outcomes, limit - 1);
      if r.Some? then r
      else if outcomes(limit - 1).Some? then Some(limit - 1)
      else None
  }

  /** The retry loop: the first attempt that returns wins, after a pause
      following each earlier failure; when every attempt fails the
      fallback is returned after `maxRetries - 1` pauses (none at all when
      no attempt is allowed). */
  method Retry<R>(outcomes: nat -> Option<R>, maxRetries: nat, fallback: R) returns (r: R, pauses: seq<nat>)
    ensures forall i :: 0 <= i < |pauses| ==> pauses[i] == (i + 1) * 2
    ensures FirstSuccess(outcomes, maxRetries).Some? ==>
              r == outcomes(FirstSuccess(outcomes, maxRetries).value).value &&
              |pauses| == FirstSuccess(outcomes, maxRetries).value
    ensures FirstSuccess(outcomes, maxRetries).None? ==>
              r == fallback && |pauses| == (if maxRetries == 0 then 0 else maxRetries - 1)
    ensures maxRetries > 0 && outcomes(0).Some? ==> r == outcomes(0).value && pauses == []
  {
    pauses := [];
    var attempt: nat := 0;
    while attempt < maxRetries
      invariant attempt <= maxRetries
      invariant maxRetries == 0 || attempt < maxRetries
      invariant forall a: nat :: a < attempt ==> outcomes(a).None?
      invariant pauses == Pauses(attempt)
    {
      var outcome := outcomes(attempt);
      if outcome.Some? {
        assert FirstSuccess(outcomes, maxRetries) == Some(attempt);
        return outcome.value, pauses;
      }
      if attempt < maxRetries - 1 {
        pauses := pauses + [(attempt + 1) * 2];
        assert pauses == Pauses(attempt + 1);
      } else {
        assert FirstSuccess(outcomes, maxRetries).None?;
        return fallback, pauses;
      }
      attempt := attempt + 1;
    }
    return fallback, pauses;
  }
}
