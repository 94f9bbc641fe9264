/** The bypass routes a router serves while resolving them may fail. */
module BypassCache {
  import opened Wrappers

  const STARTUP_RETRIES := 5

  /** What one attempt to resolve the bypass returns: its routes, or a failure. */
  type Outcome<Routes> = Option<Routes>

  /** The routes of the latest attempt that succeeded. */
  function Latest<Routes>(attempts: seq<Outcome<Routes>>): Option<Routes> {
    if attempts == [] then None
    else if attempts[|attempts| - 1].Some? then attempts[|attempts| - 1]
    else Latest(attempts[..|attempts| - 1])
  }

  /** Attempt `i` succeeded, and none after it. */
  lemma {:induction false} LatestIs<Routes>(attempts: seq<Outcome<Routes>>, i: nat)
    requires i < |attempts| && attempts[i].Some? && forall k :: i < k < |attempts| ==> attempts[k].None?
    ensures Latest(attempts) == attempts[i]
  {
    if i == |attempts| - 1 {
    } else {
      LatestIs(attempts[..|attempts| - 1], i);
    }
  }

  /** One attempt where there is something to fall back on, else up to the first success. */
  ghost predicate StopsAfter<Routes>(outcomes: seq<Outcome<Routes>>, made: nat, cached: bool)
    requires |outcomes| == STARTUP_RETRIES
  {
    && 1 <= made <= STARTUP_RETRIES
    && (if cached then made == 1 else made == STARTUP_RETRIES || outcomes[made - 1].Some?)
    && forall k :: 0 <= k < made - 1 ==> outcomes[k].None?
  }

  class RouterState<Route> {
    var cache: Option<seq<Route>>
    /** Every attempt made so far. */
    ghost var attempts: seq<Outcome<seq<Route>>>

    ghost predicate Valid()
      reads this
    {
      cache == Latest(attempts)
    }

    constructor ()
      ensures Valid() && attempts == []
    {
      cache, attempts := None, [];
    }

    /** Serves the latest routes that were ever resolved, none only while nothing ever was. A single
        attempt is made once something was resolved; before, up to five, until one succeeds. */
    method CurrentBypassRoutes(outcomes: seq<Outcome<seq<Route>>>) returns (routes: seq<Route>)
      requires Valid() && |outcomes| == STARTUP_RETRIES
      modifies this
      ensures Valid()
      ensures exists made: nat ::
        StopsAfter(outcomes, made, old(cache).Some?) && attempts == old(attempts) + outcomes[..made]
      ensures 1 <= |attempts| - |old(attempts)| <= 5
      ensures |attempts| - |old(attempts)| < 5 ==> old(cache).Some? || attempts[|attempts| - 1].Some?
      ensures routes == if Latest(attempts).Some? then Latest(attempts).value else []
    {
      ghost var before := attempts;
      for attempt := 1 to STARTUP_RETRIES + 1
        invariant Valid() && cache == old(cache)
        invariant attempts == before + outcomes[..attempt - 1]
        invariant forall k :: 0 <= k < attempt - 1 ==> outcomes[k].None?
        invariant attempt > 1 ==> cache.None?
        invariant attempt <= STARTUP_RETRIES
      {
        attempts := attempts + [outcomes[attempt - 1]];
        assert attempts[..|attempts| - 1] == before + outcomes[..attempt - 1];
        assert attempts == before + outcomes[..attempt];
        assert StopsAfter(outcomes, attempt, old(cache).Some?) <==>
          (cache.Some? || outcomes[attempt - 1].Some? || attempt == STARTUP_RETRIES);
        if outcomes[attempt - 1].Some? {
          cache := outcomes[attempt - 1];
          return cache.value;
        }
        if cache.Some? {
          return cache.value;
        }
        if attempt == STARTUP_RETRIES {
          return [];
        }
      }
    }
  }
}
