/**
 The in-memory cache of reviews, filled by at most one fetch at a time.  Callers, the end of a
 fetch and the clean-up behind it interleave in any order the promises allow.
 */
module ReviewCache {
  import opened Common

  type Time = int
  type Value = string

  const CACHE_TTL_MS := 12 * 60 * 60 * 1000
  const FAILURE_RETRY_MS := 15 * 60 * 1000

  datatype Entry = Entry(value: Option<Value>, expiresAt: Time)

  /**
   `cache` and `inFlight` are the service's own fields.  `fetching` counts the fetches that Google
   has not answered yet, `cleaning` the answered ones whose clean-up has still to run.
   */
  datatype State = State(cache: Option<Entry>, inFlight: bool, fetching: nat, cleaning: nat)

  datatype Event = Get(now: Time) | Settle(now: Time, value: Option<Value>) | Clear

  const Fresh := State(None, false, 0, 0)

  function Expiry(now: Time, value: Option<Value>): Time {
    now + if value.Some? then CACHE_TTL_MS else FAILURE_RETRY_MS
  }

  /** A fetch settles once, and its clean-up follows. */
  predicate Possible(s: State, e: Event) {
    match e
    case Get(_) => true
    case Settle(_, _) => s.fetching > 0
    case Clear => s.cleaning > 0
  }

  predicate ServesCache(s: State, now: Time) {
    s.cache.Some? && s.cache.value.expiresAt > now
  }

  predicate StartsFetch(s: State, e: Event) {
    e.Get? && !ServesCache(s, e.now) && !s.inFlight
  }

  function Next(s: State, e: Event): State {
    match e
    case Get(now) => if StartsFetch(s, e) then s.(inFlight := true, fetching := s.fetching + 1) else s
    case Settle(now, value) =>
      if s.fetching == 0 then s
      else State(Some(Entry(value, Expiry(now, value))), s.inFlight, s.fetching - 1, s.cleaning + 1)
    case Clear => if s.cleaning == 0 then s else s.(inFlight := false, cleaning := s.cleaning - 1)
  }

  function Run(events: seq<Event>): State {
    if events == [] then Fresh else Next(Run(events[..|events| - 1]), events[|events| - 1])
  }

  predicate PossibleAt(events: seq<Event>, i: nat)
    requires i < |events|
  {
    Possible(Run(events[..i]), events[i])
  }

  ghost predicate Feasible(events: seq<Event>) {
    forall i | 0 <= i < |events| :: PossibleAt(events, i)
  }

  predicate Starts(events: seq<Event>, i: nat)
    requires i < |events|
  {
    StartsFetch(Run(events[..i]), events[i])
  }

  lemma RunStep(events: seq<Event>, i: nat)
    requires i < |events|
    ensures Run(events[..i + 1]) == Next(Run(events[..i]), events[i])
  {
    assert events[..i + 1][..i] == events[..i];
  }

  /** Whoever calls whenever: at most one fetch is in flight, and the field says so. */
  lemma {:induction false} SingleFlight(events: seq<Event>)
    ensures var s := Run(events); s.fetching + s.cleaning == (if s.inFlight then 1 else 0)
    decreases |events|
  {
    if events != [] {
      SingleFlight(events[..|events| - 1]);
    }
  }

  /** The last answer before an operation, if any. */
  ghost predicate LastSettle(events: seq<Event>, k: nat, i: nat) {
    && k < i <= |events| && events[k].Settle?
    && forall j | k < j < i :: !events[j].Settle?
  }

  /** The cache holds the last answer. */
  lemma {:induction false} CacheIsLastAnswer(events: seq<Event>, k: nat, i: nat)
    requires Feasible(events) && LastSettle(events, k, i)
    ensures Run(events[..i]).cache == Some(Entry(events[k].value, Expiry(events[k].now, events[k].value)))
    decreases i
  {
    RunStep(events, i - 1);
    assert PossibleAt(events, i - 1);
    if k < i - 1 {
      CacheIsLastAnswer(events, k, i - 1);
    }
  }

  /** While a fetch that was started has not been answered, none other starts. */
  lemma {:induction false} UnansweredBlocks(events: seq<Event>, i: nat, j: nat)
    requires i < j <= |events| && Starts(events, i)
    requires forall k | i < k < j :: !events[k].Settle?
    ensures Run(events[..j]).fetching == 1 && Run(events[..j]).inFlight
    decreases j
  {
    RunStep(events, j - 1);
    SingleFlight(events[..j - 1]);
    if j - 1 > i {
      UnansweredBlocks(events, i, j - 1);
    }
  }

  lemma {:induction false} FindLastSettle(events: seq<Event>, i: nat, j: nat) returns (k: nat)
    requires i < j <= |events|
    requires exists k :: i < k < j && events[k].Settle?
    ensures i < k && LastSettle(events, k, j)
    decreases j
  {
    if events[j - 1].Settle? {
      k := j - 1;
    } else {
      k := FindLastSettle(events, i, j - 1);
    }
  }

  /**
   A second fetch starts only after an answer to the first one arrived and expired: half a day
   after a success, a quarter of an hour after a failure.
   */
  lemma NextFetchWaits(events: seq<Event>, i: nat, j: nat) returns (k: nat)
    requires Feasible(events) && i < j < |events| && Starts(events, i) && Starts(events, j)
    ensures i < k < j && LastSettle(events, k, j)
    ensures events[j].now - events[k].now >= if events[k].value.Some? then 43_200_000 else 900_000
  {
    if forall k | i < k < j :: !events[k].Settle? {
      UnansweredBlocks(events, i, j);
      assert false;
    }
    k := FindLastSettle(events, i, j);
    CacheIsLastAnswer(events, k, j);
  }

  function TimeOf(e: Event): Option<Time> {
    match e
    case Get(now) => Some(now)
    case Settle(now, _) => Some(now)
    case Clear => None
  }

  ghost predicate ClockRuns(events: seq<Event>) {
    forall i, j | 0 <= i < j < |events| && TimeOf(events[i]).Some? && TimeOf(events[j]).Some? ::
      TimeOf(events[i]).value <= TimeOf(events[j]).value
  }

  /** So however many callers there are, Google is asked at most once in a quarter of an hour. */
  lemma FetchesAreSpaced(events: seq<Event>, i: nat, j: nat)
    requires Feasible(events) && ClockRuns(events) && i < j < |events| && Starts(events, i) && Starts(events, j)
    ensures events[j].now - events[i].now >= 900_000
  {
    var k := NextFetchWaits(events, i, j);
    assert TimeOf(events[i]).Some? && TimeOf(events[k]).Some?;
  }

  // ----- When a fetch starts -----

  function Settles(events: seq<Event>): nat {
    if events == [] then 0 else Settles(events[..|events| - 1]) + if events[|events| - 1].Settle? then 1 else 0
  }

  function Clears(events: seq<Event>): nat {
    if events == [] then 0 else Clears(events[..|events| - 1]) + if events[|events| - 1].Clear? then 1 else 0
  }

  function Fetches(events: seq<Event>): nat {
    if events == [] then 0 else Fetches(events[..|events| - 1]) + if Starts(events, |events| - 1) then 1 else 0
  }

  lemma FeasiblePrefix(events: seq<Event>, i: nat)
    requires Feasible(events) && i <= |events|
    ensures Feasible(events[..i])
  {
    forall j | 0 <= j < i ensures PossibleAt(events[..i], j) {
      assert events[..i][..j] == events[..j];
      assert PossibleAt(events, j);
    }
  }

  /** Every fetch is answered once and cleaned up once, and nothing is cached before the first answer. */
  lemma {:induction false} Ledger(events: seq<Event>)
    requires Feasible(events)
    ensures Fetches(events) == Settles(events) + Run(events).fetching
    ensures Settles(events) == Clears(events) + Run(events).cleaning
    ensures Settles(events) == 0 ==> Run(events).cache.None?
    decreases |events|
  {
    if events != [] {
      var n := |events| - 1;
      FeasiblePrefix(events, n);
      Ledger(events[..n]);
      assert PossibleAt(events, n);
    }
  }

  /** An answer needs a fetch that is not answered yet, a clean-up one that is answered. */
  lemma PossibleIff(events: seq<Event>, e: Event)
    requires Feasible(events)
    ensures Possible(Run(events), e)
            <==> && (e.Settle? ==> Settles(events) < Fetches(events))
                 && (e.Clear? ==> Clears(events) < Settles(events))
  {
    Ledger(events);
  }

  /** A caller starts a fetch exactly when the cache does not serve and all earlier fetches were cleaned up. */
  lemma FetchStartsIff(events: seq<Event>, i: nat)
    requires Feasible(events) && i < |events|
    ensures Starts(events, i)
            <==> events[i].Get? && !ServesCache(Run(events[..i]), events[i].now)
                 && Fetches(events[..i]) == Clears(events[..i])
  {
    FeasiblePrefix(events, i);
    Ledger(events[..i]);
    SingleFlight(events[..i]);
  }

  // ----- The service -----

  datatype Answer = Cached(value: Option<Value>) | Pending

  /** A caller is served the last answer until exactly its expiry, and otherwise waits for a fetch. */
  lemma ServedIff(events: seq<Event>, k: nat, i: nat)
    requires Feasible(events) && LastSettle(events, k, i) && i < |events| && events[i].Get?
    ensures ServesCache(Run(events[..i]), events[i].now)
            <==> events[i].now - events[k].now < if events[k].value.Some? then 43_200_000 else 900_000
    ensures !ServesCache(Run(events[..i]), events[i].now) ==>
              var s := Run(events[..i + 1]); s.inFlight && s.fetching + s.cleaning == 1
  {
    CacheIsLastAnswer(events, k, i);
    RunStep(events, i);
    SingleFlight(events[..i + 1]);
  }

  class GoogleReviewsService {
    var cache: Option<Entry>
    var inFlight: bool
    ghost var fetching: nat
    ghost var cleaning: nat

    constructor ()
      ensures Now() == Fresh
    {
      cache, inFlight, fetching, cleaning := None, false, 0, 0;
    }

    ghost function Now(): State
      reads this
    {
      State(cache, inFlight, fetching, cleaning)
    }

    method GetReviews(now: Time) returns (answer: Answer)
      modifies this
      ensures Now() == Next(old(Now()), Get(now))
      ensures answer == if ServesCache(old(Now()), now) then Cached(old(cache).value.value) else Pending
      ensures answer.Pending? ==> inFlight
    {
      if cache.Some? && cache.value.expiresAt > now {
        return Cached(cache.value.value);
      }
      if !inFlight {
        inFlight := true;
        fetching := fetching + 1;
      }
      return Pending;
    }

    /** A fetch ends; a failed one ends with no value. */
    method OnSettled(now: Time, value: Option<Value>)
      requires Possible(Now(), Settle(now, value))
      modifies this
      ensures Now() == Next(old(Now()), Settle(now, value))
    {
      cache := Some(Entry(value, now + if value.Some? then CACHE_TTL_MS else FAILURE_RETRY_MS));
      fetching, cleaning := fetching - 1, cleaning + 1;
    }

    method OnCleared()
      requires Possible(Now(), Clear)
      modifies this
      ensures Now() == Next(old(Now()), Clear)
    {
      inFlight := false;
      cleaning := cleaning - 1;
    }
  }
}
