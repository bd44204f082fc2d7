/**
 `llm/config_store.py`: the process-wide TTL cache with double-checked locking. Tasks interleave at
 awaits only; saves, invalidations and the monotonic clock move at any time in between.
 */
module ConfigCache {
  import opened Wrappers

  type Task = nat

  /** A configuration as callers see it: `None` for an empty table (and for a failed fetch). */
  type Row = Option<string>

  const TTL := 60

  /** A task inside `get_llm_config`, suspended at an await. */
  datatype Local =
    | Waiting                      // missed on the fast path, queued for the lock
    | Fetching(got: Option<Row>)   // holds the lock, inside `_fetch_from_db`; `got` once the row was read

  /**
   The globals `_cache_ts`, `_cache_val` and the lock, with the database row, the clock, the tasks
   that are inside the function, and the number of fetches started.
   */
  datatype State = State(
    now: int, db: Row, ts: int, val: Row, holder: Option<Task>, tasks: map<Task, Local>, fetches: nat)

  datatype Event =
    | FastHit(t: Task)                // returns the cached value without the lock
    | FastMiss(t: Task)
    | AcquireHit(t: Task)             // the re-check under the lock succeeds
    | AcquireMiss(t: Task)            // the re-check fails: a fetch starts
    | ReadRow(t: Task, failed: bool)  // the query of the fetch; a failure is swallowed and gives `None`
    | Publish(t: Task)                // value and timestamp assigned with no await in between
    | CancelWait(t: Task)
    | CancelFetch(t: Task)            // releases the lock
    | Save(row: Row)
    | Invalidate
    | Tick(d: nat)

  predicate Fresh(s: State) { s.now - s.ts < TTL }

  predicate IsWaiting(s: State, t: Task) { t in s.tasks && s.tasks[t].Waiting? }
  predicate IsFetching(s: State, t: Task) { t in s.tasks && s.tasks[t].Fetching? }

  /** The fetch of `t` has its row and will publish it. */
  predicate HasRow(s: State, t: Task) { IsFetching(s, t) && s.tasks[t].got.Some? }

  predicate Enabled(s: State, e: Event) {
    match e
    case FastHit(t) => t !in s.tasks && Fresh(s)
    case FastMiss(t) => t !in s.tasks && !Fresh(s)
    case AcquireHit(t) => IsWaiting(s, t) && s.holder == None && Fresh(s)
    case AcquireMiss(t) => IsWaiting(s, t) && s.holder == None && !Fresh(s)
    case ReadRow(t, _) => IsFetching(s, t) && s.tasks[t].got == None
    case Publish(t) => HasRow(s, t)
    case CancelWait(t) => IsWaiting(s, t)
    case CancelFetch(t) => IsFetching(s, t)
    case Save(_) => true
    case Invalidate => true
    case Tick(_) => true
  }

  /** What the query of a fetch yields. */
  function RowRead(s: State, failed: bool): Row {
    if failed then None else s.db
  }

  function Step(s: State, e: Event): State
    requires Enabled(s, e)
  {
    match e
    case FastHit(_) => s
    case FastMiss(t) => s.(tasks := s.tasks[t := Waiting])
    case AcquireHit(t) => s.(tasks := s.tasks - {t})
    case AcquireMiss(t) => s.(holder := Some(t), tasks := s.tasks[t := Fetching(None)], fetches := s.fetches + 1)
    case ReadRow(t, failed) => s.(tasks := s.tasks[t := Fetching(Some(RowRead(s, failed)))])
    case Publish(t) => s.(val := s.tasks[t].got.value, ts := s.now, holder := None, tasks := s.tasks - {t})
    case CancelWait(t) => s.(tasks := s.tasks - {t})
    case CancelFetch(t) => s.(holder := None, tasks := s.tasks - {t})
    case Save(row) => s.(db := row)
    case Invalidate => s.(ts := 0)
    case Tick(d) => s.(now := s.now + d)
  }

  /** What `get_llm_config` returns at this event, if the event is a return. */
  function Returned(s: State, e: Event): Option<Row>
    requires Enabled(s, e)
  {
    match e
    case FastHit(_) => Some(s.val)
    case AcquireHit(_) => Some(s.val)
    case Publish(t) => Some(s.tasks[t].got.value)
    case _ => None
  }

  /** The process starts with `_cache_ts = 0.0` and `_cache_val = None`. */
  predicate Initial(s: State) {
    s.now >= 0 && s.ts == 0 && s.val == None && s.holder == None && s.tasks == map[] && s.fetches == 0
  }

  ghost predicate Run(states: seq<State>, events: seq<Event>) {
    && |states| == |events| + 1
    && forall k | 0 <= k < |events| :: Enabled(states[k], events[k]) && states[k + 1] == Step(states[k], events[k])
  }

  // ---------------------------------------------------------------------------------------
  // The invariant
  // ---------------------------------------------------------------------------------------

  /** Exactly the holder of the lock fetches, and the clock has reached the TTL. */
  ghost predicate Inv(s: State) {
    && s.now >= TTL && 0 <= s.ts <= s.now
    && (forall t | t in s.tasks :: s.tasks[t].Fetching? <==> s.holder == Some(t))
    && (s.holder.Some? ==> s.holder.value in s.tasks)
  }

  lemma StepKeepsInv(s: State, e: Event)
    requires Inv(s) && Enabled(s, e)
    ensures Inv(Step(s, e))
  {}

  lemma {:induction false} RunKeepsInv(states: seq<State>, events: seq<Event>)
    requires Run(states, events) && Initial(states[0]) && states[0].now >= TTL
    ensures forall k | 0 <= k < |states| :: Inv(states[k])
  {
    for n := 0 to |events|
      invariant forall k | 0 <= k <= n :: Inv(states[k])
    {
      StepKeepsInv(states[n], events[n]);
    }
  }

  /** At most one fetch is ever in flight. */
  lemma OneFetchInFlight(states: seq<State>, events: seq<Event>, k: nat, t: Task, u: Task)
    requires Run(states, events) && Initial(states[0]) && states[0].now >= TTL && k < |states|
    requires IsFetching(states[k], t) && IsFetching(states[k], u)
    ensures t == u
  {
    RunKeepsInv(states, events);
    assert Inv(states[k]);
  }

  // ---------------------------------------------------------------------------------------
  // How old a returned value can be
  // ---------------------------------------------------------------------------------------

  /** Neither a start nor an end of a fetch. */
  predicate Inside(e: Event) { !e.AcquireMiss? && !e.Publish? && !e.CancelFetch? }

  /** One whole fetch of the run: task `t` starts it at `i`, reads the row at `r` and publishes it at `j`. */
  ghost predicate IsFetch(events: seq<Event>, t: Task, i: nat, r: nat, j: nat) {
    && i < r < j < |events|
    && events[i] == AcquireMiss(t) && events[r].ReadRow? && events[r].t == t && events[j] == Publish(t)
    && (forall m | i < m < j :: Inside(events[m]))
    && (forall m | i < m < j && m != r :: !events[m].ReadRow?)
  }

  ghost predicate NoPublish(events: seq<Event>, j: int, k: int) {
    forall m | j < m < k && 0 <= m < |events| :: !events[m].Publish?
  }

  /** What the fetch in flight did so far: it started at `i` and, if it has a row, read it at `r`. */
  ghost predicate IsOpenFetch(states: seq<State>, events: seq<Event>, t: Task, i: nat, r: nat, k: nat)
    requires k < |states| && |states| == |events| + 1 && IsFetching(states[k], t)
  {
    && i < k && events[i] == AcquireMiss(t)
    && (forall m | i < m < k :: Inside(events[m]))
    && (forall m | i < m < k && events[m].ReadRow? :: m == r)
    && match states[k].tasks[t].got
       case None => r == i
       case Some(row) =>
         i < r < k && events[r].ReadRow? && events[r].t == t && row == RowRead(states[r], events[r].failed)
  }

  lemma {:induction false} FetchHistory(states: seq<State>, events: seq<Event>, k: nat, t: Task)
      returns (i: nat, r: nat)
    requires Run(states, events) && Initial(states[0]) && states[0].now >= TTL
    requires k < |states| && IsFetching(states[k], t)
    ensures IsOpenFetch(states, events, t, i, r, k)
    decreases k
  {
    RunKeepsInv(states, events);
    var n := k - 1;
    assert Inv(states[n]) && Enabled(states[n], events[n]) && states[k] == Step(states[n], events[n]);
    if events[n] == AcquireMiss(t) {
      i, r := n, n;
    } else {
      i, r := FetchHistory(states, events, n, t);
      if events[n].ReadRow? {
        r := n;
      }
    }
  }

  /** A cache with a timestamp holds what the last publication of the run put there. */
  lemma {:induction false} CacheHistory(states: seq<State>, events: seq<Event>, k: nat)
      returns (t: Task, i: nat, r: nat, j: nat)
    requires Run(states, events) && Initial(states[0]) && states[0].now >= TTL
    requires k < |states| && states[k].ts != 0
    ensures IsFetch(events, t, i, r, j) && j < k && NoPublish(events, j, k)
    ensures states[k].ts == states[j].now && states[k].val == RowRead(states[r], events[r].failed)
    decreases k
  {
    var n := k - 1;
    assert Enabled(states[n], events[n]) && states[k] == Step(states[n], events[n]);
    if events[n].Publish? {
      t, j := events[n].t, n;
      i, r := FetchHistory(states, events, n, t);
    } else {
      t, i, r, j := CacheHistory(states, events, n);
    }
  }

  lemma {:induction false} ClockIsMonotone(states: seq<State>, events: seq<Event>, n: nat)
    requires Run(states, events) && n <= |events|
    ensures forall k, m | 0 <= k <= m <= n :: states[k].now <= states[m].now
    decreases n
  {
    if n > 0 {
      ClockIsMonotone(states, events, n - 1);
      assert states[n] == Step(states[n - 1], events[n - 1]);
    }
  }

  /**
   Whatever a call returns was read by one fetch of the run, the last one published: it is the row of
   the moment of that read (or stands for its failure), and the read is less than one TTL plus the
   duration of that very fetch ago.
   */
  lemma ReturnsAreRecent(states: seq<State>, events: seq<Event>, k: nat) returns (t: Task, i: nat, r: nat, j: nat)
    requires Run(states, events) && Initial(states[0]) && states[0].now >= TTL && k < |events|
    requires Returned(states[k], events[k]).Some?
    ensures IsFetch(events, t, i, r, j) && j <= k && NoPublish(events, j, k)
    ensures Returned(states[k], events[k]) == Some(if events[r].failed then None else states[r].db)
    ensures states[i].now <= states[r].now <= states[j].now <= states[k].now
    ensures states[k].now - states[r].now < 60 + (states[j].now - states[i].now)
    ensures j < k ==> states[k].now - states[j].now < 60
  {
    RunKeepsInv(states, events);
    assert Inv(states[k]) && Enabled(states[k], events[k]);
    if events[k].Publish? {
      t, j := events[k].t, k;
      i, r := FetchHistory(states, events, k, t);
    } else {
      t, i, r, j := CacheHistory(states, events, k);
    }
    ClockIsMonotone(states, events, k);
  }

  // ---------------------------------------------------------------------------------------
  // Misses share one fetch
  // ---------------------------------------------------------------------------------------

  function Count(events: seq<Event>, n: nat): nat
    requires n <= |events|
  {
    if n == 0 then 0 else Count(events, n - 1) + if events[n - 1].CancelFetch? then 1 else 0
  }

  /**
   From any reachable stale state with no fetch in flight, as long as nobody invalidates and the clock
   advances by less than the TTL, all the tasks together start at most one fetch (one more per
   cancelled fetch).
   */
  lemma {:induction false} MissesShareOneFetch(states: seq<State>, events: seq<Event>, n: nat)
    requires Run(states, events) && Inv(states[0]) && n <= |events|
    requires states[0].holder == None && !Fresh(states[0])
    requires forall k | 0 <= k < n :: !events[k].Invalidate?
    requires states[n].now - states[0].now < TTL
    ensures states[n].fetches <= states[0].fetches + 1 + Count(events, n)
  {
    ClockIsMonotone(states, events, n);
    for k := 0 to n
      invariant Inv(states[k])
      invariant states[k].holder.Some? ==> states[k].fetches <= states[0].fetches + 1 + Count(events, k)
      invariant states[k].holder.None? && states[k].ts < states[0].now ==>
                  states[k].fetches <= states[0].fetches + Count(events, k)
      invariant states[k].ts >= states[0].now ==>
                  states[k].holder.None? && states[k].fetches <= states[0].fetches + 1 + Count(events, k)
    {
      assert states[k + 1] == Step(states[k], events[k]);
      StepKeepsInv(states[k], events[k]);
      assert states[0].now <= states[k].now <= states[n].now;
    }
  }

  // ---------------------------------------------------------------------------------------
  // Invalidation
  // ---------------------------------------------------------------------------------------

  /** A return of the run hands out what a query of the same run read before. */
  ghost predicate WasReadSince(states: seq<State>, events: seq<Event>, m: nat, row: Row) {
    exists r | 0 <= r < m && r < |events| && r < |states| ::
      events[r].ReadRow? && row == if events[r].failed then None else states[r].db
  }

  /**
   An invalidation in `s` works: whatever happens from then on, every call returns a row that was read,
   and hence current, after the invalidation (or stands for a read that failed after it).
   */
  ghost predicate InvalidationWorks(s: State) {
    forall states, events | Run(states, events) && states[0] == Step(s, Invalidate) ::
      forall m | 0 <= m < |events| && Returned(states[m], events[m]).Some? ::
        WasReadSince(states, events, m, Returned(states[m], events[m]).value)
  }

  /** The clock has reached the TTL, and no fetch has read its row but not yet published it. */
  predicate NothingStale(s: State) {
    s.now >= TTL && forall t | t in s.tasks :: !HasRow(s, t)
  }

  /** Everything that can still be handed out was read since the run began. */
  ghost predicate AllNew(states: seq<State>, events: seq<Event>, k: nat)
    requires k < |states|
  {
    && states[k].now >= TTL
    && (states[k].ts == 0 || WasReadSince(states, events, k, states[k].val))
    && (forall t | t in states[k].tasks && HasRow(states[k], t) ::
          WasReadSince(states, events, k, states[k].tasks[t].got.value))
  }

  lemma ReadStaysRead(states: seq<State>, events: seq<Event>, k: nat)
    requires k < |events| < |states|
    ensures forall row | WasReadSince(states, events, k, row) :: WasReadSince(states, events, k + 1, row)
    ensures events[k].ReadRow? ==> WasReadSince(states, events, k + 1, RowRead(states[k], events[k].failed))
  {}

  lemma StepKeepsAllNew(states: seq<State>, events: seq<Event>, k: nat)
    requires Run(states, events) && k < |events| && AllNew(states, events, k)
    ensures AllNew(states, events, k + 1)
  {
    hide WasReadSince;
    ReadStaysRead(states, events, k);
    var s, e := states[k], events[k];
    assert Enabled(s, e) && states[k + 1] == Step(s, e);
  }

  lemma {:induction false} AllNewThroughout(states: seq<State>, events: seq<Event>, s: State)
    requires Run(states, events) && states[0] == Step(s, Invalidate) && NothingStale(s)
    ensures forall k | 0 <= k < |states| :: AllNew(states, events, k)
  {
    hide WasReadSince;
    for n := 0 to |events|
      invariant forall k | 0 <= k <= n :: AllNew(states, events, k)
    {
      StepKeepsAllNew(states, events, n);
    }
  }

  /** Some task is not inside the function. */
  lemma {:induction false} SomeoneIsOutside(inside: set<Task>) returns (t: Task)
    ensures forall u | u in inside :: u < t
    decreases inside
  {
    if inside == {} {
      t := 0;
    } else {
      var u :| u in inside;
      var low := SomeoneIsOutside(inside - {u});
      t := if u < low then low else u + 1;
      forall v | v in inside ensures v < t {
        assert v == u || v in inside - {u};
      }
    }
  }

  lemma NothingStaleWorks(s: State)
    requires NothingStale(s)
    ensures InvalidationWorks(s)
  {
    forall states, events | Run(states, events) && states[0] == Step(s, Invalidate)
      ensures forall m | 0 <= m < |events| && Returned(states[m], events[m]).Some? ::
                WasReadSince(states, events, m, Returned(states[m], events[m]).value)
    {
      AllNewThroughout(states, events, s);
      hide WasReadSince;
      forall m | 0 <= m < |events| && Returned(states[m], events[m]).Some?
        ensures WasReadSince(states, events, m, Returned(states[m], events[m]).value)
      {
        assert AllNew(states, events, m) && Enabled(states[m], events[m]);
      }
    }
  }

  /** One step after the invalidation is enough to fail: a hit on a young clock, or the publication. */
  lemma StaleFails(s: State) returns (e: Event)
    requires !NothingStale(s)
    ensures Enabled(Step(s, Invalidate), e) && Returned(Step(s, Invalidate), e).Some?
    ensures !InvalidationWorks(s)
  {
    if s.now < TTL {
      var t := SomeoneIsOutside(s.tasks.Keys);
      e := FastHit(t);
    } else {
      var t :| t in s.tasks && HasRow(s, t);
      e := Publish(t);
    }
    var s' := Step(s, Invalidate);
    var states, events := [s', Step(s', e)], [e];
    assert Run(states, events) && states[0] == s';
    assert Returned(states[0], events[0]).Some?;
    assert !WasReadSince(states, events, 0, Returned(states[0], events[0]).value);
  }

  /**
   "The next request re-reads the database" holds after an invalidation exactly when the clock has
   reached the TTL and no fetch in flight has its row already.
   */
  lemma InvalidationWorksIff(s: State)
    ensures InvalidationWorks(s) <==> NothingStale(s)
  {
    hide InvalidationWorks;
    if NothingStale(s) {
      NothingStaleWorks(s);
    } else {
      var e := StaleFails(s);
    }
  }

  /**
   A run on a clock below the TTL: a configuration is saved and the cache invalidated, and still the
   next caller is told that the table is empty.
   */
  lemma YoungClockHidesTheRow(row: string) returns (states: seq<State>, events: seq<Event>)
    ensures Run(states, events) && Initial(states[0])
    ensures events == [Save(Some(row)), Invalidate, FastHit(0)]
    ensures states[2].db == Some(row) && Returned(states[2], events[2]) == Some(None)
  {
    events := [Save(Some(row)), Invalidate, FastHit(0)];
    var s0 := State(10, None, 0, None, None, map[], 0);
    var s1 := Step(s0, events[0]);
    var s2 := Step(s1, events[1]);
    states := [s0, s1, s2, s2];
  }

  /**
   A run on an old clock: a save and invalidation arrive after the fetch read its row and before it
   publishes, and almost one TTL later the old row is still handed out.
   */
  lemma InvalidationDuringFetchIsLost(before: Row, after: Row) returns (states: seq<State>, events: seq<Event>)
    ensures Run(states, events) && Initial(states[0]) && states[0].now >= TTL
    ensures events == [FastMiss(0), AcquireMiss(0), ReadRow(0, false), Save(after), Invalidate,
                       Publish(0), Tick(TTL - 1), FastHit(1)]
    ensures states[7].db == after && Returned(states[7], events[7]) == Some(before)
  {
    events := [FastMiss(0), AcquireMiss(0), ReadRow(0, false), Save(after), Invalidate,
               Publish(0), Tick(TTL - 1), FastHit(1)];
    var s0 := State(TTL, before, 0, None, None, map[], 0);
    var s1 := s0.(tasks := map[0 := Waiting]);
    var s2 := s0.(holder := Some(0), tasks := map[0 := Fetching(None)], fetches := 1);
    var s3 := s2.(tasks := map[0 := Fetching(Some(before))]);
    var s4 := s3.(db := after);
    var s6 := State(TTL, after, TTL, before, None, map[], 1);
    var s7 := s6.(now := TTL + TTL - 1);
    states := [s0, s1, s2, s3, s4, s4, s6, s7, s7];
    StepsOfLostInvalidation(before, after, s0, s1, s2, s3, s4, s6, s7);
  }

  lemma StepsOfLostInvalidation(
    before: Row, after: Row, s0: State, s1: State, s2: State, s3: State, s4: State, s6: State, s7: State)
    requires s0 == State(TTL, before, 0, None, None, map[], 0)
    requires s1 == s0.(tasks := map[0 := Waiting])
    requires s2 == s0.(holder := Some(0), tasks := map[0 := Fetching(None)], fetches := 1)
    requires s3 == s2.(tasks := map[0 := Fetching(Some(before))])
    requires s4 == s3.(db := after)
    requires s6 == State(TTL, after, TTL, before, None, map[], 1)
    requires s7 == s6.(now := TTL + TTL - 1)
    ensures Enabled(s0, FastMiss(0)) && Step(s0, FastMiss(0)) == s1
    ensures Enabled(s1, AcquireMiss(0)) && Step(s1, AcquireMiss(0)) == s2
    ensures Enabled(s2, ReadRow(0, false)) && Step(s2, ReadRow(0, false)) == s3
    ensures Step(s3, Save(after)) == s4 && Step(s4, Invalidate) == s4
    ensures Enabled(s4, Publish(0)) && Step(s4, Publish(0)) == s6
    ensures Step(s6, Tick(TTL - 1)) == s7 && Enabled(s7, FastHit(1))
  {}
}
