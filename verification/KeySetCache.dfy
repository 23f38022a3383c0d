/**
 The key-set cache of the guard (`current_jwks` and `cached_jwks`), shared by any number of callers.
 Every point at which a caller may be suspended, or dropped, is a state of that caller.
 */
module KeySetCache {
  import opened Prelude

  type Caller = nat

  datatype Cached = Cached(fetchedAt: nat, keys: set<string>)

  /** What a caller waits for. The refresh mutex is held from `Locked` to `Storing`. */
  datatype Stage =
    | Idle
    | Entered(force: bool)                    // before the first look at the cache
    | Waiting(force: bool)                    // for the refresh mutex
    | Locked(force: bool)                     // before the second look
    | Fetching(force: bool)                   // for the key-set endpoint
    | Storing(fetchedAt: nat, keys: set<string>)  // for the write lock, with the stamp already taken
    | Returned(keys: set<string>)
    | Refused

  /** What happened so far, in order. */
  datatype Event = FetchStarted(force: bool, at: nat) | Stored(cached: Cached) | Hit(at: nat, cached: Cached)

  datatype State = State(
    ttl: nat,
    now: nat,
    cache: Option<Cached>,
    holder: Option<Caller>,
    stages: map<Caller, Stage>,
    log: seq<Event>)

  datatype Action =
    | Tick(elapsed: nat)
    | Enter(c: Caller, force: bool)
    | FirstLook(c: Caller)
    | Acquire(c: Caller)
    | SecondLook(c: Caller)
    | FetchFails(c: Caller)
    | FetchReturns(c: Caller, keys: set<string>)
    | Store(c: Caller)
    | Drop(c: Caller)

  function StageOf(s: State, c: Caller): Stage {
    if c in s.stages then s.stages[c] else Idle
  }

  function At(s: State, c: Caller, stage: Stage): State {
    s.(stages := s.stages[c := stage])
  }

  function Logged(s: State, e: Event): State {
    s.(log := s.log + [e])
  }

  predicate HoldsLock(stage: Stage) {
    stage.Locked? || stage.Fetching? || stage.Storing?
  }

  /** `cached_jwks`: the cached set while it is younger than the time to live. */
  function Fresh(s: State): Option<Cached> {
    if s.cache.Some? && s.now - s.cache.value.fetchedAt < s.ttl then s.cache else None
  }

  predicate Enabled(s: State, a: Action) {
    match a
    case Tick(_) => true
    case Enter(c, _) => var stage := StageOf(s, c); stage.Idle? || stage.Returned? || stage.Refused?
    case FirstLook(c) => StageOf(s, c).Entered?
    case Acquire(c) => StageOf(s, c).Waiting? && s.holder.None?
    case SecondLook(c) => StageOf(s, c).Locked?
    case FetchFails(c) => StageOf(s, c).Fetching?
    case FetchReturns(c, _) => StageOf(s, c).Fetching?
    case Store(c) => StageOf(s, c).Storing?
    case Drop(_) => true
  }

  /** The caller returns the cached set. */
  function Serve(s: State, c: Caller, cached: Cached): State {
    Logged(At(s, c, Returned(cached.keys)), Hit(s.now, cached))
  }

  function Step(s: State, a: Action): State
    requires Enabled(s, a)
  {
    match a
    case Tick(elapsed) => s.(now := s.now + elapsed)
    case Enter(c, force) => At(s, c, Entered(force))
    case FirstLook(c) =>
      var force := StageOf(s, c).force;
      if !force && Fresh(s).Some? then Serve(s, c, Fresh(s).value) else At(s, c, Waiting(force))
    case Acquire(c) => At(s, c, Locked(StageOf(s, c).force)).(holder := Some(c))
    case SecondLook(c) =>
      var force := StageOf(s, c).force;
      if !force && Fresh(s).Some? then Serve(s, c, Fresh(s).value).(holder := None)
      else Logged(At(s, c, Fetching(force)), FetchStarted(force, s.now))
    case FetchFails(c) => At(s, c, Refused).(holder := None)
    case FetchReturns(c, keys) =>
      if keys == {} then At(s, c, Refused).(holder := None) else At(s, c, Storing(s.now, keys))
    case Store(c) =>
      var stage := StageOf(s, c);
      var cached := Cached(stage.fetchedAt, stage.keys);
      Logged(At(s, c, Returned(stage.keys)), Stored(cached)).(cache := Some(cached), holder := None)
    case Drop(c) =>
      At(s, c, Idle).(holder := if HoldsLock(StageOf(s, c)) then None else s.holder)
  }

  predicate Initial(s: State) {
    s.cache.None? && s.holder.None? && s.stages == map[] && s.log == []
  }

  /** A run: the actions, each enabled where it is taken. */
  predicate Runs(s: State, actions: seq<Action>)
    decreases |actions|
  {
    actions != [] ==> Enabled(s, actions[0]) && Runs(Step(s, actions[0]), actions[1..])
  }

  function After(s: State, actions: seq<Action>): State
    requires Runs(s, actions)
    decreases |actions|
  {
    if actions == [] then s else After(Step(s, actions[0]), actions[1..])
  }

  // What every run keeps

  /** The mutex is held by exactly the caller that is between acquiring and releasing it. */
  ghost predicate LockInvariant(s: State) {
    forall c: Caller :: HoldsLock(StageOf(s, c)) <==> s.holder == Some(c)
  }

  ghost predicate StampInvariant(s: State) {
    && (s.cache.Some? ==> s.cache.value.keys != {} && s.cache.value.fetchedAt <= s.now)
    && (forall c: Caller :: StageOf(s, c).Returned? ==> StageOf(s, c).keys != {})
    && (forall c: Caller :: StageOf(s, c).Storing? ==>
          var stage := StageOf(s, c);
          stage.keys != {} && stage.fetchedAt <= s.now
          && (s.cache.Some? ==> s.cache.value.fetchedAt <= stage.fetchedAt))
  }

  /** What a log says the cache holds: the set stored last. */
  function LastStored(log: seq<Event>): Option<Cached> {
    if log == [] then None
    else if log[|log| - 1].Stored? then Some(log[|log| - 1].cached)
    else LastStored(log[..|log| - 1])
  }

  /** The stamp of the `i`th event, if it stores a set. */
  predicate IsStored(log: seq<Event>, i: int) {
    0 <= i < |log| && log[i].Stored?
  }

  predicate IsPoliteFetch(log: seq<Event>, i: int) {
    0 <= i < |log| && log[i].FetchStarted? && !log[i].force
  }

  /** Stamps never go backwards. */
  ghost predicate StampsAscend(log: seq<Event>) {
    forall i, j | i < j && IsStored(log, i) && IsStored(log, j) :: log[i].cached.fetchedAt <= log[j].cached.fetchedAt
  }

  /** Every fetch that was not forced starts at least one time to live after every stamp before it. */
  ghost predicate PoliteFetches(log: seq<Event>, ttl: nat) {
    forall i, j | i < j && IsStored(log, i) && IsPoliteFetch(log, j) :: log[i].cached.fetchedAt + ttl <= log[j].at
  }

  /** Every hit returns the set stored last, while it is younger than the time to live. */
  ghost predicate HitsAreFresh(log: seq<Event>, ttl: nat) {
    forall i | 0 <= i < |log| && log[i].Hit? ::
      LastStored(log[..i]) == Some(log[i].cached) && log[i].at < log[i].cached.fetchedAt + ttl
  }

  ghost predicate LogInvariant(s: State) {
    && StampsAscend(s.log) && PoliteFetches(s.log, s.ttl) && HitsAreFresh(s.log, s.ttl)
    && s.cache == LastStored(s.log)
    && (forall i | IsStored(s.log, i) :: s.cache.Some? && s.log[i].cached.fetchedAt <= s.cache.value.fetchedAt)
  }

  ghost predicate Invariant(s: State) {
    LockInvariant(s) && StampInvariant(s) && LogInvariant(s)
  }

  lemma LockKept(s: State, a: Action)
    requires LockInvariant(s) && Enabled(s, a)
    ensures LockInvariant(Step(s, a))
  {
    hide Fresh;
    var t := Step(s, a);
    if !a.Tick? {
      forall d: Caller
        ensures HoldsLock(StageOf(t, d)) <==> t.holder == Some(d)
      {
        assert HoldsLock(StageOf(s, d)) <==> s.holder == Some(d);
        assert HoldsLock(StageOf(s, a.c)) <==> s.holder == Some(a.c);
        assert d != a.c ==> StageOf(t, d) == StageOf(s, d);
      }
    }
  }

  lemma StampsKept(s: State, a: Action)
    requires LockInvariant(s) && StampInvariant(s) && Enabled(s, a)
    ensures StampInvariant(Step(s, a))
  {
    var t := Step(s, a);
    forall d: Caller
      ensures StageOf(t, d).Returned? ==> StageOf(t, d).keys != {}
      ensures StageOf(t, d).Storing? ==> !a.Store? && StageOf(t, d).keys != {} && StageOf(t, d).fetchedAt <= t.now
      ensures StageOf(t, d).Storing? && t.cache.Some? ==> t.cache.value.fetchedAt <= StageOf(t, d).fetchedAt
    {
      if a.Tick? || d != a.c {
        assert StageOf(s, d) == StageOf(t, d);
        if a.Store? {
          assert HoldsLock(StageOf(s, d)) <==> s.holder == Some(d);
          assert HoldsLock(StageOf(s, a.c)) <==> s.holder == Some(a.c);
        }
      }
    }
  }

  /** The one event that an action adds keeps what the log promises. */
  lemma LogGrows(s: State, t: State, e: Event)
    requires LogInvariant(s) && t.log == s.log + [e] && t.ttl == s.ttl
    requires t.cache == if e.Stored? then Some(e.cached) else s.cache
    requires e.Stored? && s.cache.Some? ==> s.cache.value.fetchedAt <= e.cached.fetchedAt
    requires e.FetchStarted? && !e.force && s.cache.Some? ==> s.cache.value.fetchedAt + s.ttl <= e.at
    requires e.Hit? ==> s.cache == Some(e.cached) && e.at < e.cached.fetchedAt + s.ttl
    ensures LogInvariant(t)
  {
    var n := |s.log|;
    assert t.log[..n] == s.log;
    forall i | IsStored(t.log, i)
      ensures t.cache.Some? && t.log[i].cached.fetchedAt <= t.cache.value.fetchedAt
    {
      assert i < n ==> IsStored(s.log, i);
    }
    forall i, j | i < j && IsStored(t.log, i) && IsStored(t.log, j)
      ensures t.log[i].cached.fetchedAt <= t.log[j].cached.fetchedAt
    {
      assert IsStored(s.log, i);
      assert j < n ==> IsStored(s.log, j);
    }
    forall i, j | i < j && IsStored(t.log, i) && IsPoliteFetch(t.log, j)
      ensures t.log[i].cached.fetchedAt + t.ttl <= t.log[j].at
    {
      assert IsStored(s.log, i);
      assert j < n ==> IsPoliteFetch(s.log, j);
    }
    forall i | 0 <= i < |t.log| && t.log[i].Hit?
      ensures LastStored(t.log[..i]) == Some(t.log[i].cached) && t.log[i].at < t.log[i].cached.fetchedAt + t.ttl
    {
      assert t.log[..i] == s.log[..i];
      assert s.log[..n] == s.log;
    }
  }

  lemma LogKept(s: State, a: Action)
    requires Invariant(s) && Enabled(s, a)
    ensures LogInvariant(Step(s, a))
  {
    hide LockInvariant, LogInvariant;
    var t := Step(s, a);
    CacheIsOld(s);
    match a {
      case FirstLook(c) =>
        if t.log != s.log {
          LogGrows(s, t, Hit(s.now, Fresh(s).value));
        } else {
          SameLog(s, t);
        }
      case SecondLook(c) =>
        var force := StageOf(s, c).force;
        LogGrows(s, t, if !force && Fresh(s).Some? then Hit(s.now, Fresh(s).value) else FetchStarted(force, s.now));
      case Store(c) =>
        LogGrows(s, t, Stored(Cached(StageOf(s, c).fetchedAt, StageOf(s, c).keys)));
      case _ =>
        SameLog(s, t);
    }
  }

  lemma SameLog(s: State, t: State)
    requires LogInvariant(s) && t.log == s.log && t.ttl == s.ttl && t.cache == s.cache
    ensures LogInvariant(t)
  {
  }

  lemma CacheIsOld(s: State)
    requires StampInvariant(s)
    ensures s.cache.Some? ==> s.cache.value.fetchedAt <= s.now
  {
  }

  lemma {:induction false} InvariantAlongRuns(s: State, actions: seq<Action>)
    requires Invariant(s) && Runs(s, actions)
    ensures Invariant(After(s, actions))
    decreases |actions|
  {
    hide Step, Enabled, LockInvariant, StampInvariant, LogInvariant;
    if actions != [] {
      LockKept(s, actions[0]);
      StampsKept(s, actions[0]);
      LogKept(s, actions[0]);
      InvariantAlongRuns(Step(s, actions[0]), actions[1..]);
    }
  }

  /**
   In every run, however the callers interleave, fail or are dropped: at most one of them fetches,
   the cache never holds an empty set, no caller is given one, stamps never go backwards, a hit
   returns the set stored last while it is fresh, and a fetch that was not forced never follows a
   stamp by less than one time to live.
   */
  lemma EveryRun(s: State, actions: seq<Action>)
    requires Initial(s) && Runs(s, actions)
    ensures var t := After(s, actions);
            && (forall c: Caller, d: Caller :: StageOf(t, c).Fetching? && StageOf(t, d).Fetching? ==> c == d)
            && (t.cache.Some? ==> t.cache.value.keys != {} && t.cache.value.fetchedAt <= t.now)
            && (forall c: Caller :: StageOf(t, c).Returned? ==> StageOf(t, c).keys != {})
            && StampsAscend(t.log) && HitsAreFresh(t.log, t.ttl) && PoliteFetches(t.log, t.ttl)
  {
    InitialInvariant(s);
    InvariantAlongRuns(s, actions);
    var t := After(s, actions);
    forall c: Caller, d: Caller | StageOf(t, c).Fetching? && StageOf(t, d).Fetching?
      ensures c == d
    {
      assert HoldsLock(StageOf(t, c)) && HoldsLock(StageOf(t, d));
    }
  }

  lemma InitialInvariant(s: State)
    requires Initial(s)
    ensures Invariant(s)
  {
  }

  /**
   The mutex is never lost, even when its holder is dropped: a waiting caller can take it, or
   another caller holds it at a stage that can go on or be dropped.
   */
  lemma LockIsNotLost(s: State, actions: seq<Action>, c: Caller)
    requires Initial(s) && Runs(s, actions)
    requires StageOf(After(s, actions), c).Waiting?
    ensures var t := After(s, actions);
            Enabled(t, Acquire(c)) || (t.holder.Some? && t.holder.value != c && HoldsLock(StageOf(t, t.holder.value)))
  {
    InitialInvariant(s);
    InvariantAlongRuns(s, actions);
    var t := After(s, actions);
    assert HoldsLock(StageOf(t, c)) <==> t.holder == Some(c);
    if t.holder.Some? {
      assert HoldsLock(StageOf(t, t.holder.value)) <==> t.holder == Some(t.holder.value);
    }
  }

  // One caller alone

  datatype Fetch = Failed | Got(keys: set<string>)

  /** The stages that one caller passes through when nobody interferes; `wait` passes during the fetch. */
  function Alone(s: State, c: Caller, force: bool, fetch: Fetch, wait: nat): seq<Action> {
    [Enter(c, force), FirstLook(c)] + if !force && Fresh(s).Some? then [] else FromLock(c, fetch, wait)
  }

  function FromLock(c: Caller, fetch: Fetch, wait: nat): seq<Action> {
    [Acquire(c), SecondLook(c), Tick(wait)] + Answer(c, fetch)
  }

  function Answer(c: Caller, fetch: Fetch): seq<Action> {
    if fetch.Failed? then [FetchFails(c)] else [FetchReturns(c, fetch.keys)] + if fetch.keys == {} then []
        else [Store(c)]
  }

  /** The lock that guards the cached set; its method is `current_jwks` without interference. */
  class Cell {
    var cache: Option<Cached>

    method CurrentKeys(force: bool, ttl: nat, now: nat, fetch: Fetch, wait: nat) returns (r: Option<set<string>>)
      modifies this
      ensures !force && old(cache).Some? && now - old(cache).value.fetchedAt < ttl ==>
                cache == old(cache) && r == Some(cache.value.keys)
      ensures (force || old(cache).None? || now - old(cache).value.fetchedAt >= ttl) ==>
                if fetch.Got? && fetch.keys != {}
                    then cache == Some(Cached(now + wait, fetch.keys)) && r == Some(fetch.keys)
                else cache == old(cache) && r == None
    {
      if !force {
        if cache.Some? && now - cache.value.fetchedAt < ttl {
          return Some(cache.value.keys);
        }
      }
      if fetch.Failed? || fetch.keys == {} {
        return None;
      }
      cache := Some(Cached(now + wait, fetch.keys));
      r := Some(fetch.keys);
    }
  }

  lemma RunsFrom(s: State, a: Action, others: seq<Action>)
    requires Enabled(s, a) && Runs(Step(s, a), others)
    ensures Runs(s, [a] + others) && After(s, [a] + others) == After(Step(s, a), others)
  {
    assert ([a] + others)[1..] == others;
  }

  /** A run of one caller alone ends with the cache and the answer that the method gives. */
  lemma AloneIsSequential(s: State, c: Caller, force: bool, fetch: Fetch, wait: nat)
    requires s.holder.None? && StageOf(s, c).Idle?
    ensures Runs(s, Alone(s, c, force, fetch, wait))
    ensures var t := After(s, Alone(s, c, force, fetch, wait));
            && t.holder.None?
            && (if !force && Fresh(s).Some? then t.cache == s.cache && StageOf(t, c) == Returned(s.cache.value.keys)
                else if fetch.Got? && fetch.keys != {} then
                  t.cache == Some(Cached(s.now + wait, fetch.keys)) && StageOf(t, c) == Returned(fetch.keys)
                else t.cache == s.cache && StageOf(t, c) == Refused)
  {
    hide Runs, After;
    var entered := Step(s, Enter(c, force));
    var looked := Step(entered, FirstLook(c));
    assert Fresh(entered) == Fresh(s);
    if !force && Fresh(s).Some? {
      RunsNothing(looked);
      RunsFrom(entered, FirstLook(c), []);
      RunsFrom(s, Enter(c, force), [FirstLook(c)] + []);
      assert [Enter(c, force)] + ([FirstLook(c)] + []) == Alone(s, c, force, fetch, wait);
    } else {
      var locked := FromLock(c, fetch, wait);
      LockedAlone(looked, c, fetch, wait);
      RunsFrom(entered, FirstLook(c), locked);
      RunsFrom(s, Enter(c, force), [FirstLook(c)] + locked);
      assert [Enter(c, force)] + ([FirstLook(c)] + locked) == Alone(s, c, force, fetch, wait);
    }
  }

  /** The part of a call that holds the lock, when nobody else has refreshed the cache. */
  lemma LockedAlone(s: State, c: Caller, fetch: Fetch, wait: nat)
    requires s.holder.None? && StageOf(s, c).Waiting? && (StageOf(s, c).force || Fresh(s).None?)
    ensures Runs(s, FromLock(c, fetch, wait))
    ensures var t := After(s, FromLock(c, fetch, wait));
            && t.holder.None?
            && (if fetch.Got? && fetch.keys != {} then
                  t.cache == Some(Cached(s.now + wait, fetch.keys)) && StageOf(t, c) == Returned(fetch.keys)
                else t.cache == s.cache && StageOf(t, c) == Refused)
  {
    hide Runs, After;
    var end := Answer(c, fetch);
    var locked := Step(s, Acquire(c));
    assert Fresh(locked) == Fresh(s);
    var fetching := Step(locked, SecondLook(c));
    AnswerAlone(Step(fetching, Tick(wait)), c, fetch, end);
    RunsFrom(fetching, Tick(wait), end);
    RunsFrom(locked, SecondLook(c), [Tick(wait)] + end);
    RunsFrom(s, Acquire(c), [SecondLook(c)] + ([Tick(wait)] + end));
    assert [Acquire(c)] + ([SecondLook(c)] + ([Tick(wait)] + end)) == FromLock(c, fetch, wait);
  }

  lemma RunsNothing(s: State)
    ensures Runs(s, []) && After(s, []) == s
  {
  }

  lemma AnswerAlone(s: State, c: Caller, fetch: Fetch, end: seq<Action>)
    requires StageOf(s, c).Fetching?
    requires end == if fetch.Failed? then [FetchFails(c)] else [FetchReturns(c, fetch.keys)] + if fetch.keys == {}
        then [] else [Store(c)]
    ensures Runs(s, end)
    ensures var t := After(s, end);
            && t.holder.None?
            && (if fetch.Got? && fetch.keys != {} then
                  t.cache == Some(Cached(s.now, fetch.keys)) && StageOf(t, c) == Returned(fetch.keys)
                else t.cache == s.cache && StageOf(t, c) == Refused)
  {
    hide Runs, After;
    var answered := Step(s, end[0]);
    if fetch.Got? && fetch.keys != {} {
      RunsNothing(Step(answered, Store(c)));
      RunsFrom(answered, Store(c), []);
      assert [Store(c)] + [] == [Store(c)];
      RunsFrom(s, end[0], [Store(c)]);
    } else {
      RunsNothing(answered);
      RunsFrom(s, end[0], []);
      assert [end[0]] + [] == end;
    }
  }
}
