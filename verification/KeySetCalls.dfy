/**
 One call of `current_jwks` among any number of others: what it returns and what it stores, whatever
 the other callers do between its steps.
 */
module KeySetCalls {
  import opened Prelude
  import opened KeySetCache

  /** No action of `c`: the other callers, and time. */
  predicate Others(actions: seq<Action>, c: Caller) {
    forall i | 0 <= i < |actions| :: actions[i].Tick? || actions[i].c != c
  }

  /** The actions of a run lead from `s` to `t`. */
  ghost predicate Leads(s: State, actions: seq<Action>, t: State) {
    Runs(s, actions) && After(s, actions) == t
  }

  /** The set in the cache is younger than the time to live. */
  predicate Young(s: State) {
    s.cache.Some? && s.now < s.cache.value.fetchedAt + s.ttl
  }

  lemma StepOfOthers(s: State, a: Action, c: Caller)
    requires LockInvariant(s) && Enabled(s, a) && Others([a], c)
    ensures var t := Step(s, a);
            && LockInvariant(t) && StageOf(t, c) == StageOf(s, c) && t.ttl == s.ttl && t.now >= s.now
            && (HoldsLock(StageOf(s, c)) ==> t.cache == s.cache && t.holder == Some(c))
  {
    LockKept(s, a);
    assert [a][0] == a;
    assert HoldsLock(StageOf(s, c)) <==> s.holder == Some(c);
    if !a.Tick? {
      assert HoldsLock(StageOf(s, a.c)) <==> s.holder == Some(a.c);
    }
  }

  /** Others do not move a caller; and while it holds the mutex they do not change the cache. */
  lemma {:induction false} OthersKeep(s: State, actions: seq<Action>, t: State, c: Caller)
    requires LockInvariant(s) && Leads(s, actions, t) && Others(actions, c)
    ensures LockInvariant(t) && StageOf(t, c) == StageOf(s, c) && t.ttl == s.ttl && t.now >= s.now
    ensures HoldsLock(StageOf(s, c)) ==> t.cache == s.cache && t.holder == Some(c)
    decreases |actions|
  {
    hide Step, Enabled;
    if actions == [] {
      assert HoldsLock(StageOf(s, c)) <==> s.holder == Some(c);
    } else {
      hide LockInvariant;
      StepOfOthers(s, actions[0], c);
      OthersKeep(Step(s, actions[0]), actions[1..], t, c);
    }
  }

  /** The first look: a young set ends a call that is not forced, and every other call waits for the mutex. */
  lemma FirstLookDecides(s: State, c: Caller, force: bool, others: seq<Action>, t: State)
    requires LockInvariant(s) && Enabled(s, Enter(c, force))
    requires Leads(Step(s, Enter(c, force)), others, t) && Others(others, c)
    ensures Enabled(t, FirstLook(c))
    ensures var end := Step(t, FirstLook(c));
            && end.cache == t.cache && end.holder == t.holder
            && StageOf(end, c) == if !force && Young(t) then Returned(t.cache.value.keys) else Waiting(force)
  {
    LockKept(s, Enter(c, force));
    OthersKeep(Step(s, Enter(c, force)), others, t, c);
  }

  /** The second look: whoever has refreshed the cache in the meantime, a young set ends a call that is not forced. */
  lemma SecondLookDecides(s: State, c: Caller, force: bool, before: seq<Action>, free: State,
                          between: seq<Action>, t: State)
    requires LockInvariant(s) && StageOf(s, c) == Waiting(force)
    requires Leads(s, before, free) && Others(before, c) && free.holder.None?
    requires Enabled(free, Acquire(c)) ==> Leads(Step(free, Acquire(c)), between, t)
    requires Others(between, c)
    ensures Enabled(free, Acquire(c)) && Enabled(t, SecondLook(c)) && t.cache == free.cache
    ensures var end := Step(t, SecondLook(c));
            && end.cache == t.cache
            && (if !force && Young(t) then StageOf(end, c) == Returned(t.cache.value.keys) && end.holder.None?
                else StageOf(end, c) == Fetching(force) && end.holder == Some(c))
  {
    OthersKeep(s, before, free, c);
    LockKept(free, Acquire(c));
    var locked := Step(free, Acquire(c));
    assert StageOf(locked, c) == Locked(force);
    OthersKeep(locked, between, t, c);
  }

  /** A failed or empty answer refuses the call and leaves the cache as it was at the second look. */
  lemma FailureRefuses(s: State, c: Caller, force: bool, others: seq<Action>, t: State, failed: Action)
    requires LockInvariant(s) && StageOf(s, c) == Fetching(force) && Leads(s, others, t) && Others(others, c)
    requires failed in {FetchFails(c), FetchReturns(c, {})}
    ensures Enabled(t, failed)
    ensures var end := Step(t, failed);
            end.cache == s.cache && StageOf(end, c) == Refused && end.holder.None?
  {
    OthersKeep(s, others, t, c);
  }

  /**
   An answer with keys replaces the cached set, stamped with the time of the answer however long the call
   then waits to store it, and is what the call returns.
   */
  lemma AnswerStored(s: State, c: Caller, force: bool, others: seq<Action>, answered: State, keys: set<string>,
                     between: seq<Action>, t: State)
    requires LockInvariant(s) && StageOf(s, c) == Fetching(force) && keys != {}
    requires Leads(s, others, answered) && Others(others, c)
    requires Enabled(answered, FetchReturns(c, keys)) ==> Leads(Step(answered, FetchReturns(c, keys)), between, t)
    requires Others(between, c)
    ensures Enabled(answered, FetchReturns(c, keys)) && Enabled(t, Store(c)) && t.cache == s.cache
    ensures var end := Step(t, Store(c));
            && end.cache == Some(Cached(answered.now, keys)) && StageOf(end, c) == Returned(keys) && end.holder.None?
  {
    OthersKeep(s, others, answered, c);
    LockKept(answered, FetchReturns(c, keys));
    var storing := Step(answered, FetchReturns(c, keys));
    assert StageOf(storing, c) == Storing(answered.now, keys);
    OthersKeep(storing, between, t, c);
  }
}
