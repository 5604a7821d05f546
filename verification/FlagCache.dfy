/** The two-lock flag cache of python-ai/app/utils/feature_flag.py, as the interleaved steps of
    any number of readers, background refreshers and forced refreshes. */
module FlagCache {
  import opened Common
  import FF = FeatureFlags

  type ThreadId = nat
  /** The flags of a backend answer, in order. */
  type Snapshot = seq<FF.Entry>

  /** `fetched_at` is the time at which the fetch began. */
  datatype Cached = Cached(entry: FF.Entry, fetchedAt: int)

  /** Where a thread stands.  A reader first takes `_lock`; with a stale entry it triggers the
      refresh, which takes `_refresh_lock`, while still holding `_lock` (`nested`). */
  datatype Thread =
    | WantLock(key: string)
    | HoldLock(key: string)
    | WantRefresh(key: string, found: Option<Cached>, nested: bool)
    | HoldRefresh(key: string, found: Option<Cached>, nested: bool)
    | Leaving(key: string, found: Option<Cached>)
    | Answered(key: string, found: Option<Cached>)
    | FetchStart(forced: bool)
    | Fetching(at: int, forced: bool)
    | WantInstall(at: int, snapshot: Snapshot, forced: bool)
    | HoldInstall(at: int, snapshot: Snapshot, forced: bool)
    | Finished(forced: bool)

  datatype State = State(
    cache: map<string, Cached>, lastFetch: int, clock: int,
    lock: Option<ThreadId>, refreshLock: Option<ThreadId>,
    background: Option<ThreadId>, threads: map<ThreadId, Thread>)

  datatype Reply = Failure | Flags(snapshot: Snapshot)

  datatype Action =
    | Tick(seconds: nat)
    | CallIsEnabled(caller: ThreadId, key: string)
    | CallForceRefresh(caller: ThreadId)
    | Step(thread: ThreadId, reply: Reply, child: ThreadId)

  const TTL := 30

  function Init(now: nat): State {
    State(map[], 0, now, None, None, None, map[])
  }

  /** The new cache, built flag by flag: it keeps everything but the flag's key. */
  function Stamp(snapshot: Snapshot, at: int): (cache: map<string, Cached>)
    ensures forall k :: k in cache ==> cache[k].fetchedAt == at && cache[k].entry.flagKey == None
  {
    if snapshot == [] then map[]
    else
      var last := snapshot[|snapshot| - 1];
      var before := Stamp(snapshot[..|snapshot| - 1], at);
      if last.flagKey.Some? && last.flagKey.value != ""
      then before[last.flagKey.value := Cached(last.(flagKey := None), at)] else before
  }

  /** The snapshot has a flag of that name. */
  predicate Has(snapshot: Snapshot, key: string) {
    key != "" && exists i :: 0 <= i < |snapshot| && snapshot[i].flagKey == Some(key)
  }

  lemma {:induction false} StampHas(snapshot: Snapshot, at: int, key: string)
    ensures key in Stamp(snapshot, at) <==> Has(snapshot, key)
  {
    if snapshot != [] {
      var init := snapshot[..|snapshot| - 1];
      StampHas(init, at, key);
      if Has(init, key) {
        var i :| 0 <= i < |init| && init[i].flagKey == Some(key);
        assert snapshot[i].flagKey == Some(key);
      }
      if Has(snapshot, key) && snapshot[|snapshot| - 1].flagKey != Some(key) {
        var i :| 0 <= i < |snapshot| && snapshot[i].flagKey == Some(key);
        assert init[i].flagKey == Some(key);
      }
    }
  }

  /** A flag is cached as the snapshot has it, but for its key; of several flags of one name, the
      last counts. */
  lemma {:induction false} StampIs(snapshot: Snapshot, at: int, i: nat, key: string)
    requires i < |snapshot| && key != "" && snapshot[i].flagKey == Some(key)
    requires forall j :: i < j < |snapshot| ==> snapshot[j].flagKey != Some(key)
    ensures key in Stamp(snapshot, at)
    ensures var c := Stamp(snapshot, at)[key];
      c.fetchedAt == at && c.entry.(flagKey := Some(key)) == snapshot[i]
  {
    var init := snapshot[..|snapshot| - 1];
    if i < |init| {
      assert forall j :: i < j < |init| ==> init[j] == snapshot[j];
      StampIs(init, at, i, key);
    }
  }

  predicate Alive(s: State, t: Option<ThreadId>) {
    t.Some? && t.value in s.threads && !s.threads[t.value].Finished?
  }

  predicate Enabled(s: State, a: Action) {
    match a
    case Tick(_) => true
    case CallIsEnabled(t, _) => t !in s.threads
    case CallForceRefresh(t) => t !in s.threads
    case Step(t, _, child) =>
      t in s.threads &&
      match s.threads[t]
      case WantLock(_) => s.lock == None
      case WantRefresh(_, _, _) => s.refreshLock == None
      case HoldRefresh(_, _, _) => child !in s.threads
      case WantInstall(_, _, _) => s.lock == None
      case Answered(_, _) => false
      case Finished(_) => false
      case _ => true
  }

  function At(s: State, t: ThreadId, th: Thread): State {
    s.(threads := s.threads[t := th])
  }

  function Apply(s: State, a: Action): State
    requires Enabled(s, a)
  {
    match a
    case Tick(d) => s.(clock := s.clock + d)
    case CallIsEnabled(t, key) => At(s, t, WantLock(key))
    case CallForceRefresh(t) => At(s, t, FetchStart(true))
    case Step(t, reply, child) =>
      match s.threads[t]
      case WantLock(key) => At(s, t, HoldLock(key)).(lock := Some(t))
      case HoldLock(key) =>
        if key !in s.cache then At(s, t, WantRefresh(key, None, false)).(lock := None)
        else if s.clock - s.cache[key].fetchedAt < TTL then At(s, t, Answered(key, Some(s.cache[key]))).(lock := None)
        else At(s, t, WantRefresh(key, Some(s.cache[key]), true))
      case WantRefresh(key, found, nested) => At(s, t, HoldRefresh(key, found, nested)).(refreshLock := Some(t))
      case HoldRefresh(key, found, nested) =>
        var started :=
          if Alive(s, s.background) then s else At(s, child, FetchStart(false)).(background := Some(child));
        At(started, t, if nested then Leaving(key, found) else Answered(key, found)).(refreshLock := None)
      case Leaving(key, found) => At(s, t, Answered(key, found)).(lock := None)
      case FetchStart(forced) =>
        if !forced && s.clock - s.lastFetch < TTL then At(s, t, Finished(forced))
        else At(s, t, Fetching(s.clock, forced))
      case Fetching(at, forced) =>
        (match reply
         case Failure => At(s, t, Finished(forced))
         case Flags(snapshot) => At(s, t, WantInstall(at, snapshot, forced)))
      case WantInstall(at, snapshot, forced) => At(s, t, HoldInstall(at, snapshot, forced)).(lock := Some(t))
      case HoldInstall(at, snapshot, forced) =>
        At(s, t, Finished(forced)).(cache := Stamp(snapshot, at), lastFetch := at, lock := None)
  }

  /** The state after a run, if every action was enabled when it was taken. */
  function Exec(s: State, acts: seq<Action>): Option<State> {
    if acts == [] then Some(s)
    else
      var before := Exec(s, acts[..|acts| - 1]);
      if before.Some? && Enabled(before.value, acts[|acts| - 1])
      then Some(Apply(before.value, acts[|acts| - 1])) else None
  }

  // ---- the invariant -------------------------------------------------------------------

  predicate HoldsLock(th: Thread) {
    th.HoldLock? || (th.WantRefresh? && th.nested) || (th.HoldRefresh? && th.nested) || th.Leaving? || th.HoldInstall?
  }

  predicate IsFetcher(th: Thread) {
    th.FetchStart? || InFlight(th) || th.Finished?
  }

  /** A thread that `_trigger_background_refresh` has started and that has not ended. */
  predicate LiveBackground(th: Thread) {
    IsFetcher(th) && !th.forced && !th.Finished?
  }

  /** `_lock` is held by exactly the threads inside its critical sections. */
  ghost predicate LockInv(s: State) {
    && (forall t :: t in s.threads ==> (HoldsLock(s.threads[t]) <==> s.lock == Some(t)))
    && (s.lock.Some? ==> s.lock.value in s.threads)
  }

  ghost predicate RefreshLockInv(s: State) {
    && (forall t :: t in s.threads ==> (s.threads[t].HoldRefresh? <==> s.refreshLock == Some(t)))
    && (s.refreshLock.Some? ==> s.refreshLock.value in s.threads)
  }

  /** A live background thread is the registered one. */
  ghost predicate BackgroundInv(s: State) {
    && (forall t :: t in s.threads && LiveBackground(s.threads[t]) ==> s.background == Some(t))
    && (s.background.Some? ==> s.background.value in s.threads && IsFetcher(s.threads[s.background.value]))
  }

  ghost predicate CacheInv(s: State) {
    && (forall k :: k in s.cache ==> s.cache[k].fetchedAt == s.lastFetch && s.cache[k].entry.flagKey == None)
  }

  /** The thread has read the clock for its fetch, and has not ended. */
  predicate InFlight(th: Thread) {
    th.Fetching? || th.WantInstall? || th.HoldInstall?
  }

  predicate StartedBefore(th: Thread, clock: int) {
    InFlight(th) ==> th.at <= clock
  }

  ghost predicate ClockInv(s: State) {
    && s.lastFetch <= s.clock
    && (forall t :: t in s.threads ==> StartedBefore(s.threads[t], s.clock))
  }

  ghost predicate Inv(s: State) {
    LockInv(s) && RefreshLockInv(s) && BackgroundInv(s) && CacheInv(s) && ClockInv(s)
  }

  lemma LockKept(s: State, a: Action)
    requires LockInv(s) && Enabled(s, a)
    ensures LockInv(Apply(s, a))
  {
  }

  lemma RefreshLockKept(s: State, a: Action)
    requires RefreshLockInv(s) && Enabled(s, a)
    ensures RefreshLockInv(Apply(s, a))
  {
  }

  lemma BackgroundKept(s: State, a: Action)
    requires BackgroundInv(s) && Enabled(s, a)
    ensures BackgroundInv(Apply(s, a))
  {
  }

  lemma CacheKept(s: State, a: Action)
    requires CacheInv(s) && Enabled(s, a)
    ensures CacheInv(Apply(s, a))
  {
  }

  lemma ClockKept(s: State, a: Action)
    requires ClockInv(s) && Enabled(s, a)
    ensures ClockInv(Apply(s, a))
  {
  }

  lemma InvKept(s: State, a: Action)
    requires Inv(s) && Enabled(s, a)
    ensures Inv(Apply(s, a))
  {
    LockKept(s, a);
    RefreshLockKept(s, a);
    BackgroundKept(s, a);
    CacheKept(s, a);
    ClockKept(s, a);
  }

  lemma {:induction false} InvReachable(now: nat, acts: seq<Action>)
    requires Exec(Init(now), acts).Some?
    ensures Inv(Exec(Init(now), acts).value)
  {
    if acts != [] {
      InvReachable(now, acts[..|acts| - 1]);
      InvKept(Exec(Init(now), acts[..|acts| - 1]).value, acts[|acts| - 1]);
    }
  }

  // ---- what holds over every interleaving ----------------------------------------------

  /** At most one background refresh thread is live; the critical sections exclude each other;
      all cached entries carry the one stamp `_last_fetch`, and none carries its flag's key. */
  lemma AlwaysCoherent(now: nat, acts: seq<Action>)
    requires Exec(Init(now), acts).Some?
    ensures var s := Exec(Init(now), acts).value;
      (forall t, u ::
         t in s.threads && u in s.threads && LiveBackground(s.threads[t]) && LiveBackground(s.threads[u]) ==>
         t == u) &&
      (forall t, u ::
         t in s.threads && u in s.threads && HoldsLock(s.threads[t]) && HoldsLock(s.threads[u]) ==>
         t == u) &&
      (forall k :: k in s.cache ==> s.cache[k].fetchedAt == s.lastFetch && s.cache[k].entry.flagKey == None)
  {
    InvReachable(now, acts);
  }

  /** As no cached entry carries its flag's key, a user's bucket is the same for all of them: in
      every reachable cache, whoever is in the rollout of one flag is in that of every flag with
      at least its percentage. */
  lemma CachedRolloutsAreNested(now: nat, acts: seq<Action>, lib: FF.Library, a: string, b: string, user: string)
    requires Exec(Init(now), acts).Some?
    requires var cache := Exec(Init(now), acts).value.cache;
      a in cache && b in cache && IsRollout(cache[a].entry) && IsRollout(cache[b].entry) &&
      cache[a].entry.percentage.value <= cache[b].entry.percentage.value &&
      FF.ResolveFlagLevel(lib, cache[a].entry, Some(user))
    ensures FF.ResolveFlagLevel(lib, Exec(Init(now), acts).value.cache[b].entry, Some(user))
  {
    InvReachable(now, acts);
    var cache := Exec(Init(now), acts).value.cache;
    FF.RolloutsAreNested(lib, cache[a].entry, cache[b].entry, user);
  }

  /** An enabled flag that is decided by a percentage alone. */
  predicate IsRollout(e: FF.Entry) {
    e.enabled && e.percentage.Some? && e.blacklist == None && e.whitelist == None
  }

  predicate Unfinished(th: Thread) {
    !th.Answered? && !th.Finished?
  }

  ghost predicate CanStep(s: State, t: ThreadId) {
    forall child :: child !in s.threads ==> Enabled(s, Step(t, Failure, child))
  }

  /** There is no deadlock: as long as some thread is unfinished, one of them can take a step.
      The locks are taken in one order only, `_lock` before `_refresh_lock`. */
  lemma NoDeadlock(now: nat, acts: seq<Action>, t: ThreadId) returns (u: ThreadId)
    requires Exec(Init(now), acts).Some?
    requires t in Exec(Init(now), acts).value.threads && Unfinished(Exec(Init(now), acts).value.threads[t])
    ensures var s := Exec(Init(now), acts).value;
      u in s.threads && Unfinished(s.threads[u]) && CanStep(s, u)
  {
    InvReachable(now, acts);
    var s := Exec(Init(now), acts).value;
    u := t;
    if (s.threads[u].WantLock? || s.threads[u].WantInstall?) && s.lock.Some? {
      u := s.lock.value;
    }
    if s.threads[u].WantRefresh? && s.refreshLock.Some? {
      u := s.refreshLock.value;
    }
  }

  /** A reader is answered at once exactly if its flag is cached and was fetched less than 30
      seconds ago; otherwise it goes on to trigger a refresh, with the stale entry if there is
      one, and keeps `_lock` only in that case. */
  lemma AnsweredAtOnceIff(s: State, t: ThreadId, key: string, reply: Reply, child: ThreadId)
    requires t in s.threads && s.threads[t] == HoldLock(key) && s.lock == Some(t)
    ensures var s' := Apply(s, Step(t, reply, child));
      (s'.threads[t].Answered? <==> key in s.cache && s.clock < s.cache[key].fetchedAt + 30) &&
      (s'.threads[t].Answered? || s'.threads[t].WantRefresh?) &&
      s'.threads[t].key == key && s'.threads[t].found == (if key in s.cache then Some(s.cache[key]) else None) &&
      (s'.lock == None <==> s'.threads[t].Answered? || key !in s.cache) && s'.cache == s.cache
  {
  }

  /** A reader that has triggered a refresh leaves a live background fetch behind: the one that
      was running, or a new one. */
  lemma TriggerLeavesFetch(now: nat, acts: seq<Action>, t: ThreadId, reply: Reply, child: ThreadId)
    requires Exec(Init(now), acts).Some?
    requires var s := Exec(Init(now), acts).value;
      Enabled(s, Step(t, reply, child)) && s.threads[t].HoldRefresh?
    ensures var s := Exec(Init(now), acts).value; var s' := Apply(s, Step(t, reply, child));
      s'.background.Some? && s'.background.value in s'.threads && LiveOrForced(s'.threads[s'.background.value]) &&
      (s'.background == s.background || s'.background == Some(child))
  {
    InvReachable(now, acts);
  }

  /** A fetcher that has not ended. */
  predicate LiveOrForced(th: Thread) {
    IsFetcher(th) && !th.Finished?
  }

  /** A fetch asks the backend unless it is unforced and the last one began less than 30 seconds
      ago; a failed answer ends it and leaves the cache alone. */
  lemma FetchSkippedIff(s: State, t: ThreadId, reply: Reply, child: ThreadId)
    requires t in s.threads && (s.threads[t].FetchStart? || s.threads[t].Fetching?)
    ensures var th, s' := s.threads[t], Apply(s, Step(t, reply, child));
      s'.cache == s.cache && s'.lastFetch == s.lastFetch &&
      (th.FetchStart? ==>
         s'.threads[t] == if !th.forced && s.clock < s.lastFetch + 30 then Finished(th.forced)
                          else Fetching(s.clock, th.forced)) &&
      (th.Fetching? ==> (s'.threads[t].Finished? <==> reply == Failure))
  {
  }

  /** The action installs a snapshot that does not have the flag. */
  predicate Omits(s: State, a: Action, key: string) {
    a.Step? && a.thread in s.threads && s.threads[a.thread].HoldInstall? && !Has(s.threads[a.thread].snapshot, key)
  }

  /** The thread has looked the flag up and not found it, so that the degradation policy answers. */
  predicate Degraded(s: State, t: ThreadId, key: string) {
    t in s.threads &&
    (s.threads[t].WantRefresh? || s.threads[t].HoldRefresh? || s.threads[t].Leaving? || s.threads[t].Answered?) &&
    s.threads[t].key == key && s.threads[t].found == None
  }

  ghost predicate NeverOmitted(s: State, acts: seq<Action>, key: string) {
    forall i :: 0 <= i < |acts| && Exec(s, acts[..i]).Some? ==> !Omits(Exec(s, acts[..i]).value, acts[i], key)
  }

  /** Once a flag is cached, no lookup of it is answered by the degradation policy until a
      snapshot that omits it has been installed, however many fetches fail. */
  lemma {:induction false} CachedUntilOmitted(s: State, acts: seq<Action>, key: string)
    requires key in s.cache && Exec(s, acts).Some? && NeverOmitted(s, acts, key)
    ensures key in Exec(s, acts).value.cache
    ensures forall t :: Degraded(Exec(s, acts).value, t, key) ==> Degraded(s, t, key)
  {
    if acts != [] {
      var init := acts[..|acts| - 1];
      assert forall i :: 0 <= i < |init| ==> init[..i] == acts[..i] && init[i] == acts[i];
      CachedUntilOmitted(s, init, key);
      var mid := Exec(s, init).value;
      assert !Omits(mid, acts[|acts| - 1], key);
      OneStepCached(mid, acts[|acts| - 1], key);
    }
  }

  lemma OneStepCached(s: State, a: Action, key: string)
    requires key in s.cache && Enabled(s, a) && !Omits(s, a, key)
    ensures key in Apply(s, a).cache
    ensures forall t :: Degraded(Apply(s, a), t, key) ==> Degraded(s, t, key)
  {
    if a.Step? && s.threads[a.thread].HoldInstall? {
      StampHas(s.threads[a.thread].snapshot, s.threads[a.thread].at, key);
    }
  }

  // ---- freshness -----------------------------------------------------------------------

  /** The thread is no forced fetch, and no fetch that began before time `since`. */
  predicate Timely(th: Thread, since: int) {
    (IsFetcher(th) ==> !th.forced) && (InFlight(th) ==> since <= th.at)
  }

  ghost predicate AllTimely(s: State) {
    forall t :: t in s.threads ==> Timely(s.threads[t], s.lastFetch)
  }

  /** As long as nobody forces a refresh, the cache never goes back to an older snapshot. */
  lemma {:induction false} FreshWithoutForce(now: nat, acts: seq<Action>)
    requires Exec(Init(now), acts).Some?
    requires forall i :: 0 <= i < |acts| ==> !acts[i].CallForceRefresh?
    ensures AllTimely(Exec(Init(now), acts).value)
    ensures acts != [] ==>
      Exec(Init(now), acts[..|acts| - 1]).value.lastFetch <= Exec(Init(now), acts).value.lastFetch
  {
    if acts != [] {
      var init, a := acts[..|acts| - 1], acts[|acts| - 1];
      FreshWithoutForce(now, init);
      InvReachable(now, init);
      var s := Exec(Init(now), init).value;
      if a.Step? && s.threads[a.thread].HoldInstall? {
        FreshInstall(s, a);
      } else {
        FreshStep(s, a);
      }
    }
  }

  lemma FreshInstall(s: State, a: Action)
    requires Inv(s) && AllTimely(s) && a.Step? && a.thread in s.threads && s.threads[a.thread].HoldInstall?
    ensures AllTimely(Apply(s, a)) && s.lastFetch <= Apply(s, a).lastFetch
  {
    var s' := Apply(s, a);
    assert LiveBackground(s.threads[a.thread]);
    forall t | t in s'.threads ensures Timely(s'.threads[t], s'.lastFetch) {
      if t != a.thread {
        assert s'.threads[t] == s.threads[t] && !LiveBackground(s.threads[t]);
      }
    }
  }

  lemma FreshStep(s: State, a: Action)
    requires ClockInv(s) && AllTimely(s) && Enabled(s, a) && !a.CallForceRefresh?
    requires !(a.Step? && s.threads[a.thread].HoldInstall?)
    ensures AllTimely(Apply(s, a)) && s.lastFetch == Apply(s, a).lastFetch
  {
  }

  /** The action writes a fetched snapshot into the cache. */
  predicate Installs(s: State, a: Action) {
    a.Step? && a.thread in s.threads && s.threads[a.thread].HoldInstall?
  }

  /** The state of the run before its `n`-th action. */
  function StateAt(now: nat, acts: seq<Action>, n: nat): Option<State>
    requires n <= |acts|
  {
    Exec(Init(now), acts[..n])
  }

  /** The `j`-th action of the run replaces the cache by an older snapshot. */
  ghost predicate Ages(now: nat, acts: seq<Action>, j: nat) {
    j < |acts| && StateAt(now, acts, j).Some? && StateAt(now, acts, j + 1).Some? &&
    StateAt(now, acts, j + 1).value.lastFetch < StateAt(now, acts, j).value.lastFetch
  }

  /** While the fetch that the `j`-th action installs was in flight, the `i`-th action installed
      one that had read the clock later. */
  ghost predicate Overtakes(now: nat, acts: seq<Action>, i: nat, j: nat) {
    i < j < |acts| && StateAt(now, acts, i).Some? && StateAt(now, acts, j).Some? &&
    Installs(StateAt(now, acts, i).value, acts[i]) && Installs(StateAt(now, acts, j).value, acts[j]) &&
    Overtaken(StateAt(now, acts, i).value, acts[i].thread, acts[j].thread)
  }

  /** The fetch of `slow` is in flight, and began before that of `fast`. */
  predicate Overtaken(s: State, fast: ThreadId, slow: ThreadId) {
    fast in s.threads && InFlight(s.threads[fast]) && slow in s.threads && InFlight(s.threads[slow]) &&
    s.threads[slow].at < s.threads[fast].at
  }

  lemma {:induction false} RunPrefix(now: nat, acts: seq<Action>, n: nat)
    requires Exec(Init(now), acts).Some? && n <= |acts|
    ensures StateAt(now, acts, n).Some?
    ensures n < |acts| ==>
      Enabled(StateAt(now, acts, n).value, acts[n]) &&
      StateAt(now, acts, n + 1) == Some(Apply(StateAt(now, acts, n).value, acts[n]))
    decreases |acts|
  {
    if n == |acts| {
      assert acts[..n] == acts;
    } else {
      var init := acts[..|acts| - 1];
      assert init[..n] == acts[..n];
      if n == |acts| - 1 {
        assert acts[..n + 1] == acts;
      } else {
        assert init[..n + 1] == acts[..n + 1];
        RunPrefix(now, init, n);
      }
    }
  }

  lemma InstallWrites(s: State, a: Action)
    requires Enabled(s, a)
    ensures Apply(s, a).lastFetch == if Installs(s, a) then s.threads[a.thread].at else s.lastFetch
  {
  }

  /** The `i`-th action of the run is the backend's answer to a fetch that began at `at`. */
  ghost predicate Answers(now: nat, acts: seq<Action>, i: nat, snapshot: Snapshot, at: int) {
    i < |acts| && acts[i].Step? && acts[i].reply == Flags(snapshot) && StateAt(now, acts, i).Some? &&
    acts[i].thread in StateAt(now, acts, i).value.threads &&
    StateAt(now, acts, i).value.threads[acts[i].thread].Fetching? &&
    StateAt(now, acts, i).value.threads[acts[i].thread].at == at
  }

  /** The thread is about to install the snapshot. */
  predicate Brings(s: State, t: ThreadId, snapshot: Snapshot, at: int) {
    t in s.threads && (s.threads[t].WantInstall? || s.threads[t].HoldInstall?) &&
    s.threads[t].snapshot == snapshot && s.threads[t].at == at
  }

  lemma AnswersEarlier(now: nat, acts: seq<Action>, i: nat, snapshot: Snapshot, at: int)
    requires acts != [] && Answers(now, acts[..|acts| - 1], i, snapshot, at)
    ensures Answers(now, acts, i, snapshot, at)
  {
    assert acts[..|acts| - 1][..i] == acts[..i];
  }

  /** What a thread is about to install is the answer to its fetch. */
  lemma {:induction false} BroughtWasAnswered(now: nat, acts: seq<Action>, t: ThreadId, snapshot: Snapshot, at: int)
    returns (i: nat)
    requires Exec(Init(now), acts).Some? && Brings(Exec(Init(now), acts).value, t, snapshot, at)
    ensures Answers(now, acts, i, snapshot, at)
  {
    var init, a := acts[..|acts| - 1], acts[|acts| - 1];
    if Brings(Exec(Init(now), init).value, t, snapshot, at) {
      i := BroughtWasAnswered(now, init, t, snapshot, at);
      AnswersEarlier(now, acts, i, snapshot, at);
    } else {
      i := |acts| - 1;
    }
  }

  /** The cache is empty until the first install, and then holds one answer of the backend, all of
      it and nothing else, stamped with the time at which the fetch of that answer began. */
  lemma {:induction false} CacheIsOneAnswer(now: nat, acts: seq<Action>)
    requires Exec(Init(now), acts).Some?
    ensures var s := Exec(Init(now), acts).value;
      (s.cache == map[] && s.lastFetch == 0) ||
      exists i, snapshot :: Answers(now, acts, i, snapshot, s.lastFetch) && s.cache == Stamp(snapshot, s.lastFetch)
  {
    if acts != [] {
      var init, a := acts[..|acts| - 1], acts[|acts| - 1];
      var s, s' := Exec(Init(now), init).value, Exec(Init(now), acts).value;
      CacheIsOneAnswer(now, init);
      if Installs(s, a) {
        var th := s.threads[a.thread];
        var i := BroughtWasAnswered(now, init, a.thread, th.snapshot, th.at);
        AnswersEarlier(now, acts, i, th.snapshot, th.at);
      } else {
        CacheUntouched(s, a);
        if s.cache != map[] || s.lastFetch != 0 {
          var i: nat, snapshot :|
            Answers(now, init, i, snapshot, s.lastFetch) && s.cache == Stamp(snapshot, s.lastFetch);
          AnswersEarlier(now, acts, i, snapshot, s.lastFetch);
        }
      }
    }
  }

  lemma CacheUntouched(s: State, a: Action)
    requires Enabled(s, a) && !Installs(s, a)
    ensures Apply(s, a).cache == s.cache && Apply(s, a).lastFetch == s.lastFetch
  {
  }

  /** The thread carries the fetch that began at `at`, or has ended. */
  predicate Carries(s: State, t: ThreadId, at: int) {
    t in s.threads && (s.threads[t].Finished? || (InFlight(s.threads[t]) && s.threads[t].at == at))
  }

  lemma StepCarries(s: State, a: Action, t: ThreadId, at: int)
    requires Enabled(s, a) && Carries(s, t, at)
    ensures Carries(Apply(s, a), t, at)
  {
  }

  lemma {:induction false} StillCarries(now: nat, acts: seq<Action>, i: nat, j: nat, t: ThreadId, at: int)
    requires Exec(Init(now), acts).Some? && i <= j <= |acts|
    requires StateAt(now, acts, i).Some? && Carries(StateAt(now, acts, i).value, t, at)
    ensures StateAt(now, acts, j).Some? && Carries(StateAt(now, acts, j).value, t, at)
    decreases j
  {
    if i < j {
      StillCarries(now, acts, i, j - 1, t, at);
      RunPrefix(now, acts, j - 1);
      StepCarries(StateAt(now, acts, j - 1).value, acts[j - 1], t, at);
    }
  }

  /** Without an install that ages it, the cache only gets younger. */
  lemma {:induction false} YoungerUnlessAged(now: nat, acts: seq<Action>, i: nat, j: nat)
    requires Exec(Init(now), acts).Some? && i <= j <= |acts|
    requires forall k :: !Ages(now, acts, k)
    ensures StateAt(now, acts, i).Some? && StateAt(now, acts, j).Some?
    ensures StateAt(now, acts, i).value.lastFetch <= StateAt(now, acts, j).value.lastFetch
    decreases j
  {
    RunPrefix(now, acts, j);
    if i < j {
      YoungerUnlessAged(now, acts, i, j - 1);
      RunPrefix(now, acts, j - 1);
      assert !Ages(now, acts, j - 1);
    }
  }

  lemma OvertakingAges(now: nat, acts: seq<Action>, i: nat, j: nat)
    requires Exec(Init(now), acts).Some? && Overtakes(now, acts, i, j)
    ensures exists k :: Ages(now, acts, k)
  {
    var s, t := StateAt(now, acts, i).value, StateAt(now, acts, j).value;
    RunPrefix(now, acts, i);
    RunPrefix(now, acts, j);
    InstallWrites(s, acts[i]);
    InstallWrites(t, acts[j]);
    StillCarries(now, acts, i, j, acts[j].thread, s.threads[acts[j].thread].at);
    if forall k :: !Ages(now, acts, k) {
      YoungerUnlessAged(now, acts, i + 1, j);
      assert Ages(now, acts, j);
    }
  }

  /** A fetch in flight that began before the installed one was in flight when that one was
      installed: when it began, nothing younger than the clock was. */
  lemma {:induction false} OvertakenBefore(now: nat, acts: seq<Action>, t: ThreadId) returns (i: nat)
    requires Exec(Init(now), acts).Some?
    requires var s := Exec(Init(now), acts).value;
      t in s.threads && InFlight(s.threads[t]) && s.threads[t].at < s.lastFetch
    ensures i < |acts| && StateAt(now, acts, i).Some? && Installs(StateAt(now, acts, i).value, acts[i])
    ensures Overtaken(StateAt(now, acts, i).value, acts[i].thread, t)
  {
    var init, a := acts[..|acts| - 1], acts[|acts| - 1];
    var s, s' := Exec(Init(now), init).value, Exec(Init(now), acts).value;
    InvReachable(now, init);
    InstallWrites(s, a);
    StartsYoung(s, a, t);
    if Installs(s, a) {
      i := |acts| - 1;
    } else {
      i := OvertakenBefore(now, init, t);
      assert init[..i] == acts[..i];
    }
  }

  lemma StartsYoung(s: State, a: Action, t: ThreadId)
    requires ClockInv(s) && Enabled(s, a)
    requires t in Apply(s, a).threads && InFlight(Apply(s, a).threads[t])
    requires Apply(s, a).threads[t].at < Apply(s, a).lastFetch
    ensures t in s.threads && InFlight(s.threads[t]) && s.threads[t].at == Apply(s, a).threads[t].at
  {
  }

  lemma AgeingOvertakes(now: nat, acts: seq<Action>, j: nat) returns (i: nat)
    requires Exec(Init(now), acts).Some? && Ages(now, acts, j)
    ensures Overtakes(now, acts, i, j)
  {
    RunPrefix(now, acts, j);
    InstallWrites(StateAt(now, acts, j).value, acts[j]);
    i := OvertakenBefore(now, acts[..j], acts[j].thread);
    assert acts[..j][..i] == acts[..i];
  }

  /** The cache goes back to an older snapshot if and only if some fetch was overtaken: while it
      was in flight, one that had read the clock later was installed, and it was installed
      afterwards all the same. */
  lemma CacheAgesIffOvertaken(now: nat, acts: seq<Action>)
    requires Exec(Init(now), acts).Some?
    ensures (exists j :: Ages(now, acts, j)) <==> (exists i, j :: Overtakes(now, acts, i, j))
  {
    if exists j :: Ages(now, acts, j) {
      var j: nat :| Ages(now, acts, j);
      var i := AgeingOvertakes(now, acts, j);
    }
    if exists i, j :: Overtakes(now, acts, i, j) {
      var i: nat, j: nat :| Overtakes(now, acts, i, j);
      OvertakingAges(now, acts, i, j);
    }
  }

  function Go(t: ThreadId): Action {
    Step(t, Flags([]), t)
  }

  lemma ExecSnoc(s: State, acts: seq<Action>, a: Action, mid: State)
    requires Exec(s, acts) == Some(mid) && Enabled(mid, a)
    ensures Exec(s, acts + [a]) == Some(Apply(mid, a))
  {
    assert (acts + [a])[..|acts|] == acts;
  }

  /** A forced refresh, up to where it waits for `_lock`. */
  lemma ForcedFetch(s: State, acts: seq<Action>, mid: State, t: ThreadId)
    requires Exec(s, acts) == Some(mid) && t !in mid.threads
    ensures Exec(s, acts + [CallForceRefresh(t)] + [Go(t)] + [Go(t)])
         == Some(At(mid, t, WantInstall(mid.clock, [], true)))
  {
    var s1 := Apply(mid, CallForceRefresh(t));
    ExecSnoc(s, acts, CallForceRefresh(t), mid);
    ExecSnoc(s, acts + [CallForceRefresh(t)], Go(t), s1);
    ExecSnoc(s, acts + [CallForceRefresh(t)] + [Go(t)], Go(t), Apply(s1, Go(t)));
    assert mid.threads[t := FetchStart(true)][t := Fetching(mid.clock, true)][t := WantInstall(mid.clock, [], true)]
        == mid.threads[t := WantInstall(mid.clock, [], true)];
  }

  /** Two forced refreshes, one second apart, have both fetched. */
  function BothFetched(): seq<Action> {
    [] + [CallForceRefresh(0)] + [Go(0)] + [Go(0)] + [Tick(1)] + [CallForceRefresh(1)] + [Go(1)] + [Go(1)]
  }

  function BothWait(): State {
    var s := At(Init(100), 0, WantInstall(100, [], true)).(clock := 101);
    At(s, 1, WantInstall(101, [], true))
  }

  lemma BothFetchedWait()
    ensures Exec(Init(100), BothFetched()) == Some(BothWait())
  {
    var s0 := Init(100);
    ForcedFetch(s0, [], s0, 0);
    var a1 := [] + [CallForceRefresh(0)] + [Go(0)] + [Go(0)];
    var s1 := At(s0, 0, WantInstall(100, [], true));
    ExecSnoc(s0, a1, Tick(1), s1);
    ForcedFetch(s0, a1 + [Tick(1)], s1.(clock := 101), 1);
  }

  /** Two forced refreshes suffice to age the cache: the one that began first installs last. */
  lemma ForcedRefreshCanAge()
    ensures exists acts, a ::
      Exec(Init(100), acts).Some? && Enabled(Exec(Init(100), acts).value, a) &&
      Apply(Exec(Init(100), acts).value, a).lastFetch < Exec(Init(100), acts).value.lastFetch
  {
    BothFetchedWait();
    var s0, s3 := Init(100), BothWait();
    ExecSnoc(s0, BothFetched(), Go(1), s3);
    var s4 := Apply(s3, Go(1));
    ExecSnoc(s0, BothFetched() + [Go(1)], Go(1), s4);
    var s5 := Apply(s4, Go(1));
    ExecSnoc(s0, BothFetched() + [Go(1)] + [Go(1)], Go(0), s5);
    var s6 := Apply(s5, Go(0));
    assert s6.lastFetch == 101 && Apply(s6, Go(0)).lastFetch == 100;
    assert Exec(s0, BothFetched() + [Go(1)] + [Go(1)] + [Go(0)]) == Some(s6);
  }
}
