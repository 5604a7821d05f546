/** The `active_requests` registry of python-ai/app/api/chat.py: streams register their task,
    and finishing or cancelled streams take it out again. */
module ActiveRequests {
  import opened Common
  import CS = ChatStream

  type Task = nat

  class Registry {
    var active: map<string, Task>

    constructor ()
      ensures active == map[]
    {
      active := map[];
    }

    method TrackActiveRequest(id: string, task: Task)
      modifies this
      ensures active == old(active)[id := task]
    {
      active := active[id := task];
    }

    /** The end of an event generator. */
    method CleanUp(id: string, task: Task)
      modifies this
      ensures active == Released(old(active), id, task)
    {
      if id in active && active[id] == task {
        active := active - {id};
      }
    }

    /** `cancel_chat`; `done` is `task.done()`. */
    method CancelChat(id: string, done: Task -> bool) returns (cancelled: Option<Task>)
      modifies this
      ensures cancelled == if id in old(active) && !done(old(active)[id]) then Some(old(active)[id]) else None
      ensures active == if cancelled.Some? then old(active) - {id} else old(active)
    {
      if id in active {
        var task := active[id];
        if !done(task) {
          active := active - {id};
          return Some(task);
        }
      }
      return None;
    }
  }

  function Released(active: map<string, Task>, id: string, task: Task): map<string, Task> {
    if id in active && active[id] == task then active - {id} else active
  }

  // ---- interleavings -------------------------------------------------------------------

  datatype Action =
    | Open(task: Task, id: string)  // the generator starts in the serving task
    | Sweep(task: Task)             // the statements behind the generator's last yield run
    | End(task: Task)               // the serving task is done
    | Cancel(id: string)

  /** The registry; for every task the id it registered; the tasks that are done, that have
      been swept, and that have been cancelled; and the last registrant of every id. */
  datatype State = State(active: map<string, Task>, ids: map<Task, string>,
                         done: set<Task>, swept: set<Task>, cancelled: set<Task>, latest: map<string, Task>)

  const EMPTY := State(map[], map[], {}, {}, {}, map[])

  predicate Enabled(s: State, a: Action) {
    match a
    case Open(t, _) => t !in s.ids
    case Sweep(t) => t in s.ids && t !in s.done && t !in s.swept
    case End(t) => t in s.ids && t !in s.done
    case Cancel(_) => true
  }

  function Apply(s: State, a: Action): State
    requires Enabled(s, a)
  {
    match a
    case Open(t, id) => s.(active := s.active[id := t], ids := s.ids[t := id], latest := s.latest[id := t])
    case Sweep(t) => s.(active := Released(s.active, s.ids[t], t), swept := s.swept + {t})
    case End(t) => s.(done := s.done + {t})
    case Cancel(id) =>
      if id in s.active && s.active[id] !in s.done
      then s.(active := s.active - {id}, cancelled := s.cancelled + {s.active[id]}) else s
  }

  function Exec(acts: seq<Action>): Option<State> {
    if acts == [] then Some(EMPTY)
    else
      var before := Exec(acts[..|acts| - 1]);
      if before.Some? && Enabled(before.value, acts[|acts| - 1])
      then Some(Apply(before.value, acts[|acts| - 1])) else None
  }

  /** A cancellation reaches the task that the id lists, unless that is done already: then, and
      where nothing is listed, it changes nothing. */
  lemma CancelIs(s: State, id: string, t: Task)
    ensures var s' := Apply(s, Cancel(id));
      if Lists(s, id, t) && t !in s.done
      then s'.cancelled == s.cancelled + {t} && s'.active == s.active - {id}
      else !Lists(s, id, t) || s' == s
    ensures id !in s.active ==> Apply(s, Cancel(id)) == s
  {
  }

  /** The task is listed for the id. */
  predicate Lists(s: State, id: string, t: Task) {
    id in s.active && s.active[id] == t
  }

  predicate IsLatest(s: State, id: string, t: Task) {
    id in s.latest && s.latest[id] == t
  }

  ghost predicate Inv(s: State) {
    && (forall id, t :: Lists(s, id, t) <==> IsLatest(s, id, t) && t !in s.swept && t !in s.cancelled)
    && (forall id, t :: IsLatest(s, id, t) ==> t in s.ids && s.ids[t] == id)
    && (forall t :: t in s.swept + s.cancelled + s.done ==> t in s.ids)
  }

  lemma InvKept(s: State, a: Action)
    requires Inv(s) && Enabled(s, a)
    ensures Inv(Apply(s, a))
  {
    var s' := Apply(s, a);
    forall id, t
      ensures Lists(s', id, t) <==> IsLatest(s', id, t) && t !in s'.swept && t !in s'.cancelled
      ensures IsLatest(s', id, t) ==> t in s'.ids && s'.ids[t] == id
    {
      assert Lists(s, id, t) <==> IsLatest(s, id, t) && t !in s.swept && t !in s.cancelled;
      assert IsLatest(s, id, t) ==> t in s.ids && s.ids[t] == id;
      if a.Cancel? && a.id in s.active {
        assert Lists(s, a.id, s.active[a.id]);
        assert IsLatest(s, a.id, s.active[a.id]);
      }
      if a.Open? {
        assert a.task !in s.swept + s.cancelled + s.done;
      }
    }
    forall t | t in s'.swept + s'.cancelled + s'.done ensures t in s'.ids {
      if t !in s.swept + s.cancelled + s.done && a.Cancel? {
        assert Lists(s, a.id, t) && IsLatest(s, a.id, t);
      }
    }
  }

  lemma {:induction false} InvReachable(acts: seq<Action>)
    requires Exec(acts).Some?
    ensures Inv(Exec(acts).value)
  {
    if acts != [] {
      InvReachable(acts[..|acts| - 1]);
      InvKept(Exec(acts[..|acts| - 1]).value, acts[|acts| - 1]);
    }
  }

  /** An id lists a task exactly when the task is the id's latest registrant and has been
      neither swept nor cancelled. */
  lemma RegistryIsExact(acts: seq<Action>, id: string, t: Task)
    requires Exec(acts).Some?
    ensures Lists(Exec(acts).value, id, t)
       <==> IsLatest(Exec(acts).value, id, t) && t !in Exec(acts).value.swept && t !in Exec(acts).value.cancelled
  {
    InvReachable(acts);
  }

  /** Every listed task is still running exactly when every latest registrant that ended
      uncancelled had been swept. */
  lemma ListedAreRunningIff(acts: seq<Action>)
    requires Exec(acts).Some?
    ensures var s := Exec(acts).value;
      (forall id :: id in s.active ==> s.active[id] !in s.done)
      <==> (forall id :: id in s.latest && s.latest[id] in s.done && s.latest[id] !in s.cancelled ==>
        s.latest[id] in s.swept)
  {
    InvReachable(acts);
    var s := Exec(acts).value;
    forall id | id in s.active
      ensures IsLatest(s, id, s.active[id]) && s.active[id] !in s.swept && s.active[id] !in s.cancelled
    {
      assert Lists(s, id, s.active[id]);
    }
    forall id | id in s.latest && s.latest[id] !in s.swept && s.latest[id] !in s.cancelled
      ensures Lists(s, id, s.latest[id])
    {
      assert IsLatest(s, id, s.latest[id]);
    }
  }

  // ---- under the output guard the sweep never runs -------------------------------------

  /** What the generator does: it registers, yields its frames, and cleans up after the last. */
  datatype GenStep = Register | Yield(frame: CS.Frame) | CleanUpStep

  function Yields(frames: seq<CS.Frame>): seq<GenStep> {
    if frames == [] then [] else [Yield(frames[0])] + Yields(frames[1..])
  }

  function Script(frames: seq<CS.Frame>): seq<GenStep> {
    [Register] + Yields(frames) + [CleanUpStep]
  }

  /** The steps that run when the consumer stops iterating at the sentinel, as the output guard
      does.  Closing the suspended generator afterwards raises at that yield an exception which
      the surrounding `except Exception` does not catch, so that nothing after it runs. */
  function RunByGuard(steps: seq<GenStep>): seq<GenStep> {
    if steps == [] then []
    else if steps[0] == Yield(CS.Sentinel) then [steps[0]]
    else [steps[0]] + RunByGuard(steps[1..])
  }

  lemma {:induction false} StopsAtSentinel(frames: seq<CS.Frame>, rest: seq<GenStep>)
    requires CS.Sentinel !in frames
    ensures RunByGuard(Yields(frames) + [Yield(CS.Sentinel)] + rest) == Yields(frames) + [Yield(CS.Sentinel)]
  {
    var steps := Yields(frames) + [Yield(CS.Sentinel)] + rest;
    if frames == [] {
      assert steps[0] == Yield(CS.Sentinel);
    } else {
      assert steps[0] == Yield(frames[0]);
      assert steps[1..] == Yields(frames[1..]) + [Yield(CS.Sentinel)] + rest;
      StopsAtSentinel(frames[1..], rest);
    }
  }

  lemma {:induction false} YieldsConcat(a: seq<CS.Frame>, b: seq<CS.Frame>)
    ensures Yields(a + b) == Yields(a) + Yields(b)
  {
    if a == [] {
      assert a + b == b;
    } else {
      assert (a + b)[1..] == a[1..] + b;
      YieldsConcat(a[1..], b);
    }
  }

  lemma {:induction false} YieldsAreYields(frames: seq<CS.Frame>)
    ensures CleanUpStep !in Yields(frames)
  {
    if frames != [] {
      YieldsAreYields(frames[1..]);
    }
  }

  /** For every agent run, the clean-up of the stream that the guard consumes is not reached. */
  lemma GuardSkipsCleanUp(chunks: seq<CS.Chunk>, ending: CS.Ending, vision: Option<string>, refusal: string -> bool)
    ensures CleanUpStep !in RunByGuard(Script(CS.Stream(chunks, ending, vision, refusal)))
  {
    var frames := CS.Stream(chunks, ending, vision, refusal);
    var shown := frames[..|frames| - 1];
    CS.PassedHasNoSentinel(chunks, vision.Some?);
    assert frames == shown + [CS.Sentinel];
    YieldsConcat(shown, [CS.Sentinel]);
    assert Yields([CS.Sentinel]) == [Yield(CS.Sentinel)];
    var steps := Script(frames);
    assert steps[1..] == Yields(shown) + [Yield(CS.Sentinel)] + [CleanUpStep];
    StopsAtSentinel(shown, [CleanUpStep]);
    YieldsAreYields(shown);
  }

  /** The registry actions that a stream's steps take. */
  function ActionsOf(t: Task, id: string, steps: seq<GenStep>): seq<Action> {
    if steps == [] then []
    else
      (match steps[0]
       case Register => [Open(t, id)]
       case Yield(_) => []
       case CleanUpStep => [Sweep(t)]) + ActionsOf(t, id, steps[1..])
  }

  lemma {:induction false} SweepsAreCleanUps(t: Task, id: string, steps: seq<GenStep>, u: Task)
    ensures Sweep(u) in ActionsOf(t, id, steps) ==> CleanUpStep in steps
  {
    if steps != [] {
      SweepsAreCleanUps(t, id, steps[1..], u);
      assert steps == [steps[0]] + steps[1..];
    }
  }

  /** The action is one of a stream that the guard reads. */
  ghost predicate FromGuardedStream(a: Action) {
    exists t, id, chunks, ending, vision, refusal ::
      a in ActionsOf(t, id, RunByGuard(Script(CS.Stream(chunks, ending, vision, refusal))))
  }

  /** A guarded stream contributes no sweep to the registry's runs. */
  lemma GuardedStreamsDoNotSweep(a: Action)
    requires FromGuardedStream(a)
    ensures !a.Sweep?
  {
    var t, id, chunks, ending, vision, refusal :|
      a in ActionsOf(t, id, RunByGuard(Script(CS.Stream(chunks, ending, vision, refusal))));
    GuardSkipsCleanUp(chunks, ending, vision, refusal);
    if a.Sweep? {
      SweepsAreCleanUps(t, id, RunByGuard(Script(CS.Stream(chunks, ending, vision, refusal))), a.task);
    }
  }

  /** So, in every run in which all streams are guarded, a stream that ends uncancelled stays
      listed until its id is used again. */
  lemma GuardedStaysListed(acts: seq<Action>, id: string)
    requires Exec(acts).Some?
    requires forall i :: 0 <= i < |acts| ==> acts[i].End? || acts[i].Cancel? || FromGuardedStream(acts[i])
    requires id in Exec(acts).value.latest && Exec(acts).value.latest[id] !in Exec(acts).value.cancelled
    ensures Lists(Exec(acts).value, id, Exec(acts).value.latest[id])
  {
    forall i | 0 <= i < |acts| ensures !acts[i].Sweep? {
      if FromGuardedStream(acts[i]) {
        GuardedStreamsDoNotSweep(acts[i]);
      }
    }
    UnsweptStaysListed(acts, id);
  }

  /** Without sweeps, a stream that ends uncancelled stays listed until its id is used again. */
  lemma UnsweptStaysListed(acts: seq<Action>, id: string)
    requires Exec(acts).Some? && forall i :: 0 <= i < |acts| ==> !acts[i].Sweep?
    requires id in Exec(acts).value.latest && Exec(acts).value.latest[id] !in Exec(acts).value.cancelled
    ensures Lists(Exec(acts).value, id, Exec(acts).value.latest[id])
  {
    InvReachable(acts);
    NothingSwept(acts);
    assert IsLatest(Exec(acts).value, id, Exec(acts).value.latest[id]);
  }

  lemma {:induction false} NothingSwept(acts: seq<Action>)
    requires Exec(acts).Some? && forall i :: 0 <= i < |acts| ==> !acts[i].Sweep?
    ensures Exec(acts).value.swept == {}
  {
    if acts != [] {
      NothingSwept(acts[..|acts| - 1]);
    }
  }

  /** So a finished stream can stay listed. */
  lemma FinishedButListed()
    ensures Exec([Open(7, "r"), End(7)]).Some?
    ensures Lists(Exec([Open(7, "r"), End(7)]).value, "r", 7) && 7 in Exec([Open(7, "r"), End(7)]).value.done
  {
    var acts := [Open(7, "r"), End(7)];
    assert acts[..1] == [Open(7, "r")] && acts[..1][..0] == [];
    assert Exec([Open(7, "r")]) == Some(Apply(EMPTY, Open(7, "r")));
  }
}
