/** The single-flight guard of hfusionhub-frontend/src/composables/useChatSending.ts, under any
    interleaving of task starts, task ends and forced releases. */
module SendGuard {
  import opened Common

  /** The guard's variables: `released` holds the owners whose `released` flag is set, and the
      owners are numbered in the order in which they start. */
  datatype Guard = Guard(sending: bool, releaseCurrent: Option<nat>, released: set<nat>, started: nat)

  const IDLE := Guard(false, None, {}, 0)

  /** `releaseMine` of an owner. */
  function Release(g: Guard, owner: nat): Guard {
    if owner in g.released then g
    else
      var current := if g.releaseCurrent == Some(owner) then None else g.releaseCurrent;
      Guard(false, current, g.released + {owner}, g.started)
  }

  /** `runExclusive` up to where it awaits the task; it is refused while `sending`. */
  function Enter(g: Guard): Guard {
    if g.sending then g else Guard(true, Some(g.started), g.released, g.started + 1)
  }

  /** The `finally` block of an owner's `runExclusive`. */
  function Leave(g: Guard, owner: nat): Guard {
    if g.releaseCurrent == Some(owner) then Release(g, owner) else g
  }

  function ForceIdle(g: Guard): Guard {
    if g.releaseCurrent.Some? then Release(g, g.releaseCurrent.value) else g
  }

  class ChatSending {
    var sending: bool
    var releaseCurrent: Option<nat>
    var released: set<nat>
    var started: nat

    function State(): Guard
      reads this
    {
      Guard(sending, releaseCurrent, released, started)
    }

    constructor ()
      ensures State() == IDLE
    {
      sending, releaseCurrent, released, started := false, None, {}, 0;
    }

    method ReleaseMine(owner: nat)
      modifies this
      ensures State() == Release(old(State()), owner)
    {
      if owner in released {
        return;
      }
      released := released + {owner};
      sending := false;
      if releaseCurrent == Some(owner) {
        releaseCurrent := None;
      }
    }

    method BeginExclusive() returns (owner: Option<nat>)
      modifies this
      ensures State() == Enter(old(State()))
      ensures owner == if old(sending) then None else Some(old(started))
    {
      if sending {
        return None;
      }
      sending := true;
      releaseCurrent := Some(started);
      owner := Some(started);
      started := started + 1;
    }

    method EndExclusive(owner: nat)
      modifies this
      ensures State() == Leave(old(State()), owner)
    {
      if releaseCurrent == Some(owner) {
        ReleaseMine(owner);
      }
    }

    method Force()
      modifies this
      ensures State() == ForceIdle(old(State()))
    {
      if releaseCurrent.Some? {
        ReleaseMine(releaseCurrent.value);
      }
    }
  }

  // ---- interleavings -------------------------------------------------------------------

  datatype Action = Begin | End(owner: nat) | Stop

  /** The guard, the tasks that are still running, and those of them that a forced release has
      let go. */
  datatype System = System(guard: Guard, running: set<nat>, stopped: set<nat>)

  predicate Enabled(s: System, a: Action) {
    a.End? ==> a.owner in s.running
  }

  function Apply(s: System, a: Action): System {
    match a
    case Begin =>
      System(Enter(s.guard), if s.guard.sending then s.running else s.running + {s.guard.started}, s.stopped)
    case End(o) => System(Leave(s.guard, o), s.running - {o}, s.stopped - {o})
    case Stop =>
      System(ForceIdle(s.guard), s.running,
             if s.guard.releaseCurrent.Some? then s.stopped + {s.guard.releaseCurrent.value} else s.stopped)
  }

  function Exec(acts: seq<Action>): Option<System> {
    if acts == [] then Some(System(IDLE, {}, {}))
    else
      var before := Exec(acts[..|acts| - 1]);
      if before.Some? && Enabled(before.value, acts[|acts| - 1])
      then Some(Apply(before.value, acts[|acts| - 1])) else None
  }

  /** The owners that have started and whose flag is not set. */
  function Unreleased(g: Guard): set<nat> {
    set o | 0 <= o < g.started && o !in g.released
  }

  function Registered(g: Guard): set<nat> {
    if g.releaseCurrent.Some? then {g.releaseCurrent.value} else {}
  }

  ghost predicate Inv(s: System) {
    && (s.guard.sending <==> s.guard.releaseCurrent.Some?)
    && Unreleased(s.guard) == Registered(s.guard)
    && s.running == Registered(s.guard) + s.stopped
    && Registered(s.guard) !! s.stopped
    && (forall o :: o in s.running ==> o < s.guard.started)
    && (forall o :: o in s.guard.released ==> o < s.guard.started)
  }

  lemma InvKept(s: System, a: Action)
    requires Inv(s) && Enabled(s, a)
    ensures Inv(Apply(s, a))
  {
    var s', g := Apply(s, a), s.guard;
    assert forall o: nat :: o in Unreleased(g) <==> o in Registered(g);
    forall o: nat ensures o in Unreleased(s'.guard) <==> o in Registered(s'.guard) {
      assert o in Unreleased(g) <==> o in Registered(g);
    }
    assert forall o :: o in s.stopped ==> o in s.running;
  }

  lemma {:induction false} InvReachable(acts: seq<Action>)
    requires Exec(acts).Some?
    ensures Inv(Exec(acts).value)
  {
    if acts != [] {
      InvReachable(acts[..|acts| - 1]);
      InvKept(Exec(acts[..|acts| - 1]).value, acts[|acts| - 1]);
    }
  }

  /** `sending` holds exactly when one unreleased owner exists; it is the registered one and
      its task is running, so that the guard is never stuck without a task to free it. */
  lemma SendingIffOneOwner(acts: seq<Action>)
    requires Exec(acts).Some?
    ensures var s := Exec(acts).value;
      (s.guard.sending <==>
        exists o: nat :: Unreleased(s.guard) == {o} && s.guard.releaseCurrent == Some(o) && o in s.running) &&
      (!s.guard.sending <==> Unreleased(s.guard) == {})
  {
    InvReachable(acts);
    var s := Exec(acts).value;
    if s.guard.sending {
      var o := s.guard.releaseCurrent.value;
      assert Unreleased(s.guard) == {o} && o in s.running;
    }
  }

  /** A task that ends after it was forced to release never frees a later owner: the guard is
      as it was. */
  lemma LateEndChangesNothing(acts: seq<Action>, owner: nat)
    requires Exec(acts).Some? && owner in Exec(acts).value.stopped
    ensures Enabled(Exec(acts).value, End(owner))
    ensures Apply(Exec(acts).value, End(owner)).guard == Exec(acts).value.guard
  {
    InvReachable(acts);
  }

  /** The tasks that run beside the guard's owner are exactly those let go by a forced release;
      without one, at most one task runs. */
  lemma WhoRuns(acts: seq<Action>)
    requires Exec(acts).Some?
    ensures var s := Exec(acts).value;
      s.running - s.stopped == Registered(s.guard) && s.stopped <= s.running
    ensures (forall i :: 0 <= i < |acts| ==> acts[i] != Stop) ==> |Exec(acts).value.running| <= 1
  {
    InvReachable(acts);
    if forall i :: 0 <= i < |acts| ==> acts[i] != Stop {
      NeverStopped(acts);
    }
  }

  lemma {:induction false} NeverStopped(acts: seq<Action>)
    requires Exec(acts).Some? && forall i :: 0 <= i < |acts| ==> acts[i] != Stop
    ensures Exec(acts).value.stopped == {}
  {
    if acts != [] {
      NeverStopped(acts[..|acts| - 1]);
    }
  }

  /** With a forced release two tasks can run at once. */
  lemma TwoTasksAfterStop()
    ensures Exec([Begin, Stop, Begin]).Some? && Exec([Begin, Stop, Begin]).value.running == {0, 1}
  {
    var acts := [Begin, Stop, Begin];
    assert acts[..2] == [Begin, Stop] && acts[..2][..1] == [Begin] && acts[..2][..1][..0] == [];
    var s1 := Apply(System(IDLE, {}, {}), Begin);
    assert Exec([Begin]) == Some(s1);
    assert Exec([Begin, Stop]) == Some(Apply(s1, Stop));
  }
}
