/**
 * Coroutine resumes as a function: what `Thread::resume`, src/core/thread.cpp:222-460, does to
 * the statuses of all coroutines, computed from the statuses before the call and a script of
 * what the coroutines do.
 */
module Scheduler {
  import opened LuaValue

  datatype Status = Suspended | Running | Normal | Dead

  /** How one activation of a coroutine ends. A host error, unlike a Lua error, makes
      `resume` put the coroutine into its canonical dead state. */
  datatype Ending = Yielded | Returned | LuaError | HostError

  /** What happens before a coroutine runs: nothing, or a failure to copy arguments or to
      build the frame. */
  datatype Preparation = Ready | BadArgumentCount | FailsWithLuaError | FailsWithHostError

  datatype Script = Script(preparation: Preparation, actions: seq<Action>, ending: Ending)

  /** Threads are named by their position in the order of creation. */
  datatype Action = Create(hasLuaEntry: bool) | Resume(target: nat, script: Script)

  datatype ThreadState = ThreadState(status: Status, firstResume: bool, hasLuaEntry: bool)

  datatype Sched = Sched(threads: seq<ThreadState>, running: Option<nat>)

  /** A call returns, with what it leaves and whether it succeeded, or some resume on the way
      had a Normal target and tangles the caller links. */
  datatype Fate = Ends(after: Sched, ok: bool) | Tangles

  /** The running coroutine is the one that is Running. */
  predicate Orderly(s: Sched) {
    && (s.running.Some? ==> s.running.value < |s.threads|)
    && forall i | 0 <= i < |s.threads| :: s.threads[i].status == Running <==> s.running == Some(i)
  }

  function WithStatus(s: Sched, i: nat, status: Status): Sched
    requires i < |s.threads|
  {
    s.(threads := s.threads[i := s.threads[i].(status := status)])
  }

  /** The caller, if any, gets the status. */
  function CallerBecomes(s: Sched, caller: Option<nat>, status: Status): Sched
    requires caller.Some? ==> caller.value < |s.threads|
  {
    match caller case None => s case Some(r) => WithStatus(s, r, status)
  }

  function Linked(s: Sched, x: nat): Sched
    requires x < |s.threads| && (s.running.Some? ==> s.running.value < |s.threads|)
  {
    var s' := CallerBecomes(s, s.running, Normal);
    Sched(s'.threads[x := ThreadState(Running, false, s.threads[x].hasLuaEntry)], Some(x))
  }

  function Unlinked(s: Sched, caller: Option<nat>, x: nat, status: Status): Sched
    requires x < |s.threads| && (caller.Some? ==> caller.value < |s.threads|)
  {
    WithStatus(CallerBecomes(s, caller, Running), x, status).(running := caller)
  }

  function Killed(s: Sched, x: nat, preparation: Preparation): Sched
    requires x < |s.threads|
  {
    var t := s.threads[x];
    var first := t.firstResume && t.hasLuaEntry && preparation.FailsWithLuaError?;
    s.(threads := s.threads[x := ThreadState(Dead, first, t.hasLuaEntry)])
  }

  function ResumeFate(s: Sched, x: nat, script: Script): (fate: Fate)
    requires x < |s.threads| && (s.running.Some? ==> s.running.value < |s.threads|)
    ensures fate.Ends? ==> |fate.after.threads| >= |s.threads| && fate.after.running == s.running
    decreases script, 1, 0
  {
    var t := s.threads[x];
    if script.preparation.BadArgumentCount? || t.status == Dead || t.status == Running then Ends(s, false)
    else if t.status == Normal then Tangles
    else if (t.firstResume && !t.hasLuaEntry) || !script.preparation.Ready? then
      Ends(Killed(s, x, script.preparation), false)
    else match ActionsFate(Linked(s, x), script, |script.actions|)
      case Tangles => Tangles
      case Ends(s', _) =>
        Ends(Unlinked(s', s.running, x, if script.ending.Yielded? then Suspended else Dead),
             script.ending.Yielded? || script.ending.Returned?)
  }

  /** The first k actions of a script. */
  function ActionsFate(s: Sched, script: Script, k: nat): (fate: Fate)
    requires k <= |script.actions| && (s.running.Some? ==> s.running.value < |s.threads|)
    ensures fate.Ends? ==> |fate.after.threads| >= |s.threads| && fate.after.running == s.running
    decreases script, 0, k
  {
    if k == 0 then Ends(s, true)
    else match ActionsFate(s, script, k - 1)
      case Tangles => Tangles
      case Ends(s', _) => ActionFate(s', script.actions[k - 1])
  }

  function ActionFate(s: Sched, action: Action): (fate: Fate)
    requires s.running.Some? ==> s.running.value < |s.threads|
    ensures fate.Ends? ==> |fate.after.threads| >= |s.threads| && fate.after.running == s.running
    decreases action, 0, 0
  {
    match action
    case Create(lua) => Ends(s.(threads := s.threads + [ThreadState(Suspended, true, lua)]), true)
    case Resume(other, nested) => if other < |s.threads| then ResumeFate(s, other, nested) else Ends(s, true)
  }

  // ------------------------------------------------------- what that amounts to

  predicate IsIdle(status: Status) {
    status == Suspended || status == Dead
  }

  predicate Stands(a: ThreadState, b: ThreadState) {
    if a.status == Suspended then IsIdle(b.status) && b.hasLuaEntry == a.hasLuaEntry else b == a
  }

  /** What was Running, Normal or Dead is as it was; what was Suspended, or is new, is
      Suspended or Dead; and the same coroutine runs. */
  predicate AllStand(s: Sched, s': Sched) {
    && |s'.threads| >= |s.threads| && s'.running == s.running
    && (forall i | 0 <= i < |s.threads| :: Stands(s.threads[i], s'.threads[i]))
    && (forall i | |s.threads| <= i < |s'.threads| :: IsIdle(s'.threads[i].status))
  }

  /** Each resume that returns restores the statuses of all coroutines on the chain and the
      running thread, and leaves the dead dead. */
  lemma {:induction false} ResumeRestores(s: Sched, x: nat, script: Script)
    requires Orderly(s) && x < |s.threads| && ResumeFate(s, x, script).Ends?
    ensures AllStand(s, ResumeFate(s, x, script).after) && Orderly(ResumeFate(s, x, script).after)
    decreases script, 1, 0
  {
    var t := s.threads[x];
    if t.status == Suspended && script.preparation.Ready? && !(t.firstResume && !t.hasLuaEntry) {
      LinkIsOrderly(s, x);
      ActionsRestore(Linked(s, x), script, |script.actions|);
      UnlinkRestores(s, x, ActionsFate(Linked(s, x), script, |script.actions|).after,
                     if script.ending.Yielded? then Suspended else Dead);
    }
  }

  lemma LinkIsOrderly(s: Sched, x: nat)
    requires Orderly(s) && x < |s.threads| && s.threads[x].status == Suspended
    ensures Orderly(Linked(s, x))
  {
  }

  lemma UnlinkRestores(s: Sched, x: nat, s': Sched, status: Status)
    requires Orderly(s) && x < |s.threads| && s.threads[x].status == Suspended
    requires AllStand(Linked(s, x), s') && Orderly(s') && (status == Suspended || status == Dead)
    ensures AllStand(s, Unlinked(s', s.running, x, status)) && Orderly(Unlinked(s', s.running, x, status))
  {
    var l := Linked(s, x);
    forall i | 0 <= i < |s.threads| ensures Stands(s.threads[i], Unlinked(s', s.running, x, status).threads[i]) {
      assert Stands(l.threads[i], s'.threads[i]);
    }
  }

  lemma {:induction false} ActionsRestore(s: Sched, script: Script, k: nat)
    requires Orderly(s) && k <= |script.actions| && ActionsFate(s, script, k).Ends?
    ensures AllStand(s, ActionsFate(s, script, k).after) && Orderly(ActionsFate(s, script, k).after)
    decreases script, 0, k
  {
    if k > 0 {
      ActionsRestore(s, script, k - 1);
      var s' := ActionsFate(s, script, k - 1).after;
      match script.actions[k - 1]
      case Create(lua) =>
      case Resume(other, nested) =>
        if other < |s'.threads| {
          ResumeRestores(s', other, nested);
          StandTwice(s, s', ResumeFate(s', other, nested).after);
        }
    }
  }

  lemma StandTwice(a: Sched, b: Sched, c: Sched)
    requires AllStand(a, b) && AllStand(b, c)
    ensures AllStand(a, c)
  {
    forall i | 0 <= i < |a.threads| ensures Stands(a.threads[i], c.threads[i]) {
      assert Stands(a.threads[i], b.threads[i]) && Stands(b.threads[i], c.threads[i]);
    }
    forall i | |a.threads| <= i < |c.threads| ensures IsIdle(c.threads[i].status) {
      assert i < |b.threads| ==> Stands(b.threads[i], c.threads[i]);
    }
  }

  // ----------------------------------------------------------- when links tangle

  /** A running coroutine is untouched by what it does. */
  lemma RunsUntouched(s: Sched, x: nat, script: Script)
    requires Orderly(s) && x < |s.threads| && s.threads[x].status == Suspended
    requires ActionsFate(Linked(s, x), script, |script.actions|).Ends?
    ensures var s' := ActionsFate(Linked(s, x), script, |script.actions|).after;
            s'.threads[x] == ThreadState(Running, false, s.threads[x].hasLuaEntry)
  {
    LinkIsOrderly(s, x);
    ActionsRestore(Linked(s, x), script, |script.actions|);
    var s' := ActionsFate(Linked(s, x), script, |script.actions|).after;
    assert Stands(Linked(s, x).threads[x], s'.threads[x]);
  }

  lemma OneMoreAction(s: Sched, script: Script, k: nat)
    requires k < |script.actions| && (s.running.Some? ==> s.running.value < |s.threads|)
    requires ActionsFate(s, script, k).Ends?
    ensures ActionsFate(s, script, k + 1) == ActionFate(ActionsFate(s, script, k).after, script.actions[k])
  {
  }

  /** Once tangled, tangled. */
  lemma {:induction false} TanglesFromThere(s: Sched, script: Script, k: nat, n: nat)
    requires k <= n <= |script.actions| && (s.running.Some? ==> s.running.value < |s.threads|)
    requires ActionsFate(s, script, k).Tangles?
    ensures ActionsFate(s, script, n).Tangles?
    decreases n
  {
    if k < n {
      TanglesFromThere(s, script, k, n - 1);
    }
  }

  /** A coroutine that resumes nothing tangles nothing: only a Normal target does. */
  lemma WithoutNestedResumes(s: Sched, x: nat, script: Script)
    requires x < |s.threads| && (s.running.Some? ==> s.running.value < |s.threads|)
    requires forall k | 0 <= k < |script.actions| :: script.actions[k].Create?
    ensures ResumeFate(s, x, script).Tangles?
            <==> s.threads[x].status == Normal && !script.preparation.BadArgumentCount?
  {
    if s.threads[x].status == Suspended {
      OnlyCreating(Linked(s, x), script, |script.actions|);
    }
  }

  lemma {:induction false} OnlyCreating(s: Sched, script: Script, k: nat)
    requires k <= |script.actions| && (s.running.Some? ==> s.running.value < |s.threads|)
    requires forall i | 0 <= i < |script.actions| :: script.actions[i].Create?
    ensures ActionsFate(s, script, k).Ends?
    decreases k
  {
    if k > 0 {
      OnlyCreating(s, script, k - 1);
    }
  }

  /** Inside the script of coroutine `self` no resume names one of `above`, those that wait for
      it, nor, inside the scripts it makes others run, itself; other coroutines may be named
      at will, and self by its own script, which is rejected. */
  predicate NamesNoAncestor(script: Script, self: Option<nat>, above: set<nat>)
    decreases script
  {
    forall k | 0 <= k < |script.actions| :: ActionNamesNoAncestor(script.actions[k], self, above)
  }

  predicate ActionNamesNoAncestor(action: Action, self: Option<nat>, above: set<nat>)
    decreases action
  {
    action.Resume? && !action.script.preparation.BadArgumentCount? ==>
      action.target !in above &&
      (self != Some(action.target) ==> NamesNoAncestor(action.script, Some(action.target), above + Only(self)))
  }

  function Only(x: Option<nat>): set<nat> {
    match x case None => {} case Some(i) => {i}
  }

  /** `above` has every Normal coroutine. */
  predicate CoversNormal(s: Sched, above: set<nat>) {
    forall i | 0 <= i < |s.threads| && s.threads[i].status == Normal :: i in above
  }

  /** Such a script never tangles anything, whatever the statuses. */
  lemma {:induction false} AncestorsLeftAlone(s: Sched, x: nat, script: Script, above: set<nat>)
    requires Orderly(s) && x < |s.threads| && CoversNormal(s, above) && s.threads[x].status != Normal
    requires s.running != Some(x) ==> NamesNoAncestor(script, Some(x), above + Only(s.running))
    ensures ResumeFate(s, x, script).Ends?
    decreases script, 1, 0
  {
    var t := s.threads[x];
    if t.status == Suspended && script.preparation.Ready? && !(t.firstResume && !t.hasLuaEntry) {
      LinkIsOrderly(s, x);
      ActionsLeaveAncestorsAlone(Linked(s, x), script, above + Only(s.running), |script.actions|);
    }
  }

  lemma {:induction false} ActionsLeaveAncestorsAlone(s: Sched, script: Script, above: set<nat>, k: nat)
    requires Orderly(s) && CoversNormal(s, above) && k <= |script.actions|
    requires NamesNoAncestor(script, s.running, above)
    ensures ActionsFate(s, script, k).Ends?
    decreases script, 0, k
  {
    if k > 0 {
      ActionsLeaveAncestorsAlone(s, script, above, k - 1);
      ActionsRestore(s, script, k - 1);
      var s' := ActionsFate(s, script, k - 1).after;
      forall i | 0 <= i < |s'.threads| && s'.threads[i].status == Normal ensures i in above {
        assert i < |s.threads| ==> Stands(s.threads[i], s'.threads[i]);
      }
      var action := script.actions[k - 1];
      assert ActionNamesNoAncestor(action, s.running, above);
      if action.Resume? && action.target < |s'.threads| {
        if action.script.preparation.BadArgumentCount? {
          assert ResumeFate(s', action.target, action.script) == Ends(s', false);
        } else {
          AncestorsLeftAlone(s', action.target, action.script, above);
        }
      }
    }
  }
}
