/**
 * The coroutine protocol of `Thread::resume` and `Thread::abortResume`, src/core/thread.cpp:
 * status, caller link and the running thread, on objects. What a coroutine does between being
 * resumed and leaving again is an arbitrary script of creations and nested resumes.
 */
module Coroutine {

  import opened LuaValue
  import opened Scheduler

  class Thread {
    var status: Status
    var caller: Thread?
    var firstResume: bool
    const hasLuaEntry: bool

    constructor (hasLuaEntry: bool)
      ensures status == Suspended && caller == null && firstResume && this.hasLuaEntry == hasLuaEntry
    {
      this.hasLuaEntry := hasLuaEntry;
      status, caller, firstResume := Suspended, null, true;
    }
  }

  function StateOf(t: Thread): ThreadState
    reads t
  {
    ThreadState(t.status, t.firstResume, t.hasLuaEntry)
  }

  /** The coroutine gets to run: it is suspended, its arguments arrive, its frame can be built,
      and if it has not run before, it starts with a Lua function. */
  predicate RunsAtAll(t: ThreadState, script: Script) {
    t.status == Suspended && script.preparation.Ready? && (t.firstResume ==> t.hasLuaEntry)
  }

  predicate Distinct(roster: seq<Thread>) {
    forall i, j | 0 <= i < j < |roster| :: roster[i] != roster[j]
  }

  /** The running coroutine, the one that resumed it, and so on to the main thread: a chain
      of distinct threads, the head Running and the rest Normal; all other threads are
      Suspended or Dead and have no caller. */
  ghost predicate IsChain(chain: seq<Thread>, running: Thread?, all: set<Thread>)
    reads all
  {
    && (forall t | t in chain :: t in all)
    && (if chain == [] then running == null else running == chain[0])
    && (forall i | 0 <= i < |chain| :: LinkOk(chain, i))
    && (forall i, j | 0 <= i < j < |chain| :: chain[i] != chain[j])
    && (forall t | t in all && t !in chain :: (t.status == Suspended || t.status == Dead) && t.caller == null)
  }

  ghost predicate LinkOk(chain: seq<Thread>, i: nat)
    requires i < |chain|
    reads chain[i]
  {
    && chain[i].status == (if i == 0 then Running else Normal)
    && chain[i].caller == (if i + 1 < |chain| then chain[i + 1] else null)
  }

  /** The only Running thread is the head of the chain; a thread off the chain has no caller. */
  lemma WhereStatusIs(chain: seq<Thread>, running: Thread?, all: set<Thread>, t: Thread)
    requires IsChain(chain, running, all) && t in all
    ensures t.status == Running ==> chain != [] && t == chain[0] == running
    ensures t.status == Running ==> t.caller == if |chain| > 1 then chain[1] else null
    ensures t.status == Normal ==> t in chain
    ensures t.status == Suspended || t.status == Dead ==> t !in chain && t != running && t.caller == null
  {
    if t in chain {
      var i :| 0 <= i < |chain| && chain[i] == t;
      assert LinkOk(chain, i) && LinkOk(chain, 0);
    }
  }

  class Runtime {
    var running: Thread?
    var roster: seq<Thread>

    ghost var chain: seq<Thread>

    ghost function All(): set<Thread>
      reads this
    {
      set t | t in roster
    }

    ghost predicate Valid()
      reads this, roster
    {
      IsChain(chain, running, All()) && Distinct(roster)
    }

    /** These statuses, in the order of creation, and this running coroutine. */
    ghost predicate Denotes(s: Sched)
      reads this, roster
    {
      && |s.threads| == |roster|
      && (forall i | 0 <= i < |roster| :: StateIs(s, i))
      && match s.running
         case None => running == null
         case Some(x) => x < |roster| && running == roster[x]
    }

    ghost predicate StateIs(s: Sched, i: nat)
      requires i < |s.threads| == |roster|
      reads this, roster
    {
      s.threads[i] == StateOf(roster[i])
    }

    /** A valid runtime denotes one schedule, an orderly one. */
    lemma DenotesOrderly(s: Sched)
      requires Valid() && Denotes(s)
      ensures Orderly(s)
    {
      assert chain != [] ==> chain[0] in All();
      forall i | 0 <= i < |s.threads| ensures s.threads[i].status == Running <==> s.running == Some(i) {
        assert StateIs(s, i) && roster[i] in All();
        WhereStatusIs(chain, running, All(), roster[i]);
        assert running != null ==> LinkOk(chain, 0);
      }
    }

    lemma DenotesOne(s: Sched, s': Sched)
      requires Distinct(roster) && Denotes(s) && Denotes(s')
      ensures s == s'
    {
      forall i | 0 <= i < |roster| ensures s.threads[i] == s'.threads[i] {
        assert StateIs(s, i) && StateIs(s', i);
      }
    }

    /** Threads by their positions in the roster. */
    ghost function Named(ids: seq<nat>): (c: seq<Thread>)
      requires forall i | 0 <= i < |ids| :: ids[i] < |roster|
      reads this
      ensures |c| == |ids|
    {
      var threads := roster;
      seq(|ids|, i requires 0 <= i < |ids| => threads[ids[i]])
    }

    /** The caller links from the running coroutine are no chain of any kind. */
    ghost predicate Tangled()
      reads this, roster
    {
      forall ids: seq<nat> | forall i | 0 <= i < |ids| :: ids[i] < |roster| :: !IsChain(Named(ids), running, All())
    }

    constructor ()
      ensures Valid() && running == null && roster == [] && chain == [] && Denotes(Sched([], None))
    {
      running, roster, chain := null, [], [];
    }

    method CreateThread(hasLuaEntry: bool) returns (t: Thread)
      requires Valid()
      modifies this`roster
      ensures Valid() && fresh(t) && roster == old(roster) + [t]
      ensures t.status == Suspended && t.firstResume && t.hasLuaEntry == hasLuaEntry
    {
      t := new Thread(hasLuaEntry);
      roster := roster + [t];
    }

    /** The coroutine ends up Dead, and off the chain if it was the running one. If it was a
        Normal one the chain breaks at it. */
    method AbortResume(t: Thread)
      requires Valid() && t in roster
      modifies this`running, this`chain, All()
      ensures if old(t.status) == Normal then Tangled()
              else Valid() && chain == if old(t.status) == Running then old(chain)[1..] else old(chain)
      ensures roster == old(roster) && t.status == Dead && !t.firstResume
      ensures forall u | u in roster && old(u.status) == Dead :: u.status == Dead
      ensures old(t.status) != Normal && old(t.status) != Running ==>
                running == old(running) && forall u | u in roster && u != t :: StateOf(u) == old(StateOf(u))
    {
      WhereStatusIs(chain, running, All(), t);
      ghost var before := chain;
      label Before:
      ghost var wasRunning, wasNormal := t.status == Running, t.status == Normal;
      ghost var k: nat := 0;
      if wasNormal {
        k :| 0 <= k < |chain| && chain[k] == t;
        assert LinkOk(chain, k);
      }
      assert wasRunning && |chain| > 1 ==> LinkOk(chain, 1);
      t.status := Dead;
      t.firstResume := false;
      if running == t {
        running := t.caller;
      }
      if t.caller != null && t.caller.status == Normal {
        t.caller.status := Running;
      }
      t.caller := null;
      if wasNormal {
        forall i | 0 <= i < k ensures before[i].caller == before[i + 1] {
          assert old@Before(LinkOk(before, i));
        }
        forall ids: seq<nat> | forall i | 0 <= i < |ids| :: ids[i] < |roster|
          ensures !IsChain(Named(ids), running, All())
        {
          if IsChain(Named(ids), running, All()) {
            ChainReachesNormal(before, k, Named(ids));
          }
        }
      } else if wasRunning {
        chain := chain[1..];
        forall i | 0 <= i < |chain| ensures LinkOk(chain, i) {
          assert old@Before(LinkOk(before, i + 1));
        }
      } else {
        forall i | 0 <= i < |chain| ensures LinkOk(chain, i) {
          assert old@Before(LinkOk(before, i));
        }
      }
    }

    /** A chain that starts where these links start runs along them. */
    lemma ChainReachesNormal(before: seq<Thread>, k: nat, c: seq<Thread>)
      requires 0 < k < |before| && running == before[0] && IsChain(c, running, All())
      requires forall i | 0 <= i < k :: before[i].caller == before[i + 1]
      ensures before[k].status == Normal
    {
      assert LinkOk(c, 0);
      var i := 0;
      while i < k
        invariant 0 <= i <= k && i < |c| && c[i] == before[i]
      {
        assert LinkOk(c, i) && c[i].caller == before[i + 1];
        i := i + 1;
      }
      assert LinkOk(c, k);
    }

    /** The linking step of `resume`, which is reached for a Suspended and for a Normal
        target alike: it extends the chain if, and only if, the target was Suspended. A
        Normal target closes the caller links into a loop. */
    method Enter(target: Thread)
      requires Valid() && target in roster && (target.status == Suspended || target.status == Normal)
      modifies this`running, this`chain, All()
      ensures roster == old(roster)
      ensures old(target.status) == Suspended ==> Valid() && chain == [target] + old(chain)
      ensures old(target.status) == Normal ==> Tangled()
      ensures forall u | u in roster && old(u.status) == Dead :: u.status == Dead
      ensures running == target && forall u | u in roster ::
                u.firstResume == old(u.firstResume)
                && u.status == if u == target then Running else if u == old(running) then Normal else old(u.status)
    {
      WhereStatusIs(chain, running, All(), target);
      ghost var before := chain;
      label Before:
      ghost var wasNormal := target.status == Normal;
      ghost var k: nat := 0;
      if wasNormal {
        k :| 0 <= k < |chain| && chain[k] == target;
        assert LinkOk(chain, k);
      }
      assert running != null ==> running in chain && LinkOk(chain, 0);
      var callerThread := running;
      if callerThread != null {
        callerThread.status := Normal;
      }
      target.caller := callerThread;
      target.status := Running;
      running := target;
      chain := [target] + chain;
      if wasNormal {
        forall i | 0 <= i < k ensures before[i].caller == before[i + 1] {
          assert old@Before(LinkOk(before, i));
        }
        forall ids: seq<nat> | forall i | 0 <= i < |ids| :: ids[i] < |roster|
          ensures !IsChain(Named(ids), running, All())
        {
          NoChainThroughNormal(before, k, Named(ids));
        }
      } else {
        forall i | 0 <= i < |chain| ensures LinkOk(chain, i) {
          if i > 0 {
            assert old@Before(LinkOk(before, i - 1));
          }
        }
      }
    }

    /** `restoreCallerContext`: undoes the linking step. */
    method Restore(target: Thread, previousRunning: Thread?, previousCallerStatus: Status)
      requires Valid() && chain != [] && target == chain[0]
      requires previousRunning == (if |chain| > 1 then chain[1] else null)
      requires previousRunning != null ==> previousCallerStatus == Running
      modifies this`running, this`chain, All()
      ensures roster == old(roster) && chain == old(chain)[1..]
      ensures target.status == Running && target.caller == null && target !in chain && running == previousRunning
      ensures IsChain(chain, running, All() - {target})
      ensures forall u | u in roster && old(u.status) == Dead :: u.status == Dead
      ensures forall u | u in roster ::
                u.firstResume == old(u.firstResume) && u.status == if u == running then Running else old(u.status)
    {
      ghost var before := chain;
      label Before:
      assert LinkOk(chain, 0) && (|chain| > 1 ==> LinkOk(chain, 1) && chain[1] in chain);
      if previousRunning != null {
        previousRunning.status := previousCallerStatus;
      }
      running := previousRunning;
      target.caller := null;
      chain := chain[1..];
      forall i | 0 <= i < |chain| ensures LinkOk(chain, i) {
        assert old@Before(LinkOk(before, i + 1));
      }
    }

    /** A chain from a resumed Normal thread would run along the old chain back to it. */
    lemma NoChainThroughNormal(before: seq<Thread>, k: nat, c: seq<Thread>)
      requires 0 < k < |before| && running == before[k] && before[k].caller == before[0]
      requires forall i | 0 <= i < k :: before[i].caller == before[i + 1]
      ensures !IsChain(c, running, All())
    {
      if IsChain(c, running, All()) {
        assert LinkOk(c, 0);
        var i := 0;
        while i < k
          invariant 0 <= i <= k && i + 1 < |c| && c[i + 1] == before[i]
        {
          assert LinkOk(c, i + 1) && c[i + 1].caller == before[i + 1];
          i := i + 1;
        }
      }
    }

    /** Gives a thread off the chain its status. */
    method Settle(target: Thread, status: Status)
      requires target in roster && target !in chain && target.caller == null
      requires IsChain(chain, running, All() - {target}) && Distinct(roster) && (status == Suspended || status == Dead)
      modifies target`status
      ensures Valid() && target.status == status
    {
      label Before:
      target.status := status;
      forall i | 0 <= i < |chain| ensures LinkOk(chain, i) {
        assert old@Before(LinkOk(chain, i));
      }
    }

    /** What the running coroutine, or the main thread, does: an arbitrary sequence of
        creations and nested resumes. Where `ActionsFate` says that no resume tangles the
        links, all statuses are as it says and the chain is as before. A resume that does
        tangle them ends the run. */
    method Execute(script: Script, ghost s: Sched) returns (tangled: bool)
      requires Valid() && Denotes(s)
      modifies this, All()
      ensures tangled <==> ActionsFate(s, script, |script.actions|).Tangles?
      ensures if tangled then Tangled()
              else Valid() && chain == old(chain) && Denotes(ActionsFate(s, script, |script.actions|).after)
      ensures old(roster) <= roster && fresh(All() - old(All()))
      ensures forall u | u in old(roster) && old(u.status) == Dead :: u.status == Dead
      decreases script, 0, 1
    {
      ghost var now := s;
      for i := 0 to |script.actions|
        invariant ActionsFate(s, script, i).Ends? && ActionsFate(s, script, i).after == now
        invariant Valid() && chain == old(chain) && Denotes(now)
        invariant old(roster) <= roster && fresh(All() - old(All()))
        invariant forall u | u in old(roster) && old(u.status) == Dead :: u.status == Dead
      {
        tangled, now := ActAsNext(s, script, i, now);
        if tangled {
          return true;
        }
      }
      return false;
    }

    /** Action number k, once those before it have led from s to `now`. */
    method ActAsNext(ghost s: Sched, script: Script, k: nat, ghost now: Sched) returns (tangled: bool, ghost next: Sched)
      requires Valid() && Denotes(now) && k < |script.actions| && (s.running.Some? ==> s.running.value < |s.threads|)
      requires ActionsFate(s, script, k).Ends? && ActionsFate(s, script, k).after == now
      modifies this, All()
      ensures if tangled then Tangled() && ActionsFate(s, script, |script.actions|).Tangles?
              else Valid() && chain == old(chain) && Denotes(next)
                   && ActionsFate(s, script, k + 1).Ends? && ActionsFate(s, script, k + 1).after == next
      ensures old(roster) <= roster && fresh(All() - old(All()))
      ensures forall u | u in old(roster) && old(u.status) == Dead :: u.status == Dead
      decreases script, 0, 0
    {
      OneMoreAction(s, script, k);
      tangled := Act(script.actions[k], now);
      next := now;
      if tangled {
        TanglesFromThere(s, script, k + 1, |script.actions|);
      } else {
        next := ActionFate(now, script.actions[k]).after;
      }
    }

    method Act(action: Action, ghost s: Sched) returns (tangled: bool)
      requires Valid() && Denotes(s)
      modifies this, All()
      ensures tangled <==> ActionFate(s, action).Tangles?
      ensures if tangled then Tangled() else Valid() && chain == old(chain) && Denotes(ActionFate(s, action).after)
      ensures old(roster) <= roster && fresh(All() - old(All()))
      ensures forall u | u in old(roster) && old(u.status) == Dead :: u.status == Dead
      decreases action, 3
    {
      label Before:
      tangled := false;
      match action {
        case Create(hasLuaEntry) =>
          var t := CreateThread(hasLuaEntry);
          ghost var after := ActionFate(s, action).after;
          forall i | 0 <= i < |roster| ensures StateIs(after, i) {
            assert i < |s.threads| ==> old@Before(StateIs(s, i));
          }
        case Resume(other, nested) =>
          if other < |roster| {
            var ok;
            ok, tangled := Resume(roster[other], nested, s, other);
          }
      }
    }

    /** `Thread::resume`. Where `ResumeFate` says that no resume on the way tangles the links,
        every status is as it says, the call succeeds as it says, and the running thread and
        the chain are as before. Otherwise no chain is left. */
    method Resume(target: Thread, script: Script, ghost s: Sched, ghost x: nat) returns (ok: bool, tangled: bool)
      requires Valid() && Denotes(s) && x < |roster| && roster[x] == target
      modifies this, All()
      ensures tangled <==> ResumeFate(s, x, script).Tangles?
      ensures if tangled then Tangled()
              else Valid() && chain == old(chain) && running == old(running)
                   && Denotes(ResumeFate(s, x, script).after) && ok == ResumeFate(s, x, script).ok
      ensures ok ==> !tangled && old(target.status) == Suspended
      ensures !tangled && RunsAtAll(old(StateOf(target)), script) ==>
                && (ok <==> script.ending.Yielded? || script.ending.Returned?)
                && target.status == (if script.ending.Yielded? then Suspended else Dead) && !target.firstResume
      ensures !tangled && old(target.status) == Suspended && !script.preparation.BadArgumentCount?
              && !RunsAtAll(old(StateOf(target)), script) ==>
                && target.status == Dead
                && (target.firstResume <==> old(target.firstResume) && target.hasLuaEntry
                                            && script.preparation.FailsWithLuaError?)
      ensures !tangled && (old(target.status) != Suspended || script.preparation.BadArgumentCount?) ==>
                StateOf(target) == old(StateOf(target))
      ensures old(roster) <= roster && fresh(All() - old(All()))
      ensures forall u | u in old(roster) && old(u.status) == Dead :: u.status == Dead
      decreases script, 2
    {
      WhereStatusIs(chain, running, All(), target);
      assert StateIs(s, x);
      if script.preparation.BadArgumentCount? || target.status == Dead || target.status == Running {
        return false, false;
      }
      if (target.firstResume && !target.hasLuaEntry) || !script.preparation.Ready? {
        tangled := target.status == Normal;
        FailBeforeRunning(target, script.preparation, s, x);
        return false, tangled;
      }
      if target.status == Normal {
        Enter(target);
        return false, true;
      }
      tangled := Activate(target, script, s, x);
      if tangled {
        return false, true;
      }
      if script.ending.HostError? {
        AbortDead(target, ResumeFate(s, x, script).after, x);
      }
      return script.ending.Yielded? || script.ending.Returned?, false;
    }

    /** An entry that is no Lua function, and the catch clauses before the coroutine has been
        linked. */
    method FailBeforeRunning(target: Thread, preparation: Preparation, ghost s: Sched, ghost x: nat)
      requires Valid() && Denotes(s) && x < |roster| && roster[x] == target
      requires target.status == Suspended || target.status == Normal
      requires !preparation.BadArgumentCount?
      requires (target.firstResume && !target.hasLuaEntry) || !preparation.Ready?
      modifies this`running, this`chain, All()
      ensures if old(target.status) == Normal then Tangled()
              else Valid() && chain == old(chain) && running == old(running) && Denotes(Killed(s, x, preparation))
      ensures roster == old(roster) && target.status == Dead
      ensures old(target.status) == Suspended ==>
                (target.firstResume <==> old(target.firstResume) && target.hasLuaEntry && preparation.FailsWithLuaError?)
      ensures forall u | u in roster && old(u.status) == Dead :: u.status == Dead
    {
      WhereStatusIs(chain, running, All(), target);
      label Before:
      assert StateIs(s, x);
      if (target.firstResume && !target.hasLuaEntry) || preparation.FailsWithHostError? {
        AbortResume(target);
      } else if target.status == Normal {
        KillNormal(target);
      } else {
        Settle(target, Dead);
      }
      forall i | 0 <= i < |roster| ensures old(target.status) == Suspended ==> StateIs(Killed(s, x, preparation), i) {
        assert old@Before(StateIs(s, i)) && roster[i] in roster;
      }
    }

    /** `abortResume` on a coroutine that is dead already changes no status. */
    method AbortDead(target: Thread, ghost s: Sched, ghost x: nat)
      requires Valid() && Denotes(s) && x < |roster| && roster[x] == target
      requires target.status == Dead && !target.firstResume
      modifies this`running, this`chain, All()
      ensures Valid() && Denotes(s) && chain == old(chain) && running == old(running) && roster == old(roster)
      ensures target.status == Dead && !target.firstResume
      ensures forall u | u in roster && old(u.status) == Dead :: u.status == Dead
    {
      label Before:
      AbortResume(target);
      forall i | 0 <= i < |roster| ensures StateIs(s, i) {
        assert old@Before(StateIs(s, i)) && roster[i] in roster;
      }
    }

    method KillNormal(t: Thread)
      requires Valid() && t in roster && t.status == Normal
      modifies t`status
      ensures Tangled() && t.status == Dead
    {
      WhereStatusIs(chain, running, All(), t);
      ghost var k: nat :| k < |chain| && chain[k] == t;
      assert LinkOk(chain, k);
      label Before:
      t.status := Dead;
      forall i | 0 <= i < k ensures chain[i].caller == chain[i + 1] {
        assert old@Before(LinkOk(chain, i));
      }
      forall ids: seq<nat> | forall i | 0 <= i < |ids| :: ids[i] < |roster|
        ensures !IsChain(Named(ids), running, All())
      {
        if IsChain(Named(ids), running, All()) {
          ChainReachesNormal(chain, k, Named(ids));
        }
      }
    }

    method BeginActivation(target: Thread)
      requires Valid() && target in roster
      modifies target`firstResume
      ensures Valid() && !target.firstResume
    {
      label Before:
      target.firstResume := false;
      forall i | 0 <= i < |chain| ensures LinkOk(chain, i) {
        assert old@Before(LinkOk(chain, i));
      }
    }

    /** The part of `resume` that runs the coroutine: links it, lets it act, unlinks it. */
    method Activate(target: Thread, script: Script, ghost s: Sched, ghost x: nat) returns (tangled: bool)
      requires Valid() && Denotes(s) && x < |roster| && roster[x] == target && target.status == Suspended
      modifies this, All()
      ensures tangled <==> ActionsFate(Linked(s, x), script, |script.actions|).Tangles?
      ensures if tangled then Tangled()
              else Valid() && chain == old(chain) && running == old(running) && !target.firstResume
                   && target.status == (if script.ending.Yielded? then Suspended else Dead)
                   && Denotes(Unlinked(ActionsFate(Linked(s, x), script, |script.actions|).after, s.running, x,
                                       if script.ending.Yielded? then Suspended else Dead))
      ensures old(roster) <= roster && fresh(All() - old(All()))
      ensures forall u | u in old(roster) && old(u.status) == Dead :: u.status == Dead
      decreases script, 1
    {
      var previousRunning := running;
      assert chain != [] ==> LinkOk(chain, 0);
      var previousCallerStatus := if running != null then running.status else Dead;
      DenotesOrderly(s);
      assert StateIs(s, x);
      Link(target, s, x);
      tangled := Execute(script, Linked(s, x));
      if tangled {
        return;
      }
      ghost var s' := ActionsFate(Linked(s, x), script, |script.actions|).after;
      RunsUntouched(s, x, script);
      assert StateIs(s', x);
      Unlink(target, previousRunning, previousCallerStatus, if script.ending.Yielded? then Suspended else Dead, s', s.running, x);
    }

    method Link(target: Thread, ghost s: Sched, ghost x: nat)
      requires Valid() && Denotes(s) && x < |roster| && roster[x] == target && target.status == Suspended
      modifies this`running, this`chain, All()
      ensures Valid() && Denotes(Linked(s, x)) && chain == [target] + old(chain) && roster == old(roster)
      ensures forall u | u in roster && old(u.status) == Dead :: u.status == Dead
    {
      label Before:
      BeginActivation(target);
      Enter(target);
      forall i | 0 <= i < |roster| ensures StateIs(Linked(s, x), i) {
        assert old@Before(StateIs(s, i)) && roster[i] in roster;
      }
    }

    method Unlink(target: Thread, previousRunning: Thread?, previousCallerStatus: Status, status: Status,
                  ghost s: Sched, ghost caller: Option<nat>, ghost x: nat)
      requires Valid() && Denotes(s) && x < |roster| && roster[x] == target && chain != [] && target == chain[0]
      requires previousRunning == (if |chain| > 1 then chain[1] else null)
      requires previousRunning != null ==> previousCallerStatus == Running
      requires match caller case None => previousRunning == null
                            case Some(r) => r < |roster| && previousRunning == roster[r]
      requires status == Suspended || status == Dead
      modifies this`running, this`chain, All()
      ensures Valid() && Denotes(Unlinked(s, caller, x, status)) && chain == old(chain)[1..]
      ensures roster == old(roster) && running == previousRunning
      ensures target.firstResume == old(target.firstResume) && target.status == status
      ensures forall u | u in roster && old(u.status) == Dead :: u.status == Dead
    {
      label Before:
      Restore(target, previousRunning, previousCallerStatus);
      Settle(target, status);
      forall i | 0 <= i < |roster| ensures StateIs(Unlinked(s, caller, x, status), i) {
        assert old@Before(StateIs(s, i)) && roster[i] in roster;
      }
    }
  }

  /** What a main thread does with coroutines, from none on. In the end either the statuses
      are as the schedule says and the main thread runs again, or some resume had a Normal
      target and the schedule says so. */
  method RunMain(script: Script) returns (r: Runtime, tangled: bool)
    ensures tangled <==> ActionsFate(Sched([], None), script, |script.actions|).Tangles?
    ensures if tangled then r.Tangled()
            else r.Valid() && r.chain == [] && r.running == null
                 && r.Denotes(ActionsFate(Sched([], None), script, |script.actions|).after)
  {
    r := new Runtime();
    tangled := r.Execute(script, Sched([], None));
  }
}
