/**
 * The condition of `Assignments` is needed: from every other table some traversal, with
 * nothing but assignments to existing fields in it, misses a key that stays.
 */
module AssignmentTraps {
  import opened LuaValue
  import opened HashNodes
  import opened TableContents
  import opened Traversal
  import opened TraversalTheorems
  import opened Migration
  import opened Assignments

  lemma Continue(t0: View, h: Hasher, limit: nat, run: seq<Moment>, ms: seq<Contents>, s: Moment, m: Contents)
    requires IsTraversal(t0, h, limit, run, ms) && Goes(run[|run| - 1], s, limit) && IsTable(s.table, h, m)
    ensures IsTraversal(t0, h, limit, run + [s], ms + [m])
  {
    var run' := run + [s];
    forall i | 0 < i < |run'| ensures Goes(run'[i - 1], run'[i], limit) {
      assert i < |run| ==> Goes(run[i - 1], run[i], limit);
    }
  }

  /** No entry from q to goal has this key. */
  predicate Avoids(t: View, key: Value, q: nat, goal: nat) {
    forall x: nat | q <= x <= goal && x < Span(t) && Occupied(t, x) :: KeyAt(t, x) != key
  }

  lemma AvoidsOtherPlaces(t: View, h: Hasher, m: Contents, place: nat, q: nat, goal: nat)
    requires IsTable(t, h, m) && place < Span(t) && Occupied(t, place) && !(q <= place <= goal)
    ensures Avoids(t, KeyAt(t, place), q, goal)
  {
    PositionsAreKeys(t, h, m);
  }

  /** A traversal that is at q, on this table, and has not reported this key. */
  ghost predicate At(t0: View, h: Hasher, limit: nat, run: seq<Moment>, ms: seq<Contents>, t: View, m: Contents, q: nat, key: Value) {
    && IsTraversal(t0, h, limit, run, ms)
    && var s := run[|run| - 1];
       && s.table == t && ms[|ms| - 1] == m && IsTable(t, h, m) && !s.done
       && ResumeAt(t, s.cursor) == Some(q) && key !in s.reported
  }

  /** A traversal that is over and has not reported this key. */
  ghost predicate Over(t0: View, h: Hasher, limit: nat, run: seq<Moment>, ms: seq<Contents>, t: View, key: Value) {
    IsTraversal(t0, h, limit, run, ms) && run[|run| - 1].table == t && run[|run| - 1].done && key !in run[|run| - 1].reported
  }

  /** One more call, which reports entry p. */
  lemma Call(t0: View, h: Hasher, limit: nat, run: seq<Moment>, ms: seq<Contents>, t: View, m: Contents, q: nat, key: Value)
    returns (run': seq<Moment>, ms': seq<Contents>)
    requires At(t0, h, limit, run, ms, t, m, q, key)
    requires FirstFrom(t, q) < Span(t) ==> KeyAt(t, FirstFrom(t, q)) != key && Occupied(t, FirstFrom(t, q))
    ensures if FirstFrom(t, q) < Span(t)
            then At(t0, h, limit, run', ms', t, m, FirstFrom(t, q) + 1, key)
                 && run'[|run'| - 1].cursor == KeyAt(t, FirstFrom(t, q))
            else Over(t0, h, limit, run', ms', t, key)
  {
    var s, p := run[|run| - 1], FirstFrom(t, q);
    var s' := if p < Span(t) then Moment(t, KeyAt(t, p), s.reported + [KeyAt(t, p)], false) else s.(done := true);
    Continue(t0, h, limit, run, ms, s', m);
    run', ms' := run + [s'], ms + [m];
    if p < Span(t) {
      ResumesBehind(t, h, m, p);
    }
  }

  /** Calls alone lead to any entry ahead. */
  lemma {:induction false} WalkTo(t0: View, h: Hasher, limit: nat, run: seq<Moment>, ms: seq<Contents>, t: View, m: Contents, q: nat, key: Value, goal: nat)
    returns (run': seq<Moment>, ms': seq<Contents>)
    requires At(t0, h, limit, run, ms, t, m, q, key)
    requires q <= goal < Span(t) && Occupied(t, goal) && Avoids(t, key, q, goal)
    ensures At(t0, h, limit, run', ms', t, m, goal + 1, key) && run'[|run'| - 1].cursor == KeyAt(t, goal)
    decreases goal - q
  {
    var p := FirstFrom(t, q);
    assert p <= goal;
    run', ms' := Call(t0, h, limit, run, ms, t, m, q, key);
    if p < goal {
      run', ms' := WalkTo(t0, h, limit, run', ms', t, m, p + 1, key, goal);
    }
  }

  /** ... and to the end. */
  lemma {:induction false} WalkOut(t0: View, h: Hasher, limit: nat, run: seq<Moment>, ms: seq<Contents>, t: View, m: Contents, q: nat, key: Value)
    returns (run': seq<Moment>, ms': seq<Contents>)
    requires At(t0, h, limit, run, ms, t, m, q, key) && q <= Span(t) && Avoids(t, key, q, Span(t))
    ensures Over(t0, h, limit, run', ms', t, key)
    decreases Span(t) - q
  {
    var p := FirstFrom(t, q);
    run', ms' := Call(t0, h, limit, run, ms, t, m, q, key);
    if p < Span(t) {
      run', ms' := WalkOut(t0, h, limit, run', ms', t, m, p + 1, key);
    }
  }

  /** An assignment, after which the traversal is at q'. */
  lemma Change(t0: View, h: Hasher, limit: nat, run: seq<Moment>, ms: seq<Contents>, t: View, m: Contents, q: nat, key: Value, t': View, m': Contents, q': nat)
    returns (run': seq<Moment>, ms': seq<Contents>)
    requires At(t0, h, limit, run, ms, t, m, q, key)
    requires Assigned(t, t', limit) && IsTable(t', h, m')
    requires ResumeAt(t', run[|run| - 1].cursor) == Some(q')
    ensures At(t0, h, limit, run', ms', t', m', q', key)
    ensures run'[|run'| - 1].cursor == run[|run| - 1].cursor
  {
    var s' := run[|run| - 1].(table := t');
    Continue(t0, h, limit, run, ms, s', m');
    run', ms' := run + [s'], ms + [m'];
  }

  lemma LostKey(t0: View, h: Hasher, limit: nat, run: seq<Moment>, ms: seq<Contents>, t: View, key: Value, x: nat)
    requires Over(t0, h, limit, run, ms, t, key) && x < Span(t) && Occupied(t, x) && KeyAt(t, x) == key
    ensures !AlwaysFaithful(t0, h, limit)
  {
    assert !Faithful(run[|run| - 1]);
  }

  // ------------------------------------------------------------- the four traps

  /** Clearing the current entry makes the scan jump over x. */
  lemma ClearingLoses(t0: View, h: Hasher, limit: nat, run: seq<Moment>, ms: seq<Contents>, t: View, m: Contents, p: nat, x: nat)
    requires Trap(t, p, x) && At(t0, h, limit, run, ms, t, m, 0, KeyAt(t, x))
    ensures !AlwaysFaithful(t0, h, limit)
  {
    var key := KeyAt(t, x);
    AvoidsOtherPlaces(t, h, m, x, 0, p);
    var run1, ms1 := WalkTo(t0, h, limit, run, ms, t, m, 0, key, p);
    var t', m' := View(t.arr[p := Nil], t.nodes), Assign(m, IntKey(p + 1), Nil);
    ClearingJumps(t, h, m, p);
    var q' := |t.arr| + NodeOf(t.nodes, IntKey(p + 1)) + 1;
    var run2, ms2 := Change(t0, h, limit, run1, ms1, t, m, p + 1, key, t', m', q');
    AvoidsOtherPlaces(t', h, m', x, q', Span(t'));
    var run3, ms3 := WalkOut(t0, h, limit, run2, ms2, t', m', q', key);
    LostKey(t0, h, limit, run3, ms3, t', key, x);
  }

  /** Moving a key from ahead of the current entry to behind it hides it from the scan. */
  lemma MovingLoses(t0: View, h: Hasher, limit: nat, run: seq<Moment>, ms: seq<Contents>, t: View, m: Contents, k: nat, x: nat)
    requires limit <= I32_MAX && CanMigrate(t, limit, k) && HasNode(t.nodes, IntKey(k), true)
    requires k - 1 <= x < OldPlace(t, k) && x < Span(t) && Occupied(t, x)
    requires At(t0, h, limit, run, ms, t, m, 0, IntKey(k))
    ensures !AlwaysFaithful(t0, h, limit)
  {
    var key, v := IntKey(k), Boolean(true);
    LiveNode(t, h, m, k);
    MovedEntry(t, h, m, k, v);
    AvoidsOtherPlaces(t, h, m, OldPlace(t, k), 0, x);
    var run1, ms1 := WalkTo(t0, h, limit, run, ms, t, m, 0, key, x);
    PositionsAreKeys(t, h, m);
    ResumesBehind(t, h, m, x);
    ResumeShifted(t, h, m, k, v, KeyAt(t, x));
    var t' := Migrated(t, k, v);
    var q' := ResumeAt(t', KeyAt(t, x)).value;
    MoveAndFinish(t0, h, limit, run1, ms1, t, m, x + 1, k, q');
  }

  /** Key k moves to a place before q', where the traversal then is. */
  lemma MoveAndFinish(t0: View, h: Hasher, limit: nat, run: seq<Moment>, ms: seq<Contents>, t: View, m: Contents, q: nat, k: nat, q': nat)
    requires limit <= I32_MAX && CanMigrate(t, limit, k)
    requires At(t0, h, limit, run, ms, t, m, q, IntKey(k))
    requires ResumeAt(Migrated(t, k, Boolean(true)), run[|run| - 1].cursor) == Some(q')
    requires k <= q' <= Span(Migrated(t, k, Boolean(true)))
    ensures !AlwaysFaithful(t0, h, limit)
  {
    var key, v := IntKey(k), Boolean(true);
    var t', m' := Migrated(t, k, v), Assign(m, key, v);
    MovedEntry(t, h, m, k, v);
    MigratedIsTable(t, h, m, k, v);
    var run1, ms1 := Change(t0, h, limit, run, ms, t, m, q, key, t', m', q');
    AvoidsOtherPlaces(t', h, m', k - 1, q', Span(t'));
    var run2, ms2 := WalkOut(t0, h, limit, run1, ms1, t', m', q', key);
    LostKey(t0, h, limit, run2, ms2, t', key, k - 1);
  }

  /** Clearing the current entry, which has an old node, and then moving a key loses the key:
      the scan has jumped to the nodes, and the key moves to the slots. */
  lemma ClearingAndMovingLose(t0: View, h: Hasher, limit: nat, run: seq<Moment>, ms: seq<Contents>, t: View, m: Contents, k: nat, p: nat)
    requires limit <= I32_MAX && CanMigrate(t, limit, k) && HasOldNode(t, p) && p < k - 1
    requires At(t0, h, limit, run, ms, t, m, 0, IntKey(k))
    ensures !AlwaysFaithful(t0, h, limit)
  {
    var key, v := IntKey(k), Boolean(true);
    LiveNode(t, h, m, k);
    MovedEntry(t, h, m, k, v);
    AvoidsOtherPlaces(t, h, m, OldPlace(t, k), 0, p);
    var run1, ms1 := WalkTo(t0, h, limit, run, ms, t, m, 0, key, p);
    var t', m' := View(t.arr[p := Nil], t.nodes), Assign(m, IntKey(p + 1), Nil);
    ClearingJumps(t, h, m, p);
    var q' := |t.arr| + NodeOf(t.nodes, IntKey(p + 1)) + 1;
    var run2, ms2 := Change(t0, h, limit, run1, ms1, t, m, p + 1, key, t', m', q');
    ResumeShifted(t', h, m', k, v, IntKey(p + 1));
    MoveAndFinish(t0, h, limit, run2, ms2, t', m', q', k, Shifted(t', Migrated(t', k, v), q'));
  }

  /** A traversal that has not made its first call. */
  ghost predicate AtStart(t0: View, h: Hasher, limit: nat, run: seq<Moment>, ms: seq<Contents>, t: View, m: Contents) {
    IsTraversal(t0, h, limit, run, ms) && run[|run| - 1] == Moment(t, Nil, [], false)
    && ms[|ms| - 1] == m && IsTable(t, h, m)
  }

  /** Of two keys that can move, the one with the later node can be lost. */
  lemma RivalsLose(t0: View, h: Hasher, limit: nat, run: seq<Moment>, ms: seq<Contents>, t: View, m: Contents, k: nat, k': nat)
    requires limit <= I32_MAX && AtStart(t0, h, limit, run, ms, t, m)
    requires CanMigrate(t, limit, k) && CanMigrate(t, limit, k') && k != k'
    ensures !AlwaysFaithful(t0, h, limit)
  {
    LiveNode(t, h, m, k);
    LiveNode(t, h, m, k');
    if OldPlace(t, k') < OldPlace(t, k) {
      MovingLoses(t0, h, limit, run, ms, t, m, k, OldPlace(t, k'));
    } else {
      MovingLoses(t0, h, limit, run, ms, t, m, k', OldPlace(t, k));
    }
  }

  /** So can the key behind the last one, once that has moved: it then has an old node. */
  lemma SuccessorLoses(t0: View, h: Hasher, limit: nat, run: seq<Moment>, ms: seq<Contents>, t: View, m: Contents, k: nat)
    requires limit <= I32_MAX && AtStart(t0, h, limit, run, ms, t, m)
    requires CanMigrate(t, limit, k) && k == |t.arr| + 1 && k + 1 <= limit && InHash(t.nodes, IntKey(k + 1))
    ensures !AlwaysFaithful(t0, h, limit)
  {
    var v := Boolean(true);
    var t', m' := Migrated(t, k, v), Assign(m, IntKey(k), v);
    LiveNode(t, h, m, k);
    MigratedIsTable(t, h, m, k, v);
    DropIsStable(t.nodes, IntKey(k));
    SameNode(t.nodes, t'.nodes, h, IntKey(k));
    StillInHash(t.nodes, IntKey(k), IntKey(k + 1));
    assert HasOldNode(t', k - 1);
    var run', ms' := Change(t0, h, limit, run, ms, t, m, 0, IntKey(k + 1), t', m', 0);
    ClearingAndMovingLose(t0, h, limit, run', ms', t', m', k + 1, k - 1);
  }

  lemma CrowdedLoses(t0: View, h: Hasher, limit: nat, run: seq<Moment>, ms: seq<Contents>, t: View, m: Contents, k: nat)
    requires limit <= I32_MAX && AtStart(t0, h, limit, run, ms, t, m)
    requires CanMigrate(t, limit, k) && !MovesAlone(t, limit, k)
    ensures !AlwaysFaithful(t0, h, limit)
  {
    LiveNode(t, h, m, k);
    if !Vacant(t, k - 1, OldPlace(t, k)) {
      var x: nat :| k - 1 <= x < OldPlace(t, k) && x < Span(t) && Occupied(t, x);
      MovingLoses(t0, h, limit, run, ms, t, m, k, x);
    } else if exists p: nat :: HasOldNode(t, p) {
      var p: nat :| HasOldNode(t, p);
      assert Occupied(t, p);
      ClearingAndMovingLose(t0, h, limit, run, ms, t, m, k, p);
    } else {
      var k': nat :| Follows(t, limit, k, k');
      if k' <= |t.arr| + 1 {
        RivalsLose(t0, h, limit, run, ms, t, m, k, k');
      } else {
        SuccessorLoses(t0, h, limit, run, ms, t, m, k);
      }
    }
  }

  /** Every traversal, with existing fields assigned at will in between, reports no key twice
      and misses no key that stays, if and only if the table it starts on is steady. */
  lemma FaithfulIffSteady(t: View, h: Hasher, m: Contents, limit: nat)
    requires IsTable(t, h, m) && |t.arr| <= limit <= I32_MAX
    ensures AlwaysFaithful(t, h, limit) <==> Steady(t, limit)
  {
    if Steady(t, limit) {
      forall run, ms | IsTraversal(t, h, limit, run, ms) ensures Faithful(run[|run| - 1]) {
        SteadyIsFaithful(t, h, limit, run, ms);
        OnTrackIsFaithful(run[|run| - 1], h, ms[|ms| - 1], limit);
      }
    } else {
      var run, ms := [Moment(t, Nil, [], false)], [m];
      if !Resumable(t) {
        var p: nat, x: nat :| Trap(t, p, x);
        ClearingLoses(t, h, limit, run, ms, t, m, p, x);
      } else {
        var k: nat :| CanMigrate(t, limit, k) && !MovesAlone(t, limit, k);
        CrowdedLoses(t, h, limit, run, ms, t, m, k);
      }
    }
  }

  lemma OnTrackIsFaithful(s: Moment, h: Hasher, m: Contents, limit: nat)
    requires OnTrack(s, h, m, limit)
    ensures Faithful(s)
  {
  }

  /** A table without integer keys in its hash part, Live or Dead, is steady. */
  lemma NoIntegerNodesIsSteady(t: View, limit: nat)
    requires forall k: nat :: !HasNode(t.nodes, IntKey(k), true)
    ensures Steady(t, limit)
  {
    forall p: nat, x: nat ensures !Trap(t, p, x) {
      assert !HasNode(t.nodes, IntKey(p + 1), true);
    }
    forall k: nat ensures !CanMigrate(t, limit, k) {
      if InHash(t.nodes, IntKey(k)) {
        var i :| 0 <= i < |t.nodes| && NodeFor(t.nodes, IntKey(k), false, i);
        assert NodeFor(t.nodes, IntKey(k), true, i);
      }
    }
  }
}
