/**
 * Traversals during which existing entries are assigned at will: in place, cleared, or moved
 * from the hash part to the array part. The Lua 5.1 Reference Manual, section 5.1, `next`,
 * allows every assignment to an existing field.
 */
module Assignments {
  import opened LuaValue
  import opened HashNodes
  import opened TableContents
  import opened Traversal
  import opened TraversalTheorems
  import opened Migration

  /** A traversal under way: the key reported last, nil at first, and all keys reported. */
  datatype Moment = Moment(table: View, cursor: Value, reported: seq<Value>, done: bool)

  ghost predicate CallsNext(s: Moment, s': Moment) {
    && ResumeAt(s.table, s.cursor).Some?
    && var p := FirstFrom(s.table, ResumeAt(s.table, s.cursor).value);
       s' == if p < Span(s.table) then Moment(s.table, KeyAt(s.table, p), s.reported + [KeyAt(s.table, p)], false)
             else s.(done := true)
  }

  ghost predicate AssignsField(s: Moment, s': Moment, limit: nat) {
    s' == s.(table := s'.table) && Assigned(s.table, s'.table, limit)
  }

  ghost predicate Goes(s: Moment, s': Moment, limit: nat) {
    !s.done && (CallsNext(s, s') || AssignsField(s, s', limit))
  }

  /** A traversal of t: calls of `next` and assignments to existing fields in any order, `ms`
      being the maps that the states of the table denote. */
  ghost predicate IsTraversal(t: View, h: Hasher, limit: nat, run: seq<Moment>, ms: seq<Contents>) {
    && |run| == |ms| > 0 && run[0] == Moment(t, Nil, [], false)
    && (forall i | 0 <= i < |run| :: IsTable(run[i].table, h, ms[i]))
    && (forall i | 0 < i < |run| :: Goes(run[i - 1], run[i], limit))
  }

  predicate Distinct(keys: seq<Value>) {
    forall i, j | 0 <= i < j < |keys| :: keys[i] != keys[j]
  }

  predicate AllReported(t: View, keys: seq<Value>) {
    forall x | 0 <= x < Span(t) && Occupied(t, x) :: KeyAt(t, x) in keys
  }

  /** No key was reported twice, the next call is no error, and at the end no key that is
      still there was missed. */
  ghost predicate Faithful(s: Moment) {
    && Distinct(s.reported) && ResumeAt(s.table, s.cursor).Some?
    && (s.done ==> AllReported(s.table, s.reported))
  }

  ghost predicate AlwaysFaithful(t: View, h: Hasher, limit: nat) {
    forall run, ms | IsTraversal(t, h, limit, run, ms) :: Faithful(run[|run| - 1])
  }

  // -------------------------------------------------------------- the condition

  /** An array entry whose key has a node left over from before it moved. */
  ghost predicate HasOldNode(t: View, p: nat) {
    p < |t.arr| && t.arr[p] != Nil && HasNode(t.nodes, IntKey(p + 1), true)
  }

  /** Another key of the hash part could move as well, now or once k has moved. */
  ghost predicate Follows(t: View, limit: nat, k: nat, k': nat) {
    k' != k && 1 <= k' <= limit && (k' <= |t.arr| + 1 || k' == k + 1 == |t.arr| + 2) && InHash(t.nodes, IntKey(k'))
  }

  /** Key k can move, but is the only one, has nothing between its new place and its node,
      and no other key has a node left over. */
  ghost predicate MovesAlone(t: View, limit: nat, k: nat) {
    && HasNode(t.nodes, IntKey(k), true)
    && Vacant(t, k - 1, OldPlace(t, k))
    && (forall p: nat :: !HasOldNode(t, p))
    && (forall k': nat :: !Follows(t, limit, k, k'))
  }

  ghost predicate Steady(t: View, limit: nat) {
    Resumable(t) && forall k: nat | CanMigrate(t, limit, k) :: MovesAlone(t, limit, k)
  }

  // ------------------------------------------------------------ it is sufficient

  /** Exactly the entries before position q have been reported. */
  ghost predicate ReportedBefore(t: View, keys: seq<Value>, q: nat) {
    forall x: nat | x < Span(t) && Occupied(t, x) :: KeyAt(t, x) in keys <==> x < q
  }

  /** The scan is before the new place of k, or behind its node. */
  ghost predicate OffThePath(t: View, k: nat, q: nat) {
    HasNode(t.nodes, IntKey(k), true) ==> q < k || q > OldPlace(t, k)
  }

  ghost predicate OnTrack(s: Moment, h: Hasher, m: Contents, limit: nat) {
    && IsTable(s.table, h, m) && Steady(s.table, limit) && Distinct(s.reported)
    && ResumeAt(s.table, s.cursor).Some?
    && var q := ResumeAt(s.table, s.cursor).value;
       && q <= Span(s.table)
       && ReportedBefore(s.table, s.reported, if s.done then Span(s.table) else q)
       && forall k: nat | CanMigrate(s.table, limit, k) :: OffThePath(s.table, k, q)
  }

  lemma DistinctExtends(keys: seq<Value>, key: Value)
    requires Distinct(keys) && key !in keys
    ensures Distinct(keys + [key])
  {
  }

  lemma CallStaysOnTrack(s: Moment, s': Moment, h: Hasher, m: Contents, limit: nat)
    requires OnTrack(s, h, m, limit) && !s.done && CallsNext(s, s') && limit <= I32_MAX
    ensures OnTrack(s', h, m, limit)
  {
    var t, q := s.table, ResumeAt(s.table, s.cursor).value;
    var p := FirstFrom(t, q);
    if p < Span(t) {
      ResumesBehind(t, h, m, p);
      PositionsAreKeys(t, h, m);
      DistinctExtends(s.reported, KeyAt(t, p));
      forall k: nat | CanMigrate(t, limit, k) ensures OffThePath(t, k, p + 1) {
        assert MovesAlone(t, limit, k) && OffThePath(t, k, q);
      }
    }
  }

  /** An assignment in place moves the scan, if at all, over nothing but empty positions, and
      then some key has an old node. */
  lemma ResumeInPlace(t: View, t': View, h: Hasher, m: Contents, key: Value)
    requires IsTable(t, h, m) && Stable(t, t') && Resumable(t) && ResumeAt(t, key).Some?
    ensures ResumeAt(t', key).Some?
    ensures var q, q' := ResumeAt(t, key).value, ResumeAt(t', key).value;
            q == q' || (0 < q < q' <= Span(t) && HasOldNode(t, q - 1) && Vacant(t, q, q'))
  {
    SameNode(t.nodes, t'.nodes, h, key);
    if IsArrayKey(key) && key.n.i <= |t.arr| && HasNode(t.nodes, key, true) && t.arr[key.n.i - 1] != Nil {
      assert key == IntKey(key.n.i) && HasOldNode(t, key.n.i - 1);
      forall x: nat | key.n.i <= x < |t.arr| + NodeOf(t.nodes, key) + 1 && x < Span(t) ensures !Occupied(t, x) {
        assert !Trap(t, key.n.i - 1, x);
      }
    }
  }

  lemma StaysSteady(t: View, t': View, h: Hasher, m: Contents, m': Contents, limit: nat)
    requires IsTable(t, h, m) && IsTable(t', h, m') && Stable(t, t') && Steady(t, limit) && limit <= I32_MAX
    ensures Steady(t', limit)
    ensures forall k: nat | CanMigrate(t', limit, k) ::
              CanMigrate(t, limit, k) && HasNode(t'.nodes, IntKey(k), true) && HasNode(t.nodes, IntKey(k), true)
              && OldPlace(t', k) == OldPlace(t, k)
  {
    StaysResumable(t, t', h, m);
    forall k: nat | CanMigrate(t', limit, k)
      ensures CanMigrate(t, limit, k) && MovesAlone(t', limit, k)
      ensures HasNode(t.nodes, IntKey(k), true) && OldPlace(t', k) == OldPlace(t, k)
    {
      StaysLive(t.nodes, t'.nodes, IntKey(k));
      assert MovesAlone(t, limit, k);
      SameNode(t.nodes, t'.nodes, h, IntKey(k));
      MovesAloneStays(t, t', h, m, limit, k);
    }
  }

  lemma StaysLive(nodes: seq<HashNode>, nodes': seq<HashNode>, key: Value)
    requires StableNodes(nodes, nodes') && InHash(nodes', key)
    ensures InHash(nodes, key)
  {
    var i :| 0 <= i < |nodes'| && NodeFor(nodes', key, false, i);
    assert StableNode(nodes[i], nodes'[i]) && NodeFor(nodes, key, false, i);
  }

  lemma MovesAloneStays(t: View, t': View, h: Hasher, m: Contents, limit: nat, k: nat)
    requires IsTable(t, h, m) && Stable(t, t') && MovesAlone(t, limit, k)
    ensures MovesAlone(t', limit, k)
  {
    SameNode(t.nodes, t'.nodes, h, IntKey(k));
    forall x: nat | k - 1 <= x < OldPlace(t', k) && x < Span(t') ensures !Occupied(t', x) {
      OccupancyOnlyShrinks(t, t', x);
    }
    forall p: nat ensures !HasOldNode(t', p) {
      SameNode(t.nodes, t'.nodes, h, IntKey(p + 1));
      assert !HasOldNode(t, p);
    }
    forall k': nat ensures !Follows(t', limit, k, k') {
      assert !Follows(t, limit, k, k');
      if InHash(t'.nodes, IntKey(k')) {
        StaysLive(t.nodes, t'.nodes, IntKey(k'));
      }
    }
  }

  lemma InPlaceStaysOnTrack(s: Moment, t': View, h: Hasher, m: Contents, m': Contents, limit: nat)
    requires OnTrack(s, h, m, limit) && !s.done && Stable(s.table, t') && IsTable(t', h, m') && limit <= I32_MAX
    ensures OnTrack(s.(table := t'), h, m', limit)
  {
    var t := s.table;
    ResumeInPlace(t, t', h, m, s.cursor);
    StaysSteady(t, t', h, m, m', limit);
    var q, q' := ResumeAt(t, s.cursor).value, ResumeAt(t', s.cursor).value;
    forall x: nat | x < Span(t') && Occupied(t', x) ensures KeyAt(t', x) in s.reported <==> x < q' {
      OccupancyOnlyShrinks(t, t', x);
      SameKeyInPlace(t, t', x);
    }
    forall k: nat | CanMigrate(t', limit, k) ensures OffThePath(t', k, q') {
      assert OffThePath(t, k, q) && MovesAlone(t, limit, k);
    }
  }

  lemma SameKeyInPlace(t: View, t': View, x: nat)
    requires Stable(t, t') && x < Span(t') && Occupied(t', x)
    ensures KeyAt(t', x) == KeyAt(t, x)
  {
    assert x >= |t.arr| ==> StableNode(t.nodes[x - |t.arr|], t'.nodes[x - |t.arr|]);
  }

  /** A key that moves alone leaves nothing that can move, and no trap. */
  lemma MovedIsSteady(t: View, h: Hasher, m: Contents, limit: nat, k: nat, v: Value)
    requires IsTable(t, h, m) && Steady(t, limit) && CanMigrate(t, limit, k) && v != Nil && limit <= I32_MAX
    ensures Steady(Migrated(t, k, v), limit)
    ensures forall k': nat :: !CanMigrate(Migrated(t, k, v), limit, k')
  {
    var t' := Migrated(t, k, v);
    LiveNode(t, h, m, k);
    MigratedIsTable(t, h, m, k, v);
    assert MovesAlone(t, limit, k);
    DropIsStable(t.nodes, IntKey(k));
    forall p: nat, x: nat ensures !Trap(t', p, x) {
      NoTrapAfter(t, h, m, limit, k, v, p, x);
    }
    forall k': nat ensures !CanMigrate(t', limit, k') {
      assert !Follows(t, limit, k, k');
      if InHash(t'.nodes, IntKey(k')) {
        StaysLive(t.nodes, t'.nodes, IntKey(k'));
        LiveNode(t', h, Assign(m, IntKey(k), v), k');
      }
    }
  }

  lemma NoTrapAfter(t: View, h: Hasher, m: Contents, limit: nat, k: nat, v: Value, p: nat, x: nat)
    requires IsTable(t, h, m) && CanMigrate(t, limit, k) && MovesAlone(t, limit, k) && v != Nil && limit <= I32_MAX
    ensures !Trap(Migrated(t, k, v), p, x)
  {
    var t' := Migrated(t, k, v);
    LiveNode(t, h, m, k);
    DropIsStable(t.nodes, IntKey(k));
    SameNode(t.nodes, t'.nodes, h, IntKey(p + 1));
    if p == k - 1 {
      if x < Span(t') && Occupied(t', x) && x != k - 1 {
        var y := UnshiftedEntry(t, h, m, k, v, x);
      }
    } else {
      assert !HasOldNode(t, p);
    }
  }

  lemma MoveStaysOnTrack(s: Moment, h: Hasher, m: Contents, m': Contents, limit: nat, k: nat, v: Value)
    requires OnTrack(s, h, m, limit) && !s.done && limit <= I32_MAX
    requires CanMigrate(s.table, limit, k) && v != Nil && IsTable(Migrated(s.table, k, v), h, m')
    ensures OnTrack(s.(table := Migrated(s.table, k, v)), h, m', limit)
  {
    var t, t' := s.table, Migrated(s.table, k, v);
    var q := ResumeAt(t, s.cursor).value;
    assert MovesAlone(t, limit, k) && OffThePath(t, k, q);
    MovedIsSteady(t, h, m, limit, k, v);
    MovedEntry(t, h, m, k, v);
    LiveNode(t, h, m, k);
    if s.cursor == IntKey(k) {
      forall x: nat | x < Span(t') && Occupied(t', x) ensures KeyAt(t', x) in s.reported <==> x < k {
        MovedCursor(t, h, m, k, v, s.reported, q, x);
      }
    } else {
      ResumeShifted(t, h, m, k, v, s.cursor);
      forall x: nat | x < Span(t') && Occupied(t', x)
        ensures KeyAt(t', x) in s.reported <==> x < ResumeAt(t', s.cursor).value
      {
        MovedUnderway(t, h, m, k, v, s.reported, q, x);
      }
    }
  }

  lemma MovedCursor(t: View, h: Hasher, m: Contents, k: nat, v: Value, keys: seq<Value>, q: nat, x: nat)
    requires IsTable(t, h, m) && CanMigrate(t, I32_MAX, k) && v != Nil && HasNode(t.nodes, IntKey(k), true)
    requires ReportedBefore(t, keys, q) && q == OldPlace(t, k) + 1 && Vacant(t, k - 1, OldPlace(t, k))
    requires x < Span(Migrated(t, k, v)) && Occupied(Migrated(t, k, v), x)
    ensures KeyAt(Migrated(t, k, v), x) in keys <==> x < k
  {
    MovedEntry(t, h, m, k, v);
    PositionsAreKeys(t, h, m);
    if x != k - 1 {
      var y := UnshiftedEntry(t, h, m, k, v, x);
      assert y != OldPlace(t, k);
    }
  }

  lemma MovedUnderway(t: View, h: Hasher, m: Contents, k: nat, v: Value, keys: seq<Value>, q: nat, x: nat)
    requires IsTable(t, h, m) && CanMigrate(t, I32_MAX, k) && v != Nil && HasNode(t.nodes, IntKey(k), true)
    requires ReportedBefore(t, keys, q) && q <= Span(t) && OffThePath(t, k, q)
    requires x < Span(Migrated(t, k, v)) && Occupied(Migrated(t, k, v), x)
    ensures KeyAt(Migrated(t, k, v), x) in keys
            <==> x < if q <= |t.arr| then q else Shifted(t, Migrated(t, k, v), q)
  {
    MovedEntry(t, h, m, k, v);
    if x != k - 1 {
      var y := UnshiftedEntry(t, h, m, k, v, x);
    }
  }

  lemma {:induction false} SteadyIsFaithful(t: View, h: Hasher, limit: nat, run: seq<Moment>, ms: seq<Contents>)
    requires IsTraversal(t, h, limit, run, ms) && Steady(t, limit) && limit <= I32_MAX
    ensures OnTrack(run[|run| - 1], h, ms[|ms| - 1], limit)
    decreases |run|
  {
    if |run| == 1 {
      StartsOnTrack(t, h, ms[0], limit);
    } else {
      var n := |run| - 1;
      PrefixOfTraversal(t, h, limit, run, ms);
      var before, ms' := run[..n], ms[..n];
      SteadyIsFaithful(t, h, limit, before, ms');
      assert before[|before| - 1] == run[n - 1] && ms'[|ms'| - 1] == ms[n - 1];
      StepStaysOnTrack(run[n - 1], run[n], h, ms[n - 1], ms[n], limit);
    }
  }

  lemma StartsOnTrack(t: View, h: Hasher, m: Contents, limit: nat)
    requires IsTable(t, h, m) && Steady(t, limit)
    ensures OnTrack(Moment(t, Nil, [], false), h, m, limit)
  {
  }

  lemma PrefixOfTraversal(t: View, h: Hasher, limit: nat, run: seq<Moment>, ms: seq<Contents>)
    requires IsTraversal(t, h, limit, run, ms) && |run| > 1
    ensures var n := |run| - 1;
            IsTraversal(t, h, limit, run[..n], ms[..n]) && Goes(run[n - 1], run[n], limit)
            && IsTable(run[n].table, h, ms[n])
  {
  }

  lemma StepStaysOnTrack(s: Moment, s': Moment, h: Hasher, m: Contents, m': Contents, limit: nat)
    requires OnTrack(s, h, m, limit) && Goes(s, s', limit) && IsTable(s'.table, h, m') && limit <= I32_MAX
    ensures OnTrack(s', h, m', limit)
  {
    if CallsNext(s, s') {
      CallStaysOnTrack(s, s', h, m, limit);
      OneMap(s.table.arr, s.table.nodes, m, m');
    } else if Stable(s.table, s'.table) {
      InPlaceStaysOnTrack(s, s'.table, h, m, m', limit);
    } else {
      var k: nat, v :| v != Nil && CanMigrate(s.table, limit, k) && s'.table == Migrated(s.table, k, v);
      MoveStaysOnTrack(s, h, m, m', limit, k, v);
    }
  }
}
