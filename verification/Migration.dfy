/**
 * What becomes of a traversal when an existing integer key is assigned and thereby moves from
 * the hash part to the array part, src/core/table.cpp:113-137, 246-250 and 416-483.
 */
module Migration {
  import opened LuaValue
  import opened HashNodes
  import opened TableContents
  import opened Traversal
  import opened TraversalTheorems

  /** The position of a key that has a node. */
  ghost function OldPlace(t: View, k: nat): nat
    requires HasNode(t.nodes, IntKey(k), true)
  {
    |t.arr| + NodeOf(t.nodes, IntKey(k))
  }

  lemma LiveNode(t: View, h: Hasher, m: Contents, k: nat)
    requires IsTable(t, h, m) && InHash(t.nodes, IntKey(k))
    ensures HasNode(t.nodes, IntKey(k), true)
    ensures var i := NodeOf(t.nodes, IntKey(k));
            && i < |t.nodes| && t.nodes[i].state.Live? && t.nodes[i].key == IntKey(k)
            && DropKey(t.nodes, IntKey(k)) == t.nodes[i := t.nodes[i].(value := Nil, state := Dead)]
    ensures 1 <= k <= |t.arr| ==> t.arr[k - 1] == Nil
  {
    var key := IntKey(k);
    var i :| 0 <= i < |t.nodes| && NodeFor(t.nodes, key, false, i);
    OneNodeOf(t.nodes, h, key, i);
    DropFoundKey(t.nodes, h, key, i);
    assert NodeHeld(t.arr, t.nodes, m, i);
  }

  lemma MigratedIsTable(t: View, h: Hasher, m: Contents, k: nat, v: Value)
    requires IsTable(t, h, m) && CanMigrate(t, I32_MAX, k) && v != Nil
    ensures IsTable(Migrated(t, k, v), h, Assign(m, IntKey(k), v))
  {
    LiveNode(t, h, m, k);
    var i := NodeOf(t.nodes, IntKey(k));
    ReplaceKeepsProbeOk(t.nodes, h, i, t.nodes[i].(value := Nil, state := Dead));
    var grown := Grown(t.arr, k);
    GrowArray(t.arr, t.nodes, m, seq(|grown| - |t.arr|, _ => Nil));
    assert grown == t.arr + seq(|grown| - |t.arr|, _ => Nil);
    StoreInArray(grown, t.nodes, m, k - 1, v);
  }

  // ------------------------------------------------------ where entries end up

  /** Where an entry other than the moved one goes. */
  function Shifted(t: View, t': View, x: nat): nat
    requires |t.arr| <= |t'.arr|
  {
    if x < |t.arr| then x else x - |t.arr| + |t'.arr|
  }

  lemma ShiftedEntry(t: View, h: Hasher, m: Contents, k: nat, v: Value, x: nat)
    requires IsTable(t, h, m) && CanMigrate(t, I32_MAX, k) && v != Nil
    requires x < Span(t) && Occupied(t, x) && KeyAt(t, x) != IntKey(k)
    ensures var t' := Migrated(t, k, v);
            var x' := Shifted(t, t', x);
            x' < Span(t') && x' != k - 1 && Occupied(t', x') && KeyAt(t', x') == KeyAt(t, x)
  {
    LiveNode(t, h, m, k);
  }

  lemma UnshiftedEntry(t: View, h: Hasher, m: Contents, k: nat, v: Value, x': nat) returns (x: nat)
    requires IsTable(t, h, m) && CanMigrate(t, I32_MAX, k) && v != Nil
    requires x' < Span(Migrated(t, k, v)) && Occupied(Migrated(t, k, v), x') && x' != k - 1
    ensures x < Span(t) && Occupied(t, x) && x' == Shifted(t, Migrated(t, k, v), x)
    ensures KeyAt(t, x) == KeyAt(Migrated(t, k, v), x')
    ensures KeyAt(t, x) != IntKey(k)
  {
    var t' := Migrated(t, k, v);
    LiveNode(t, h, m, k);
    x := if x' < |t.arr| then x' else x' - |t'.arr| + |t.arr|;
    PositionsAreKeys(t, h, m);
    assert x != OldPlace(t, k);
  }

  lemma MovedEntry(t: View, h: Hasher, m: Contents, k: nat, v: Value)
    requires IsTable(t, h, m) && CanMigrate(t, I32_MAX, k) && v != Nil
    ensures var t' := Migrated(t, k, v);
            k - 1 < |t'.arr| && Occupied(t', k - 1) && KeyAt(t', k - 1) == IntKey(k)
            && ResumeAt(t', IntKey(k)) == Some(k)
    ensures HasNode(t.nodes, IntKey(k), true) && OldPlace(t, k) < Span(t)
    ensures Occupied(t, OldPlace(t, k)) && KeyAt(t, OldPlace(t, k)) == IntKey(k)
  {
    LiveNode(t, h, m, k);
  }

  /** Every other key resumes the scan at the shifted position. */
  lemma ResumeShifted(t: View, h: Hasher, m: Contents, k: nat, v: Value, key: Value)
    requires IsTable(t, h, m) && CanMigrate(t, I32_MAX, k) && v != Nil
    requires key != IntKey(k) && ResumeAt(t, key).Some?
    ensures var t', q := Migrated(t, k, v), ResumeAt(t, key).value;
            ResumeAt(t', key) == Some(if q <= |t.arr| then q else Shifted(t, t', q))
  {
    var t' := Migrated(t, k, v);
    LiveNode(t, h, m, k);
    assert StableNodes(t.nodes, t'.nodes);
    SameNode(t.nodes, t'.nodes, h, key);
  }

  // ------------------------------------------- one assignment in a traversal

  /** The keys a scan from position q reports. */
  function KeysFrom(t: View, q: nat): set<Value> {
    set x | q <= x < Span(t) && Occupied(t, x) :: KeyAt(t, x)
  }

  predicate Vacant(t: View, from: int, to: nat) {
    forall x: nat | from <= x < to && x < Span(t) :: !Occupied(t, x)
  }

  /** Key k is behind the scan, or ahead of it, both before and after it moves. */
  predicate OutOfTheWay(t: View, k: nat, place: nat, p: nat) {
    p < k - 1 || p > place || (p == place && Vacant(t, k - 1, place))
  }

  lemma RestWithoutMoved(t: View, h: Hasher, m: Contents, k: nat, v: Value, q: nat)
    requires IsTable(t, h, m) && CanMigrate(t, I32_MAX, k) && v != Nil && q <= Span(t)
    ensures var t' := Migrated(t, k, v);
            KeysFrom(t', if q <= |t.arr| then q else Shifted(t, t', q)) - {IntKey(k)} == KeysFrom(t, q) - {IntKey(k)}
  {
    var t' := Migrated(t, k, v);
    var q' := if q <= |t.arr| then q else Shifted(t, t', q);
    MovedEntry(t, h, m, k, v);
    forall key | key in KeysFrom(t, q) - {IntKey(k)} ensures key in KeysFrom(t', q') {
      var x :| q <= x < Span(t) && Occupied(t, x) && KeyAt(t, x) == key;
      ShiftedEntry(t, h, m, k, v, x);
      assert q' <= Shifted(t, t', x);
    }
    forall key | key in KeysFrom(t', q') - {IntKey(k)} ensures key in KeysFrom(t, q) {
      var x' :| q' <= x' < Span(t') && Occupied(t', x') && KeyAt(t', x') == key;
      var x := UnshiftedEntry(t, h, m, k, v, x');
      assert q <= x;
    }
  }

  lemma InRest(t: View, h: Hasher, m: Contents, q: nat, x: nat)
    requires IsTable(t, h, m) && x < Span(t) && Occupied(t, x)
    ensures KeyAt(t, x) in KeysFrom(t, q) <==> q <= x
  {
    PositionsAreKeys(t, h, m);
  }

  /** Key k is assigned, and moves, while the entry at p is the current one: the rest of the
      traversal reports what it would have reported, nothing lost and nothing repeated, if
      and only if k is out of the way. */
  lemma MigrationIsHarmlessIff(t: View, h: Hasher, m: Contents, k: nat, v: Value, p: nat)
    requires IsTable(t, h, m) && CanMigrate(t, I32_MAX, k) && v != Nil
    requires p < Span(t) && Occupied(t, p)
    ensures HasNode(t.nodes, IntKey(k), true)
    ensures var t' := Migrated(t, k, v);
            var at := ResumeAt(t', KeyAt(t, p));
            at.Some? && (KeysFrom(t', at.value) == KeysFrom(t, p + 1) <==> OutOfTheWay(t, k, OldPlace(t, k), p))
  {
    MovedEntry(t, h, m, k, v);
    PositionsAreKeys(t, h, m);
    if p == OldPlace(t, k) {
      CurrentKeyMoves(t, h, m, k, v);
    } else {
      OtherKeyMoves(t, h, m, k, v, p);
    }
  }

  lemma OtherKeyMoves(t: View, h: Hasher, m: Contents, k: nat, v: Value, p: nat)
    requires IsTable(t, h, m) && CanMigrate(t, I32_MAX, k) && v != Nil && HasNode(t.nodes, IntKey(k), true)
    requires p < Span(t) && Occupied(t, p) && KeyAt(t, p) != IntKey(k)
    ensures var at := ResumeAt(Migrated(t, k, v), KeyAt(t, p));
            at.Some? && (KeysFrom(Migrated(t, k, v), at.value) == KeysFrom(t, p + 1)
                         <==> p < k - 1 || p > OldPlace(t, k))
  {
    var t', place := Migrated(t, k, v), OldPlace(t, k);
    LiveNode(t, h, m, k);
    MovedEntry(t, h, m, k, v);
    MigratedIsTable(t, h, m, k, v);
    ResumesBehind(t, h, m, p);
    ResumeShifted(t, h, m, k, v, KeyAt(t, p));
    var q' := ResumeAt(t', KeyAt(t, p)).value;
    RestWithoutMoved(t, h, m, k, v, p + 1);
    InRest(t, h, m, p + 1, place);
    InRest(t', h, Assign(m, IntKey(k), v), q', k - 1);
    SameButFor(KeysFrom(t', q'), KeysFrom(t, p + 1), IntKey(k));
  }

  lemma SameButFor<T>(a: set<T>, b: set<T>, x: T)
    requires a - {x} == b - {x}
    ensures a == b <==> (x in a <==> x in b)
  {
    if x in a && x in b {
      assert a == (a - {x}) + {x} && b == (b - {x}) + {x};
    } else if x !in a && x !in b {
      assert a == a - {x} && b == b - {x};
    }
  }

  lemma CurrentKeyMoves(t: View, h: Hasher, m: Contents, k: nat, v: Value)
    requires IsTable(t, h, m) && CanMigrate(t, I32_MAX, k) && v != Nil
    ensures HasNode(t.nodes, IntKey(k), true)
    ensures KeysFrom(Migrated(t, k, v), k) == KeysFrom(t, OldPlace(t, k) + 1)
            <==> Vacant(t, k - 1, OldPlace(t, k))
  {
    LiveNode(t, h, m, k);
    MovedEntry(t, h, m, k, v);
    var t', place := Migrated(t, k, v), OldPlace(t, k);
    MigratedIsTable(t, h, m, k, v);
    if !Vacant(t, k - 1, place) {
      var x: nat :| k - 1 <= x < place && x < Span(t) && Occupied(t, x);
      InRest(t, h, m, place + 1, x);
      InRest(t, h, m, x, place);
      PositionsAreKeys(t, h, m);
      ShiftedEntry(t, h, m, k, v, x);
      assert KeyAt(t, x) in KeysFrom(t', k);
    } else {
      RestBehindCurrent(t, h, m, k, v);
    }
  }

  lemma RestBehindCurrent(t: View, h: Hasher, m: Contents, k: nat, v: Value)
    requires IsTable(t, h, m) && CanMigrate(t, I32_MAX, k) && v != Nil && HasNode(t.nodes, IntKey(k), true)
    requires Vacant(t, k - 1, OldPlace(t, k))
    ensures KeysFrom(Migrated(t, k, v), k) == KeysFrom(t, OldPlace(t, k) + 1)
  {
    var t', place := Migrated(t, k, v), OldPlace(t, k);
    MovedEntry(t, h, m, k, v);
    PositionsAreKeys(t, h, m);
    forall key | key in KeysFrom(t, place + 1) ensures key in KeysFrom(t', k) {
      var x :| place + 1 <= x < Span(t) && Occupied(t, x) && KeyAt(t, x) == key;
      ShiftedEntry(t, h, m, k, v, x);
    }
    forall key | key in KeysFrom(t', k) ensures key in KeysFrom(t, place + 1) {
      var x' :| k <= x' < Span(t') && Occupied(t', x') && KeyAt(t', x') == key;
      var x := UnshiftedEntry(t, h, m, k, v, x');
      assert x > place;
    }
  }
}
