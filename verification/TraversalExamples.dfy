/**
 * Tables, built by ordinary assignments, on which a traversal loses a key.
 */
module TraversalExamples {
  import opened LuaValue
  import opened HashNodes
  import opened TableContents
  import opened Traversal
  import opened TraversalTheorems
  import opened Migration
  import opened Assignments
  import opened AssignmentTraps
  import opened LuaTable

  lemma StillHasNode(nodes: seq<HashNode>, h: Hasher, key: Value, k: Value)
    requires ProbeOk(nodes, h) && HasNode(nodes, k, true)
    ensures HasNode(DropKey(nodes, key), k, true)
  {
    DropIsStable(nodes, key);
    SameNode(nodes, DropKey(nodes, key), h, k);
  }

  lemma LiveHasNode(nodes: seq<HashNode>, k: Value)
    requires InHash(nodes, k)
    ensures HasNode(nodes, k, true)
  {
    var i :| 0 <= i < |nodes| && NodeFor(nodes, k, false, i);
    assert NodeFor(nodes, k, true, i);
  }

  /** `t = {}; t[2] = v2; t[1] = v1`: 2 is in the hash part, 1 in the array part. */
  method SetTwoOne(h: Hasher, maxArraySlots: nat, maxHashEntries: nat, v1: Value, v2: Value) returns (t: Table)
    requires 1 <= maxArraySlots <= I32_MAX && maxHashEntries >= 1 && v1 != Nil && v2 != Nil
    ensures fresh(t) && t.Valid() && t.hasher == h && t.maxArraySlots == maxArraySlots
    ensures t.maxHashEntries == maxHashEntries
    ensures t.usedCount <= 1
    ensures t.arr == [v1] && InHash(t.nodes, IntKey(2)) && t.contents == map[IntKey(2) := v2, IntKey(1) := v1]
  {
    t := new Table(h, maxArraySlots, maxHashEntries);
    assert t.liveCount == Tally([], false) == 0;
    var r := t.Set(IntKey(2), v2);
    assert r.Done? && t.arr == [];
    ReadBack(t.arr, t.nodes, t.contents, IntKey(2));
    assert InHash(t.nodes, IntKey(2));
    StillInHash(t.nodes, IntKey(1), IntKey(2));
    Append(t, v1);
  }

  /** `t[n + 1] = v` where the array part has n slots. */
  method Append(t: Table, v: Value)
    requires t.Valid() && |t.arr| < t.maxArraySlots && v != Nil
    modifies t
    ensures t.usedCount <= old(t.usedCount)
    ensures t.Valid() && t.arr == old(t.arr) + [v] && t.nodes == DropKey(old(t.nodes), IntKey(|old(t.arr)| + 1))
    ensures t.contents == old(t.contents)[IntKey(|old(t.arr)| + 1) := v]
  {
    ghost var before := View(t.arr, t.nodes);
    var r := t.Set(IntKey(|t.arr| + 1), v);
    assert Migrated(before, |before.arr| + 1, v).arr == before.arr + [v];
  }

  /** After `t[2] = v2; t[3] = v3` in addition, clearing 2 while it is the current key loses 3. */
  method SetTwoOneTwoThree(h: Hasher, maxArraySlots: nat, maxHashEntries: nat, v1: Value, v2: Value, v3: Value)
    returns (t: Table)
    requires 3 <= maxArraySlots <= I32_MAX && maxHashEntries >= 1 && v1 != Nil && v2 != Nil && v3 != Nil
    ensures fresh(t) && t.Valid()
    ensures t.contents == map[IntKey(1) := v1, IntKey(2) := v2, IntKey(3) := v3]
    ensures Trap(View(t.arr, t.nodes), 1, 2)
    ensures !NothingMissed(View(t.arr, t.nodes), h) && !AlwaysFaithful(View(t.arr, t.nodes), h, maxArraySlots)
  {
    t := SetTwoOne(h, maxArraySlots, maxHashEntries, v1, v2);
    LiveHasNode(t.nodes, IntKey(2));
    StillHasNode(t.nodes, h, IntKey(2), IntKey(2));
    Append(t, v2);
    StillHasNode(t.nodes, h, IntKey(3), IntKey(2));
    Append(t, v3);
    assert t.arr == [v1, v2, v3];
    ClearingTwoLosesThree(View(t.arr, t.nodes), h, t.contents, maxArraySlots);
  }

  lemma ClearingTwoLosesThree(t: View, h: Hasher, m: Contents, limit: nat)
    requires IsTable(t, h, m) && 3 == |t.arr| <= limit <= I32_MAX
    requires t.arr[1] != Nil && t.arr[2] != Nil && HasNode(t.nodes, IntKey(2), true)
    ensures Trap(t, 1, 2) && !NothingMissed(t, h) && !AlwaysFaithful(t, h, limit)
  {
    assert Trap(t, 1, 2);
    NothingMissedIffResumable(t, h, m);
    FaithfulIffSteady(t, h, m, limit);
  }

  /** Two entries fit, and no node array within the limit outgrows a usize. */
  predicate RoomForTwo(maxHashEntries: nat) {
    2 <= maxHashEntries && 16 * maxHashEntries <= 3 * (USIZE_MAX / 2)
  }

  /** After `t[x] = c` instead, for a key x that is no array index: if x is ahead of 2 in the
      hash part, assigning 2 while x is the current key loses 2. */
  method SetTwoOneField(h: Hasher, maxArraySlots: nat, maxHashEntries: nat, v1: Value, v2: Value, x: Value, c: Value)
    returns (t: Table, ok: bool)
    requires 2 <= maxArraySlots <= I32_MAX && maxHashEntries >= 1 && v1 != Nil && v2 != Nil && c != Nil
    requires IsTableKey(x) && !IsArrayKey(x)
    ensures fresh(t) && t.Valid() && t.hasher == h && t.arr == [v1] && t.usedCount <= 2
    ensures RoomForTwo(maxHashEntries) ==> ok
    ensures ok ==> HasNode(t.nodes, x, true) && HasNode(t.nodes, IntKey(2), true)
    ensures ok && NodeOf(t.nodes, x) < NodeOf(t.nodes, IntKey(2)) ==>
              !AlwaysFaithful(View(t.arr, t.nodes), h, maxArraySlots)
  {
    t := SetTwoOne(h, maxArraySlots, maxHashEntries, v1, v2);
    LiveAtMostUsed(t.nodes);
    var r := t.Set(x, c);
    ok := r.Done?;
    if ok {
      ReadBack(t.arr, t.nodes, t.contents, IntKey(2));
      ReadBack(t.arr, t.nodes, t.contents, x);
      LiveHasNode(t.nodes, x);
      LiveHasNode(t.nodes, IntKey(2));
      FieldInTheWay(View(t.arr, t.nodes), h, t.contents, maxArraySlots, x);
    }
  }

  lemma FieldInTheWay(t: View, h: Hasher, m: Contents, limit: nat, x: Value)
    requires IsTable(t, h, m) && |t.arr| == 1 && 2 <= limit <= I32_MAX
    requires InHash(t.nodes, x) && InHash(t.nodes, IntKey(2))
    requires HasNode(t.nodes, x, true) && HasNode(t.nodes, IntKey(2), true)
    ensures NodeOf(t.nodes, x) < NodeOf(t.nodes, IntKey(2)) ==> !AlwaysFaithful(t, h, limit)
  {
    var i := NodeOf(t.nodes, x);
    OneNode(t.nodes, h, x, i);
    assert Occupied(t, 1 + i) && CanMigrate(t, limit, 2);
    if i < NodeOf(t.nodes, IntKey(2)) {
      assert !Vacant(t, 1, OldPlace(t, 2));
      assert !MovesAlone(t, limit, 2);
    }
    FaithfulIffSteady(t, h, m, limit);
  }

  // ------------------------------------------------------ a hasher that does it

  lemma {:induction false} ThreeNodes(nodes: seq<HashNode>, a: nat, b: nat, c: nat)
    requires a < b < c < |nodes|
    requires !nodes[a].state.Empty? && !nodes[b].state.Empty? && !nodes[c].state.Empty?
    ensures Tally(nodes, true) >= 3
  {
    if c < |nodes| - 1 {
      ThreeNodes(nodes[..|nodes| - 1], a, b, c);
    } else {
      TwoNodes(nodes[..c], a, b);
    }
  }

  lemma {:induction false} TwoNodes(nodes: seq<HashNode>, a: nat, b: nat)
    requires a < b < |nodes| && !nodes[a].state.Empty? && !nodes[b].state.Empty?
    ensures Tally(nodes, true) >= 2
  {
    if b < |nodes| - 1 {
      TwoNodes(nodes[..|nodes| - 1], a, b);
    } else {
      OneNodeCounts(nodes[..b], a);
    }
  }

  lemma {:induction false} OneNodeCounts(nodes: seq<HashNode>, a: nat)
    requires a < |nodes| && !nodes[a].state.Empty?
    ensures Tally(nodes, true) >= 1
  {
    if a < |nodes| - 1 {
      OneNodeCounts(nodes[..|nodes| - 1], a);
    }
  }

  /** With two nodes and homes 0 and 1 the keys lie in that order. */
  lemma InOrder(nodes: seq<HashNode>, h: Hasher, x: Value, y: Value)
    requires ProbeOk(nodes, h) && |nodes| >= 8 && Tally(nodes, true) <= 2 && x != y
    requires HasNode(nodes, x, true) && HasNode(nodes, y, true)
    requires Home(h(x), |nodes|) == 0 && Home(h(y), |nodes|) == 1
    ensures NodeOf(nodes, x) < NodeOf(nodes, y)
  {
    var i, j := NodeOf(nodes, x), NodeOf(nodes, y);
    assert NodeOk(nodes, h, i) && NodeOk(nodes, h, j);
    if i >= 2 {
      ThreeNodes(nodes, 0, 1, i);
    } else if i == 1 && j == 0 {
      ThreeNodes(nodes, 0, 1, 2);
    }
  }

  function TwoBehindAll(v: Value): nat {
    if v == IntKey(2) then 1 else 0
  }

  lemma FieldBeforeTwo(nodes: seq<HashNode>, h: Hasher, x: Value, maxHashEntries: nat)
    requires ProbeOk(nodes, h) && CapacityOk(|nodes|, maxHashEntries) && Tally(nodes, true) <= 2
    requires HasNode(nodes, x, true) && HasNode(nodes, IntKey(2), true)
    requires h(x) == 0 && h(IntKey(2)) == 1
    ensures NodeOf(nodes, x) < NodeOf(nodes, IntKey(2))
  {
    assert |nodes| >= 8;
    FirstHomes(|nodes|);
    InOrder(nodes, h, x, IntKey(2));
  }

  lemma FirstHomes(n: nat)
    requires n >= 8
    ensures Home(0, n) == 0 && Home(1, n) == 1
  {
  }

  /** `t = {}; t[2] = v2; t[1] = v1; t[x] = c`, for any x that is no array index, is then a
      table on which assigning 2 loses 2. */
  method LoseTwo(maxArraySlots: nat, maxHashEntries: nat, v1: Value, v2: Value, x: Value, c: Value)
    returns (t: Table, ok: bool)
    requires 2 <= maxArraySlots <= I32_MAX && maxHashEntries >= 1 && v1 != Nil && v2 != Nil && c != Nil
    requires IsTableKey(x) && !IsArrayKey(x)
    ensures fresh(t) && t.Valid() && (RoomForTwo(maxHashEntries) ==> ok)
    ensures ok ==> !AlwaysFaithful(View(t.arr, t.nodes), TwoBehindAll, maxArraySlots)
  {
    var h: Hasher := TwoBehindAll;
    t, ok := SetTwoOneField(h, maxArraySlots, maxHashEntries, v1, v2, x, c);
    if ok {
      FieldBeforeTwo(t.nodes, h, x, t.maxHashEntries);
    }
  }
}
