/**
 * The order in which `Table::next` visits a table, src/core/table.cpp:416-483, as a
 * function of the array part and the node array.
 */
module Traversal {
  import opened LuaValue
  import opened HashNodes
  import opened TableContents

  /** The two parts of a table; position p is array slot p, or node p - |arr|. */
  datatype View = View(arr: seq<Value>, nodes: seq<HashNode>)

  function Span(t: View): nat {
    |t.arr| + |t.nodes|
  }

  predicate Occupied(t: View, p: nat)
    requires p < Span(t)
  {
    if p < |t.arr| then t.arr[p] != Nil else t.nodes[p - |t.arr|].state.Live?
  }

  function KeyAt(t: View, p: nat): Value
    requires p < Span(t)
  {
    if p < |t.arr| then IntKey(p + 1) else t.nodes[p - |t.arr|].key
  }

  function ValueAt(t: View, p: nat): Value
    requires p < Span(t)
  {
    if p < |t.arr| then t.arr[p] else t.nodes[p - |t.arr|].value
  }

  /** The first occupied position from p on, or `Span(t)`. */
  function FirstFrom(t: View, p: nat): (q: nat)
    ensures p <= Span(t) ==> p <= q <= Span(t)
    ensures p <= Span(t) ==> q == Span(t) || Occupied(t, q)
    ensures forall i | p <= i < q && i < Span(t) :: !Occupied(t, i)
    decreases Span(t) - p
  {
    if p >= Span(t) then Span(t)
    else if Occupied(t, p) then p
    else FirstFrom(t, p + 1)
  }

  /** The one node, Live or Dead, of a key. */
  ghost function NodeOf(nodes: seq<HashNode>, key: Value): (i: nat)
    requires HasNode(nodes, key, true)
    ensures i < |nodes| && NodeFor(nodes, key, true, i)
  {
    var i :| 0 <= i < |nodes| && NodeFor(nodes, key, true, i);
    i
  }

  lemma OneNodeOf(nodes: seq<HashNode>, h: Hasher, key: Value, i: nat)
    requires ProbeOk(nodes, h) && i < |nodes| && Matches(nodes[i], key, true)
    ensures HasNode(nodes, key, true) && NodeOf(nodes, key) == i
  {
    assert NodeFor(nodes, key, true, i);
    assert NoClash(nodes, NodeOf(nodes, key), i);
  }

  lemma SameNode(nodes: seq<HashNode>, nodes': seq<HashNode>, h: Hasher, key: Value)
    requires ProbeOk(nodes, h) && StableNodes(nodes, nodes')
    ensures HasNode(nodes', key, true) <==> HasNode(nodes, key, true)
    ensures HasNode(nodes, key, true) ==> NodeOf(nodes', key) == NodeOf(nodes, key)
  {
    forall i | 0 <= i < |nodes| ensures NodeFor(nodes', key, true, i) <==> NodeFor(nodes, key, true, i) {
      assert StableNode(nodes[i], nodes'[i]);
    }
    if HasNode(nodes, key, true) {
      OneNode(nodes, h, key, NodeOf(nodes, key));
    }
  }

  /** Where the scan goes on after `key`; None is the error "invalid key to 'next'". */
  ghost function ResumeAt(t: View, key: Value): Option<nat> {
    if key == Nil then Some(0)
    else if IsArrayKey(key) && key.n.i <= |t.arr|
            && (t.arr[key.n.i - 1] != Nil || !HasNode(t.nodes, key, true))
    then Some(key.n.i)
    else if HasNode(t.nodes, key, true) then Some(|t.arr| + NodeOf(t.nodes, key) + 1)
    else None
  }

  /** ... in terms of what the probe for the key has found. */
  lemma ResumeAtFound(t: View, h: Hasher, key: Value, found: Option<nat>)
    requires ProbeOk(t.nodes, h) && key != Nil
    requires found.Some? ==> found.value < |t.nodes| && Matches(t.nodes[found.value], key, true)
    requires found.None? ==> !HasNode(t.nodes, key, true)
    ensures ResumeAt(t, key) ==
            if IsArrayKey(key) && key.n.i <= |t.arr| && (t.arr[key.n.i - 1] != Nil || found.None?) then Some(key.n.i)
            else if found.None? then None
            else Some(|t.arr| + found.value + 1)
  {
    if found.Some? {
      OneNodeOf(t.nodes, h, key, found.value);
    }
  }

  /** What `next` reports for a position. */
  datatype NextResult = Entry(key: Value, value: Value) | Finished | InvalidKey

  function EntryAt(t: View, p: nat): NextResult {
    if p < Span(t) then Entry(KeyAt(t, p), ValueAt(t, p)) else Finished
  }

  lemma {:induction false} FirstFromIs(t: View, p: nat, q: nat)
    requires p <= q <= Span(t)
    requires forall i | p <= i < q :: !Occupied(t, i)
    requires q < Span(t) ==> Occupied(t, q)
    ensures FirstFrom(t, p) == q
    decreases q - p
  {
    if p < q {
      FirstFromIs(t, p + 1, q);
    }
  }

  /** What the assignment of v to integer key k does that puts it into the array part. */
  function Migrated(t: View, k: nat, v: Value): View
    requires k >= 1
  {
    View(Grown(t.arr, k)[k - 1 := v], DropKey(t.nodes, IntKey(k)))
  }

  /** An existing key that its next assignment moves from the hash part to the array part. */
  ghost predicate CanMigrate(t: View, limit: nat, k: nat) {
    1 <= k <= limit && k <= |t.arr| + 1 && InHash(t.nodes, IntKey(k))
  }

  /** What an assignment to an existing key, nil included, does to the two parts. */
  ghost predicate Assigned(t: View, t': View, limit: nat) {
    Stable(t, t') || exists k: nat, v :: v != Nil && CanMigrate(t, limit, k) && t' == Migrated(t, k, v)
  }

  /** What clearing and re-assigning existing entries in place does to a table: no entry
      moves and none appears. */
  ghost predicate Stable(t: View, t': View) {
    && |t'.arr| == |t.arr| && StableNodes(t.nodes, t'.nodes)
    && (forall p | 0 <= p < |t.arr| :: t'.arr[p] != Nil ==> t.arr[p] != Nil)
  }

  /** The table without a key. */
  function WithoutKey(t: View, key: Value): View {
    View(if InArray(t.arr, key) then t.arr[key.n.i - 1 := Nil] else t.arr, DropKey(t.nodes, key))
  }

  lemma RemovedKey(t: View, m: Contents, key: Value)
    requires Represents(t.arr, t.nodes, m)
    ensures var t' := WithoutKey(t, key);
            && Represents(t'.arr, t'.nodes, Assign(m, key, Nil))
            && Stable(t, t')
            && (NoHiddenKeys(t.arr, m) ==> NoHiddenKeys(t'.arr, Assign(m, key, Nil)))
  {
    DropIsStable(t.nodes, key);
    if InArray(t.arr, key) {
      assert key == IntKey(key.n.i);
      StoreInArray(t.arr, t.nodes, m, key.n.i - 1, Nil);
    } else {
      DropFromHash(t.arr, t.nodes, m, key);
    }
  }

  /** A value stored in the array part for an existing key is an assignment in place or a move. */
  lemma AssignedByMove(t: View, m: Contents, limit: nat, k: nat, v: Value)
    requires Represents(t.arr, t.nodes, m) && 1 <= k <= limit && k <= |t.arr| + 1 && v != Nil
    ensures IntKey(k) in m ==> Assigned(t, Migrated(t, k, v), limit)
  {
    ReadBack(t.arr, t.nodes, m, IntKey(k));
    DropIsStable(t.nodes, IntKey(k));
    if IntKey(k) in m && !InArray(t.arr, IntKey(k)) {
      assert CanMigrate(t, limit, k);
    }
  }
}
