/**
 * The node array of a Lua table: open addressing with linear probing, where a removed
 * entry stays behind as a Dead node (src/core/table.hpp:355-373).
 */
module HashNodes {
  import opened LuaValue

  datatype NodeState = Empty | Live | Dead

  datatype HashNode = HashNode(key: Value, value: Value, hash: nat, state: NodeState)

  type Hasher = Value -> nat

  const FREE := HashNode(Nil, Nil, 0, Empty)

  // ---------------------------------------------------------------- probing

  /** `hash & mask`; the capacity is a power of two. */
  function Home(hash: nat, n: nat): (h: nat)
    requires n > 0
    ensures h < n
  {
    hash % n
  }

  /** The home is what is left of the hash once all multiples of the capacity are taken off. */
  lemma HomeIsRemainder(hash: nat, n: nat, rounds: nat, slot: nat)
    requires n > 0 && hash == rounds * n + slot && slot < n
    ensures Home(hash, n) == slot
  {
    RemainderIsOne(hash / n, hash % n, rounds, slot, n);
  }

  lemma RemainderIsOne(a: nat, r: nat, b: nat, s: nat, n: nat)
    requires a * n + r == b * n + s && r < n && s < n
    ensures r == s
  {
    if a < b {
      MultiplesApart(a, b, n);
    } else if b < a {
      MultiplesApart(b, a, n);
    }
  }

  lemma {:induction false} MultiplesApart(a: nat, b: nat, n: nat)
    requires a < b
    ensures a * n + n <= b * n
  {
    assert b * n == (b - 1) * n + n;
    if a < b - 1 {
      MultiplesApart(a, b - 1, n);
    }
  }

  /** The mask of a power of two keeps exactly the remainder: one bit at a time. */
  lemma {:induction false} DoublingAddsOneBit(hash: nat, n: nat)
    requires n > 0
    ensures Home(hash, 2 * n) == 2 * Home(hash / 2, n) + hash % 2
  {
    var half := hash / 2;
    HomeIsRemainder(hash, 2 * n, half / n, 2 * (half % n) + hash % 2);
  }

  /** `(index + 1) & mask`. */
  function NextSlot(i: nat, n: nat): (j: nat)
    requires i < n
    ensures j < n
  {
    if i + 1 == n then 0 else i + 1
  }

  /** The probe goes to the next slot, around the end. */
  lemma NextSlotIsMasked(i: nat, n: nat)
    requires i < n
    ensures NextSlot(i, n) == Home(i + 1, n)
  {
    HomeIsRemainder(i + 1, n, if i + 1 == n then 1 else 0, NextSlot(i, n));
  }

  /** How many steps the probe sequence takes from `home` to `i`. */
  function Distance(home: nat, i: nat, n: nat): (d: nat)
    requires home < n && i < n
    ensures d < n
  {
    if home <= i then i - home else i + n - home
  }

  /** A step along the probe sequence is one step further from home, until it is back there. */
  lemma NextSlotIsOneFurther(home: nat, i: nat, n: nat)
    requires home < n && i < n
    ensures Distance(home, home, n) == 0
    ensures NextSlot(i, n) != home ==> Distance(home, NextSlot(i, n), n) == Distance(home, i, n) + 1
  {
  }

  /** No Empty slot lies before `i` on the probe sequence that starts at `home`. */
  ghost predicate PathFull(nodes: seq<HashNode>, home: nat, i: nat)
    requires home < |nodes| && i < |nodes|
  {
    forall j | 0 <= j < |nodes| ::
      Distance(home, j, |nodes|) < Distance(home, i, |nodes|) ==> !nodes[j].state.Empty?
  }

  /** The nodes a lookup considers: `findHashNode(key, includeDead)`. */
  predicate Visible(node: HashNode, includeDead: bool) {
    node.state.Live? || (includeDead && node.state.Dead?)
  }

  predicate Matches(node: HashNode, key: Value, includeDead: bool) {
    Visible(node, includeDead) && RawEqual(node.key, key)
  }

  ghost predicate NodeOk(nodes: seq<HashNode>, h: Hasher, i: nat)
    requires i < |nodes|
  {
    !nodes[i].state.Empty? ==>
      && IsTableKey(nodes[i].key)
      && nodes[i].hash == h(nodes[i].key)
      && PathFull(nodes, Home(nodes[i].hash, |nodes|), i)
      && (nodes[i].state.Live? ==> nodes[i].value != Nil)
  }

  ghost predicate NoClash(nodes: seq<HashNode>, i: nat, j: nat)
    requires i < |nodes| && j < |nodes|
  {
    !nodes[i].state.Empty? && !nodes[j].state.Empty? && nodes[i].key == nodes[j].key ==> i == j
  }

  /** The probe invariant: every node can be found from its home slot, and only one
      node, Live or Dead, carries a given key. */
  ghost predicate ProbeOk(nodes: seq<HashNode>, h: Hasher) {
    && (forall i | 0 <= i < |nodes| :: NodeOk(nodes, h, i))
    && (forall i, j | 0 <= i < |nodes| && 0 <= j < |nodes| :: NoClash(nodes, i, j))
  }

  /** What removals and assignments to existing entries do to a node: it keeps its key even
      when it dies, and none comes to life. */
  predicate StableNode(n: HashNode, n': HashNode) {
    && (n.state.Empty? <==> n'.state.Empty?)
    && (!n.state.Empty? ==> n'.key == n.key)
    && (n'.state.Live? ==> n.state.Live?)
  }

  ghost predicate StableNodes(nodes: seq<HashNode>, nodes': seq<HashNode>) {
    |nodes'| == |nodes| && forall i | 0 <= i < |nodes| :: StableNode(nodes[i], nodes'[i])
  }

  /** Node i is the one a lookup of `key` is after. */
  predicate NodeFor(nodes: seq<HashNode>, key: Value, includeDead: bool, i: nat)
    requires i < |nodes|
  {
    Visible(nodes[i], includeDead) && nodes[i].key == key
  }

  ghost predicate HasNode(nodes: seq<HashNode>, key: Value, includeDead: bool) {
    exists i | 0 <= i < |nodes| :: NodeFor(nodes, key, includeDead, i)
  }

  /** A probe that saw no match before an Empty slot has seen every node. */
  lemma ProbeMiss(nodes: seq<HashNode>, h: Hasher, key: Value, e: nat, includeDead: bool)
    requires ProbeOk(nodes, h)
    requires e < |nodes| && nodes[e].state.Empty?
    requires forall j | 0 <= j < |nodes| ::
               Distance(Home(h(key), |nodes|), j, |nodes|) < Distance(Home(h(key), |nodes|), e, |nodes|)
               ==> !Matches(nodes[j], key, includeDead)
    ensures !HasNode(nodes, key, includeDead)
  {
    forall i | 0 <= i < |nodes| ensures !NodeFor(nodes, key, includeDead, i) {
      assert NodeOk(nodes, h, i);
    }
  }

  /** So has a probe that went round the whole array. */
  lemma ProbeExhausted(nodes: seq<HashNode>, h: Hasher, key: Value, includeDead: bool)
    requires ProbeOk(nodes, h)
    requires forall j | 0 <= j < |nodes| :: !Matches(nodes[j], key, includeDead)
    ensures !HasNode(nodes, key, includeDead)
  {
    forall i | 0 <= i < |nodes| ensures !NodeFor(nodes, key, includeDead, i) {
      assert NodeOk(nodes, h, i);
    }
  }

  /** The node of a key decides whether the key is Live. */
  lemma OneNode(nodes: seq<HashNode>, h: Hasher, key: Value, i: nat)
    requires ProbeOk(nodes, h) && i < |nodes| && NodeFor(nodes, key, true, i)
    ensures forall j | 0 <= j < |nodes| && NodeFor(nodes, key, true, j) :: j == i
    ensures forall j | 0 <= j < |nodes| && NodeFor(nodes, key, false, j) :: j == i
    ensures HasNode(nodes, key, false) <==> nodes[i].state.Live?
  {
    forall j | 0 <= j < |nodes| ensures NodeFor(nodes, key, true, j) || NodeFor(nodes, key, false, j) ==> j == i {
      assert NoClash(nodes, i, j);
    }
    assert nodes[i].state.Live? ==> NodeFor(nodes, key, false, i);
  }

  lemma NoNodeAtAll(nodes: seq<HashNode>, key: Value)
    requires !HasNode(nodes, key, true)
    ensures !HasNode(nodes, key, false)
  {
    forall j | 0 <= j < |nodes| ensures !NodeFor(nodes, key, false, j) {
      assert !NodeFor(nodes, key, true, j);
    }
  }

  // --------------------------------------------------------------- counting

  /** How many nodes are Live, or with `includeDead` Live or Dead. */
  ghost function Tally(nodes: seq<HashNode>, includeDead: bool): (c: nat)
    ensures c <= |nodes|
  {
    if nodes == [] then 0
    else
      Tally(nodes[..|nodes| - 1], includeDead)
      + (if Visible(nodes[|nodes| - 1], includeDead) then 1 else 0)
  }

  lemma {:induction false} TallyUpdate(nodes: seq<HashNode>, i: nat, x: HashNode, includeDead: bool)
    requires i < |nodes|
    ensures Tally(nodes[i := x], includeDead) + (if Visible(nodes[i], includeDead) then 1 else 0)
         == Tally(nodes, includeDead) + (if Visible(x, includeDead) then 1 else 0)
  {
    var last := |nodes| - 1;
    if i == last {
      assert nodes[i := x][..last] == nodes[..last];
    } else {
      assert nodes[i := x][..last] == nodes[..last][i := x];
      TallyUpdate(nodes[..last], i, x, includeDead);
    }
  }

  lemma {:induction false} LiveAtMostUsed(nodes: seq<HashNode>)
    ensures Tally(nodes, false) <= Tally(nodes, true)
  {
    if nodes != [] {
      LiveAtMostUsed(nodes[..|nodes| - 1]);
    }
  }

  lemma {:induction false} TallyAllEmpty(nodes: seq<HashNode>, includeDead: bool)
    requires forall i :: 0 <= i < |nodes| ==> nodes[i].state.Empty?
    ensures Tally(nodes, includeDead) == 0
  {
    if nodes != [] {
      TallyAllEmpty(nodes[..|nodes| - 1], includeDead);
    }
  }

  /** A node array that is not full has an Empty slot for a probe to stop at. */
  lemma {:induction false} EmptySlotExists(nodes: seq<HashNode>) returns (e: nat)
    requires Tally(nodes, true) < |nodes|
    ensures e < |nodes| && nodes[e].state.Empty?
  {
    if nodes[|nodes| - 1].state.Empty? {
      e := |nodes| - 1;
    } else {
      e := EmptySlotExists(nodes[..|nodes| - 1]);
    }
  }

  // ---------------------------------------------------------------- updates

  /** Filling a slot the probe for `key` reaches keeps every node findable. */
  lemma InsertKeepsProbeOk(nodes: seq<HashNode>, h: Hasher, d: nat, key: Value, value: Value)
    requires ProbeOk(nodes, h)
    requires IsTableKey(key) && value != Nil
    requires d < |nodes| && !nodes[d].state.Live?
    requires PathFull(nodes, Home(h(key), |nodes|), d)
    requires !HasNode(nodes, key, true)
    ensures ProbeOk(nodes[d := HashNode(key, value, h(key), Live)], h)
  {
    var after := nodes[d := HashNode(key, value, h(key), Live)];
    forall i | 0 <= i < |after|
      ensures NodeOk(after, h, i)
    {
      assert NodeOk(nodes, h, i);
    }
    forall i, j | 0 <= i < |after| && 0 <= j < |after| ensures NoClash(after, i, j) {
      assert NoClash(nodes, i, j);
      assert !NodeFor(nodes, key, true, i) && !NodeFor(nodes, key, true, j);
    }
  }

  /** Changing the value of a node, reviving a Dead node or killing a Live one leaves every probe path as it was. */
  lemma ReplaceKeepsProbeOk(nodes: seq<HashNode>, h: Hasher, i: nat, x: HashNode)
    requires ProbeOk(nodes, h)
    requires i < |nodes| && !nodes[i].state.Empty? && !x.state.Empty?
    requires x.key == nodes[i].key && x.hash == nodes[i].hash
    requires x.state.Live? ==> x.value != Nil
    ensures ProbeOk(nodes[i := x], h)
  {
    var after := nodes[i := x];
    forall k | 0 <= k < |after| ensures NodeOk(after, h, k) {
      assert NodeOk(nodes, h, k);
    }
    forall k, j | 0 <= k < |after| && 0 <= j < |after| ensures NoClash(after, k, j) {
      assert NoClash(nodes, k, j);
    }
  }

  // ------------------------------------------------------ capacities

  ghost predicate PowerOfTwo(n: nat) {
    n == 1 || (n > 0 && n % 2 == 0 && PowerOfTwo(n / 2))
  }

  lemma {:induction false} NextPowerOfTwo(p: nat, q: nat)
    requires PowerOfTwo(p) && PowerOfTwo(q) && p < q
    ensures 2 * p <= q
  {
    if p > 1 {
      NextPowerOfTwo(p / 2, q / 2);
    }
  }

  predicate WithinLoad(used: nat, capacity: nat) {
    used <= capacity - capacity / 4
  }

  /** The bound, in a form without division. */
  lemma LoadIsThreeQuarters(used: nat, capacity: nat, maxHashEntries: nat)
    requires CapacityOk(capacity, maxHashEntries)
    ensures WithinLoad(used, capacity) <==> 4 * used <= 3 * capacity
  {
    if capacity > 0 {
      CapacityFacts(capacity);
    }
  }

  ghost predicate CapacityOk(capacity: nat, maxHashEntries: nat) {
    capacity == 0
    || (8 <= capacity && PowerOfTwo(capacity) && (capacity == 8 || 3 * capacity < 16 * maxHashEntries))
  }

  // ------------------------------------------------- rehash and insertion

  /** `after` has no Dead node, and the Live nodes of `before` and no others. */
  ghost predicate SameLiveNodes(before: seq<HashNode>, after: seq<HashNode>) {
    && (forall i | 0 <= i < |before| :: before[i].state.Live? ==> before[i] in after)
    && (forall j | 0 <= j < |after| :: !after[j].state.Empty? ==> after[j].state.Live? && after[j] in before)
  }

  lemma NotYetCopied(nodes: seq<HashNode>, h: Hasher, k: nat, replacement: seq<HashNode>)
    requires ProbeOk(nodes, h) && k < |nodes| && nodes[k].state.Live?
    requires SameLiveNodes(nodes[..k], replacement)
    ensures !HasNode(replacement, nodes[k].key, true)
    ensures IsTableKey(nodes[k].key) && nodes[k].value != Nil && nodes[k].hash == h(nodes[k].key)
  {
    assert NodeOk(nodes, h, k);
    forall j | 0 <= j < |replacement| ensures !NodeFor(replacement, nodes[k].key, true, j) {
      if !replacement[j].state.Empty? {
        var i :| 0 <= i < k && nodes[i] == replacement[j];
        assert NoClash(nodes, i, k);
      }
    }
  }

  /** The inner loop of `rehash`: the first slot from the node's home that is not Live takes it. */
  method Reinsert(nodes: seq<HashNode>, h: Hasher, node: HashNode) returns (r: seq<HashNode>)
    requires ProbeOk(nodes, h) && Tally(nodes, true) == Tally(nodes, false) < |nodes|
    requires forall i | 0 <= i < |nodes| :: !nodes[i].state.Dead?
    requires node.state.Live? && IsTableKey(node.key) && node.value != Nil && node.hash == h(node.key)
    requires !HasNode(nodes, node.key, true)
    ensures |r| == |nodes| && ProbeOk(r, h)
    ensures Tally(r, true) == Tally(r, false) == Tally(nodes, false) + 1
    ensures exists i :: 0 <= i < |nodes| && nodes[i].state.Empty? && r == nodes[i := node]
    ensures forall s | SameLiveNodes(s, nodes) :: SameLiveNodes(s + [node], r)
  {
    ghost var e := EmptySlotExists(nodes);
    ghost var home := Home(node.hash, |nodes|);
    var index: nat := Home(node.hash, |nodes|);
    while nodes[index].state.Live?
      invariant index < |nodes| && PathFull(nodes, home, index)
      invariant Distance(home, index, |nodes|) <= Distance(home, e, |nodes|)
      decreases Distance(home, e, |nodes|) - Distance(home, index, |nodes|)
    {
      index := NextSlot(index, |nodes|);
    }
    InsertKeepsProbeOk(nodes, h, index, node.key, node.value);
    TallyUpdate(nodes, index, node, false);
    TallyUpdate(nodes, index, node, true);
    r := nodes[index := node];
    forall s | SameLiveNodes(s, nodes) ensures SameLiveNodes(s + [node], r) {
      KeptUnderUpdate(s, nodes, index, node);
    }
  }

  lemma CapacityFacts(n: nat)
    requires 8 <= n && PowerOfTwo(n)
    ensures n % 4 == 0 && PowerOfTwo(2 * n)
  {
    assert PowerOfTwo(n / 2);
  }

  lemma EightIsPowerOfTwo()
    ensures PowerOfTwo(8)
  {
    assert PowerOfTwo(1) && PowerOfTwo(2) && PowerOfTwo(4);
  }

  /** Both rehash branches leave room for the pending insertion, and doubling keeps the
      capacity proportionate to the entry limit. */
  lemma RoomAfterRehash(n: nat, used: nat, live: nat, maxHashEntries: nat)
    requires CapacityOk(n, maxHashEntries) && WithinLoad(used, n) && live <= used && live < maxHashEntries
    ensures CapacityOk(8, maxHashEntries)
    ensures n > 0 && live * 2 < used ==> WithinLoad(live + 1, n)
    ensures n > 0 && !WithinLoad(used + 1, n) && live * 2 >= used
            ==> CapacityOk(2 * n, maxHashEntries) && WithinLoad(live + 1, 2 * n)
  {
    EightIsPowerOfTwo();
    if n > 0 {
      CapacityFacts(n);
    }
  }

  /** The insertion half of `rehash`: a fresh array holding the Live nodes. */
  method Rebuild(nodes: seq<HashNode>, h: Hasher, capacity: nat) returns (replacement: seq<HashNode>)
    requires ProbeOk(nodes, h) && 0 < capacity && Tally(nodes, false) < capacity
    ensures |replacement| == capacity && ProbeOk(replacement, h)
    ensures Tally(replacement, true) == Tally(replacement, false) == Tally(nodes, false)
    ensures SameLiveNodes(nodes, replacement)
  {
    replacement := seq(capacity, _ => FREE);
    TallyAllEmpty(replacement, false);
    TallyAllEmpty(replacement, true);
    for k := 0 to |nodes|
      invariant |replacement| == capacity && ProbeOk(replacement, h)
      invariant Tally(replacement, true) == Tally(replacement, false) == Tally(nodes[..k], false)
      invariant SameLiveNodes(nodes[..k], replacement)
    {
      assert nodes[..k + 1] == nodes[..k] + [nodes[k]];
      if nodes[k].state.Live? {
        TallyPrefix(nodes, k + 1);
        NotYetCopied(nodes, h, k, replacement);
        replacement := Reinsert(replacement, h, nodes[k]);
      }
    }
    assert nodes[..|nodes|] == nodes;
  }

  lemma NoNewNodes(before: seq<HashNode>, after: seq<HashNode>)
    requires SameLiveNodes(before, after)
    ensures forall k | HasNode(after, k, true) :: HasNode(before, k, true)
  {
    forall k | HasNode(after, k, true) ensures HasNode(before, k, true) {
      var j :| 0 <= j < |after| && NodeFor(after, k, true, j);
      var i :| 0 <= i < |before| && before[i] == after[j];
      assert NodeFor(before, k, true, i);
    }
  }

  /** A capacity that holds the request. */
  ghost predicate Holds(p: nat, requested: nat) {
    PowerOfTwo(p) && 8 <= p && requested <= p
  }

  /** The capacity loop of `rehash`: the least power of two, from 8 on, that is large enough;
      0 stands for `std::bad_array_new_length`, when none fits a usize. */
  method RoundCapacity(requested: nat) returns (capacity: nat)
    ensures capacity == 0 ==> forall p: nat | Holds(p, requested) :: p > USIZE_MAX
    ensures capacity != 0 ==> Holds(capacity, requested) && capacity <= USIZE_MAX
                              && forall p: nat | Holds(p, requested) :: capacity <= p
  {
    capacity := 8;
    EightIsPowerOfTwo();
    while capacity < requested
      invariant 8 <= capacity <= USIZE_MAX && PowerOfTwo(capacity)
      invariant forall p: nat | Holds(p, requested) :: capacity <= p
    {
      forall p: nat | Holds(p, requested) ensures 2 * capacity <= p {
        NextPowerOfTwo(capacity, p);
      }
      if capacity > USIZE_MAX / 2 {
        return 0;
      }
      capacity := capacity * 2;
    }
  }

  /** The insertion loop of `setHash`: the first slot from the key's home that holds no
      Live node, be it a Dead one met on the way or the Empty one that ends the probe. */
  method FindInsertSlot(nodes: seq<HashNode>, h: Hasher, key: Value) returns (d: nat)
    requires Tally(nodes, true) < |nodes|
    ensures d < |nodes| && !nodes[d].state.Live?
    ensures forall j | 0 <= j < |nodes| ::
              Distance(Home(h(key), |nodes|), j, |nodes|) < Distance(Home(h(key), |nodes|), d, |nodes|)
              ==> nodes[j].state.Live?
    ensures PathFull(nodes, Home(h(key), |nodes|), d)
  {
    ghost var e := EmptySlotExists(nodes);
    ghost var home := Home(h(key), |nodes|);
    var index: nat := Home(h(key), |nodes|);
    var firstDead: Option<nat> := None;
    while true
      invariant index < |nodes| && Distance(home, index, |nodes|) <= Distance(home, e, |nodes|)
      invariant firstDead.Some? ==> firstDead.value < |nodes| && nodes[firstDead.value].state.Dead?
      invariant forall j | 0 <= j < |nodes| ::
                  Distance(home, j, |nodes|)
                  < Distance(home, if firstDead.Some? then firstDead.value else index, |nodes|)
                  ==> nodes[j].state.Live?
      decreases Distance(home, e, |nodes|) - Distance(home, index, |nodes|)
    {
      if nodes[index].state.Dead? && firstDead.None? {
        firstDead := Some(index);
      } else if nodes[index].state.Empty? {
        return if firstDead.None? then index else firstDead.value;
      }
      index := NextSlot(index, |nodes|);
    }
  }

  lemma {:induction false} TallyPrefix(nodes: seq<HashNode>, k: nat)
    requires k <= |nodes|
    ensures Tally(nodes[..k], false) <= Tally(nodes, false)
    decreases |nodes|
  {
    if k < |nodes| {
      assert nodes[..|nodes| - 1][..k] == nodes[..k];
      TallyPrefix(nodes[..|nodes| - 1], k);
    } else {
      assert nodes[..k] == nodes;
    }
  }

  lemma KeptUnderUpdate(before: seq<HashNode>, nodes: seq<HashNode>, i: nat, x: HashNode)
    requires SameLiveNodes(before, nodes) && i < |nodes| && nodes[i].state.Empty? && x.state.Live?
    ensures SameLiveNodes(before + [x], nodes[i := x])
  {
    var after := nodes[i := x];
    assert after[i] == x && (before + [x])[|before|] == x;
    forall k | 0 <= k < |before + [x]| && (before + [x])[k].state.Live? ensures (before + [x])[k] in after {
      if k < |before| {
        var j :| 0 <= j < |nodes| && nodes[j] == before[k];
        assert after[j] == before[k];
      }
    }
    forall j | 0 <= j < |after| && !after[j].state.Empty? ensures after[j].state.Live? && after[j] in before + [x] {
      if j != i {
        assert nodes[j] in before;
      }
    }
  }
}
