/**
 * What the two parts of a table hold together: the finite map from keys to values, and
 * how that map moves when one array slot or one node changes.
 */
module TableContents {
  import opened LuaValue
  import opened HashNodes

  type Contents = map<Value, Value>

  /** The effect of `t[k] = v` on the map: nil deletes. */
  function Assign(m: Contents, k: Value, v: Value): Contents {
    if v == Nil then m - {k} else m[k := v]
  }

  /** `t[first + i] = values[i]` for every i, in order. */
  function AssignRange(m: Contents, first: int, values: seq<Value>): Contents {
    if values == [] then m
    else
      var last := |values| - 1;
      Assign(AssignRange(m, first, values[..last]), IntKey(first + last), values[last])
  }

  function Lookup(m: Contents, k: Value): Value {
    if k in m then m[k] else Nil
  }

  predicate InArray(arr: seq<Value>, k: Value) {
    k.Num? && k.n.Integral? && 1 <= k.n.i <= |arr| && arr[k.n.i - 1] != Nil
  }

  ghost predicate InHash(nodes: seq<HashNode>, k: Value) {
    HasNode(nodes, k, false)
  }

  ghost predicate SlotHeld(arr: seq<Value>, m: Contents, p: nat)
    requires p < |arr|
  {
    arr[p] != Nil ==> IntKey(p + 1) in m && m[IntKey(p + 1)] == arr[p]
  }

  ghost predicate NodeHeld(arr: seq<Value>, nodes: seq<HashNode>, m: Contents, i: nat)
    requires i < |nodes|
  {
    nodes[i].state.Live? ==>
      nodes[i].key in m && m[nodes[i].key] == nodes[i].value && !InArray(arr, nodes[i].key)
  }

  ghost predicate KeyHeld(arr: seq<Value>, nodes: seq<HashNode>, m: Contents, k: Value) {
    k in m ==> IsTableKey(k) && m[k] != Nil && (InArray(arr, k) || InHash(nodes, k))
  }

  /** `m` is exactly what the array part and the Live nodes hold, each key in one place only. */
  ghost predicate Represents(arr: seq<Value>, nodes: seq<HashNode>, m: Contents) {
    && (forall p | 0 <= p < |arr| :: SlotHeld(arr, m, p))
    && (forall i | 0 <= i < |nodes| :: NodeHeld(arr, nodes, m, i))
    && (forall k :: KeyHeld(arr, nodes, m, k))
  }

  /** Reading a represented table: its array slot, else its node, else nothing. */
  lemma ReadBack(arr: seq<Value>, nodes: seq<HashNode>, m: Contents, k: Value)
    requires Represents(arr, nodes, m)
    ensures k in m <==> InArray(arr, k) || InHash(nodes, k)
    ensures InArray(arr, k) ==> k in m && m[k] == arr[k.n.i - 1] && !InHash(nodes, k)
    ensures forall i | 0 <= i < |nodes| && NodeFor(nodes, k, false, i) :: k in m && m[k] == nodes[i].value
    ensures k in m ==> IsTableKey(k) && m[k] != Nil
  {
    assert KeyHeld(arr, nodes, m, k);
    if InArray(arr, k) {
      assert k == IntKey(k.n.i) && SlotHeld(arr, m, k.n.i - 1);
    }
    forall i | 0 <= i < |nodes| && NodeFor(nodes, k, false, i)
      ensures k in m && m[k] == nodes[i].value && !InArray(arr, k)
    {
      assert NodeHeld(arr, nodes, m, i);
    }
  }

  /** No Live node carries an integer key of the array range; by `Represents` that is to
      say that no such key has a value while its array slot is nil. */
  ghost predicate NoHiddenKeys(arr: seq<Value>, m: Contents) {
    forall p | 0 <= p < |arr| :: IntKey(p + 1) in m ==> arr[p] != Nil
  }

  predicate HiddenAt(arr: seq<Value>, m: Contents, p: nat) {
    p < |arr| && arr[p] == Nil && IntKey(p + 1) in m
  }

  /** `removeHash(key)` as a function of the whole node array. */
  function DropKey(nodes: seq<HashNode>, key: Value): (r: seq<HashNode>)
    ensures |r| == |nodes|
  {
    seq(|nodes|, i requires 0 <= i < |nodes| =>
      if Matches(nodes[i], key, false) then nodes[i].(value := Nil, state := Dead) else nodes[i])
  }

  /** Writing array slot p (nil included) and dropping the same key from the hash part. */
  lemma StoreInArray(arr: seq<Value>, nodes: seq<HashNode>, m: Contents, p: nat, v: Value)
    requires Represents(arr, nodes, m) && p < |arr|
    ensures Represents(arr[p := v], DropKey(nodes, IntKey(p + 1)), Assign(m, IntKey(p + 1), v))
  {
    var key := IntKey(p + 1);
    var arr', nodes', m' := arr[p := v], DropKey(nodes, key), Assign(m, key, v);
    forall q | 0 <= q < |arr'| ensures SlotHeld(arr', m', q) {
      assert SlotHeld(arr, m, q);
    }
    forall i | 0 <= i < |nodes'| ensures NodeHeld(arr', nodes', m', i) {
      assert NodeHeld(arr, nodes, m, i);
    }
    forall k ensures KeyHeld(arr', nodes', m', k) {
      StillInHash(nodes, key, k);
      assert KeyHeld(arr, nodes, m, k);
    }
  }

  lemma DropMissingKey(nodes: seq<HashNode>, key: Value)
    requires !InHash(nodes, key)
    ensures DropKey(nodes, key) == nodes
  {
    forall i | 0 <= i < |nodes| ensures DropKey(nodes, key)[i] == nodes[i] {
      assert !NodeFor(nodes, key, false, i);
    }
  }

  lemma DropFoundKey(nodes: seq<HashNode>, h: Hasher, key: Value, i: nat)
    requires ProbeOk(nodes, h) && i < |nodes| && Matches(nodes[i], key, false)
    ensures DropKey(nodes, key) == nodes[i := nodes[i].(value := Nil, state := Dead)]
  {
    forall j | 0 <= j < |nodes|
      ensures DropKey(nodes, key)[j] == nodes[i := nodes[i].(value := Nil, state := Dead)][j]
    {
      assert NoClash(nodes, j, i);
    }
  }

  lemma DropIsStable(nodes: seq<HashNode>, key: Value)
    ensures StableNodes(nodes, DropKey(nodes, key))
  {
  }

  /** `removeHash` for every key of a range. */
  function DropRange(nodes: seq<HashNode>, first: int, n: nat): seq<HashNode> {
    if n == 0 then nodes else DropKey(DropRange(nodes, first, n - 1), IntKey(first + n - 1))
  }

  /** Dropping one key leaves the nodes of the others. */
  lemma StillInHash(nodes: seq<HashNode>, key: Value, k: Value)
    ensures InHash(nodes, k) && k != key ==> InHash(DropKey(nodes, key), k)
  {
    if InHash(nodes, k) && k != key {
      var i :| 0 <= i < |nodes| && NodeFor(nodes, k, false, i);
      assert NodeFor(DropKey(nodes, key), k, false, i);
    }
  }

  /** Dropping a key that the array part does not hold. */
  lemma DropFromHash(arr: seq<Value>, nodes: seq<HashNode>, m: Contents, key: Value)
    requires Represents(arr, nodes, m) && !InArray(arr, key)
    ensures Represents(arr, DropKey(nodes, key), Assign(m, key, Nil))
  {
    var nodes', m' := DropKey(nodes, key), Assign(m, key, Nil);
    forall q | 0 <= q < |arr| ensures SlotHeld(arr, m', q) {
      assert SlotHeld(arr, m, q);
    }
    forall i | 0 <= i < |nodes'| ensures NodeHeld(arr, nodes', m', i) {
      assert NodeHeld(arr, nodes, m, i) && KeyHeld(arr, nodes, m, nodes[i].key);
    }
    forall k ensures KeyHeld(arr, nodes', m', k) {
      StillInHash(nodes, key, k);
      assert KeyHeld(arr, nodes, m, k);
    }
  }

  /** Making node i the one Live node of its key. */
  lemma StoreInHash(arr: seq<Value>, nodes: seq<HashNode>, m: Contents, i: nat, x: HashNode)
    requires Represents(arr, nodes, m) && i < |nodes|
    requires x.state.Live? && IsTableKey(x.key) && x.value != Nil && !InArray(arr, x.key)
    requires nodes[i].state.Live? ==> nodes[i].key == x.key
    requires forall j | 0 <= j < |nodes| && NodeFor(nodes, x.key, false, j) :: j == i
    ensures Represents(arr, nodes[i := x], Assign(m, x.key, x.value))
  {
    var nodes', m' := nodes[i := x], Assign(m, x.key, x.value);
    forall q | 0 <= q < |arr| ensures SlotHeld(arr, m', q) {
      assert SlotHeld(arr, m, q);
    }
    forall j | 0 <= j < |nodes'| ensures NodeHeld(arr, nodes', m', j) {
      assert NodeHeld(arr, nodes, m, j) && (NodeFor(nodes, x.key, false, j) ==> j == i);
    }
    assert NodeFor(nodes', x.key, false, i);
    forall k ensures KeyHeld(arr, nodes', m', k) {
      assert KeyHeld(arr, nodes, m, k);
      if k != x.key && InHash(nodes, k) {
        var j :| 0 <= j < |nodes| && NodeFor(nodes, k, false, j);
        assert NodeFor(nodes', k, false, j);
      }
    }
  }

  /** Growing the array part by nil slots changes nothing. */
  lemma GrowArray(arr: seq<Value>, nodes: seq<HashNode>, m: Contents, extra: seq<Value>)
    requires Represents(arr, nodes, m)
    requires forall i | 0 <= i < |extra| :: extra[i] == Nil
    ensures Represents(arr + extra, nodes, m)
  {
    forall q | 0 <= q < |arr + extra| ensures SlotHeld(arr + extra, m, q) {
      assert q < |arr| ==> SlotHeld(arr, m, q);
    }
    forall i | 0 <= i < |nodes| ensures NodeHeld(arr + extra, nodes, m, i) {
      assert NodeHeld(arr, nodes, m, i);
    }
    forall k ensures KeyHeld(arr + extra, nodes, m, k) {
      assert KeyHeld(arr, nodes, m, k);
    }
  }

  /** A node array with the same Live nodes, in whatever slots, holds the same map. */
  lemma RearrangeHash(arr: seq<Value>, nodes: seq<HashNode>, nodes': seq<HashNode>, m: Contents)
    requires Represents(arr, nodes, m) && SameLiveNodes(nodes, nodes')
    ensures Represents(arr, nodes', m)
  {
    forall j | 0 <= j < |nodes'| ensures NodeHeld(arr, nodes', m, j) {
      if nodes'[j].state.Live? {
        var i :| 0 <= i < |nodes| && nodes[i] == nodes'[j];
        assert NodeHeld(arr, nodes, m, i);
      }
    }
    forall k ensures KeyHeld(arr, nodes', m, k) {
      assert KeyHeld(arr, nodes, m, k);
      if InHash(nodes, k) {
        var i :| 0 <= i < |nodes| && NodeFor(nodes, k, false, i);
        var j :| 0 <= j < |nodes'| && nodes'[j] == nodes[i];
        assert NodeFor(nodes', k, false, j);
      }
    }
  }

  lemma NoNilValues(arr: seq<Value>, nodes: seq<HashNode>, m: Contents)
    requires Represents(arr, nodes, m)
    ensures forall k | k in m :: m[k] != Nil
  {
    forall k | k in m ensures m[k] != Nil {
      assert KeyHeld(arr, nodes, m, k);
    }
  }

  /** The represented map is the only one: a table denotes one finite map. */
  lemma OneMap(arr: seq<Value>, nodes: seq<HashNode>, m: Contents, m': Contents)
    requires Represents(arr, nodes, m) && Represents(arr, nodes, m')
    ensures m == m'
  {
    forall k ensures k in m <==> k in m' ensures k in m ==> m[k] == m'[k] {
      ReadBack(arr, nodes, m, k);
      ReadBack(arr, nodes, m', k);
    }
  }

  /** `AssignRange` read back one key at a time. */
  lemma {:induction false} AssignRangeLookup(m: Contents, first: int, values: seq<Value>, k: Value)
    ensures Lookup(AssignRange(m, first, values), k)
         == if k.Num? && k.n.Integral? && first <= k.n.i < first + |values|
            then values[k.n.i - first] else Lookup(m, k)
    requires forall k | k in m :: m[k] != Nil
    ensures forall k | k in AssignRange(m, first, values) :: AssignRange(m, first, values)[k] != Nil
  {
    if values != [] {
      AssignRangeLookup(m, first, values[..|values| - 1], k);
    }
  }

  /** The Lua 5.1 Reference Manual, section 2.5.5: n is 0 or `t[n]` is not nil, and `t[n + 1]` is nil. */
  predicate IsBorder(m: Contents, n: nat) {
    (n == 0 || IntKey(n) in m) && IntKey(n + 1) !in m
  }

  ghost predicate NoHugeKeys(m: Contents) {
    forall k | IntKey(k) in m :: k <= I32_MAX / 2
  }

  // ------------------------------------------------- what `length` searches

  predicate EndsInNil(arr: seq<Value>) {
    arr != [] && arr[|arr| - 1] == Nil
  }

  /** What the bisection inside the array part finds. */
  predicate ArrayBorder(arr: seq<Value>, n: nat) {
    n < |arr| && arr[n] == Nil && (n == 0 || arr[n - 1] != Nil)
  }

  /** Where that bisection ends: a function of the array part alone. */
  function BisectEnd(arr: seq<Value>, low: nat, high: nat): nat
    requires low < high <= |arr|
    decreases high - low
  {
    if high - low <= 1 then low
    else
      var mid := low + (high - low) / 2;
      if arr[mid - 1] == Nil then BisectEnd(arr, low, mid) else BisectEnd(arr, mid, high)
  }

  function FirstProbe(arr: seq<Value>): nat {
    if arr == [] then 1 else |arr| * 2
  }

  /** Where the doubling search that tries `high`, twice that, and so on gives up: at the
      first key it finds above half of the i32 maximum. */
  function GivesUpAt(m: Contents, high: nat): Option<nat>
    requires high > 0
    decreases if high > I32_MAX then 0 else I32_MAX + 1 - high
  {
    if high > I32_MAX || IntKey(high) !in m then None
    else if high > I32_MAX / 2 then Some(high)
    else GivesUpAt(m, high * 2)
  }

  lemma {:induction false} BisectEndIsBorder(arr: seq<Value>, low: nat, high: nat)
    requires low < high <= |arr| && arr[high - 1] == Nil && (low == 0 || arr[low - 1] != Nil)
    ensures ArrayBorder(arr, BisectEnd(arr, low, high))
    decreases high - low
  {
    if high - low > 1 {
      var mid := low + (high - low) / 2;
      if arr[mid - 1] == Nil {
        BisectEndIsBorder(arr, low, mid);
      } else {
        BisectEndIsBorder(arr, mid, high);
      }
    }
  }

  /** The interval the doubling search leaves to the bisection behind it ... */
  function LastInterval(m: Contents, low: nat, high: nat): (r: (nat, nat))
    requires low < high
    ensures r.0 < r.1
    decreases if high > I32_MAX then 0 else I32_MAX + 1 - high
  {
    if high > I32_MAX / 2 || IntKey(high) !in m then (low, high) else LastInterval(m, high, high * 2)
  }

  /** ... and where that ends. */
  function SearchEnd(m: Contents, low: nat, high: nat): nat
    requires low < high
    decreases high - low
  {
    if high - low <= 1 then low
    else
      var mid := low + (high - low) / 2;
      if mid <= I32_MAX && IntKey(mid) in m then SearchEnd(m, mid, high) else SearchEnd(m, low, mid)
  }

  lemma SearchStep(m: Contents, low: nat, high: nat)
    requires low + 1 < high
    ensures var mid := low + (high - low) / 2;
            && low < mid < high
            && SearchEnd(m, low, high) ==
                 if mid <= I32_MAX && IntKey(mid) in m then SearchEnd(m, mid, high) else SearchEnd(m, low, mid)
  {
  }

  /** `length` goes beyond its array part. */
  predicate SearchesBeyond(arr: seq<Value>, m: Contents) {
    !EndsInNil(arr) && (arr != [] ==> |arr| < I32_MAX && IntKey(|arr| + 1) in m)
  }

  /** `length` ends at the largest i32; a key right above it is out of its sight. */
  predicate EndsAtLimit(arr: seq<Value>, m: Contents) {
    if SearchesBeyond(arr, m) then
      GivesUpAt(m, FirstProbe(arr)).None? &&
      var (low, high) := LastInterval(m, |arr|, FirstProbe(arr)); SearchEnd(m, low, high) == I32_MAX
    else !EndsInNil(arr) && |arr| == I32_MAX
  }

  /** `length` gets to its doubling search, which gives up right below a key. */
  predicate SearchOverruns(arr: seq<Value>, m: Contents) {
    && SearchesBeyond(arr, m)
    && GivesUpAt(m, FirstProbe(arr)).Some? && IntKey(GivesUpAt(m, FirstProbe(arr)).value + 1) in m
  }

  /** What makes `length` return no border. If the last array slot is nil: the slot where the
      bisection of the array part ends hides a key. Else: the doubling search gives up right
      below a key, or the search ends at the largest i32 and a key lies right above. */
  predicate MissesBorder(arr: seq<Value>, m: Contents) {
    if EndsInNil(arr) then HiddenAt(arr, m, BisectEnd(arr, 0, |arr|))
    else SearchOverruns(arr, m) || (EndsAtLimit(arr, m) && IntKey(I32_MAX + 1) in m)
  }

  lemma {:induction false} GivesUpAtAKey(m: Contents, high: nat)
    requires high > 0
    ensures GivesUpAt(m, high).Some? ==> IntKey(GivesUpAt(m, high).value) in m && GivesUpAt(m, high).value > I32_MAX / 2
    decreases if high > I32_MAX then 0 else I32_MAX + 1 - high
  {
    if high <= I32_MAX / 2 {
      GivesUpAtAKey(m, high * 2);
    }
  }

  lemma NoHugeNoMiss(arr: seq<Value>, m: Contents)
    requires NoHugeKeys(m) && NoHiddenKeys(arr, m)
    ensures !MissesBorder(arr, m)
  {
    GivesUpAtAKey(m, FirstProbe(arr));
  }

  lemma {:induction false} DoublingGivesUp(m: Contents, high: nat)
    requires PowerOfTwo(high) && 2 <= high <= I32_MAX
    requires forall q: nat | PowerOfTwo(q) && 2 <= q <= I32_MAX :: IntKey(q) in m
    ensures GivesUpAt(m, high).Some? && PowerOfTwo(GivesUpAt(m, high).value) && GivesUpAt(m, high).value <= I32_MAX
    decreases I32_MAX - high
  {
    if high <= I32_MAX / 2 {
      assert PowerOfTwo(high * 2);
      DoublingGivesUp(m, high * 2);
    }
  }

  /** With one array slot, and the powers of two from 2 on and the numbers right above them
      as further keys, `length` is no border. */
  lemma PowersOverrun(m: Contents, v: Value)
    requires v != Nil
    requires forall q: nat | PowerOfTwo(q) && 2 <= q <= I32_MAX :: IntKey(q) in m && IntKey(q + 1) in m
    ensures MissesBorder([v], m)
  {
    assert PowerOfTwo(1) && PowerOfTwo(2);
    DoublingGivesUp(m, 2);
  }

  // ------------------------------------------------------------ weak tables

  /** What a table is told by the collector, and how weak it is. */
  datatype Collector = Collector(isValueDead: Value -> bool, isWeakValueDead: Value -> bool,
                                 weakKeys: bool, weakValues: bool)
  {
    predicate Removes(k: Value, v: Value) {
      (weakKeys && isValueDead(k)) || (weakValues && isWeakValueDead(v))
    }
  }

  function Survivors(m: Contents, gc: Collector): Contents {
    map k | k in m && !gc.Removes(k, m[k]) :: m[k]
  }

  function SweptNode(node: HashNode, gc: Collector): HashNode {
    if node.state.Live? && gc.Removes(node.key, node.value) then node.(value := Nil, state := Dead) else node
  }

  function SweptNodes(nodes: seq<HashNode>, gc: Collector): (r: seq<HashNode>)
    ensures |r| == |nodes|
  {
    seq(|nodes|, i requires 0 <= i < |nodes| => SweptNode(nodes[i], gc))
  }

  /** A Live node dies, and loses its value, if its weak key or its weak value is dead; all
      other nodes stay as they are. */
  predicate DiesOrStays(n: HashNode, n': HashNode, gc: Collector) {
    if n.state.Live? && ((gc.weakKeys && gc.isValueDead(n.key)) || (gc.weakValues && gc.isWeakValueDead(n.value))) then
      n' == n.(value := Nil, state := Dead)
    else n' == n
  }

  predicate EachDiesOrStays(nodes: seq<HashNode>, nodes': seq<HashNode>, gc: Collector) {
    |nodes'| == |nodes| && forall i | 0 <= i < |nodes| :: DiesOrStays(nodes[i], nodes'[i], gc)
  }

  lemma SweepDecides(nodes: seq<HashNode>, gc: Collector)
    ensures EachDiesOrStays(nodes, SweptNodes(nodes, gc), gc)
  {
  }

  /** The node array when the sweep has reached node k. */
  function SweptUpTo(nodes: seq<HashNode>, k: nat, gc: Collector): seq<HashNode>
    requires k <= |nodes|
  {
    SweptNodes(nodes[..k], gc) + nodes[k..]
  }

  lemma SweptNothing(nodes: seq<HashNode>, gc: Collector)
    ensures SweptUpTo(nodes, 0, gc) == nodes
  {
  }

  lemma SweptOneMore(nodes: seq<HashNode>, k: nat, gc: Collector)
    requires k < |nodes|
    ensures SweptUpTo(nodes, k, gc)[k] == nodes[k]
    ensures SweptUpTo(nodes, k, gc)[k := SweptNode(nodes[k], gc)] == SweptUpTo(nodes, k + 1, gc)
  {
  }

  lemma SweptAll(after: seq<HashNode>, nodes: seq<HashNode>, gc: Collector)
    requires after == SweptUpTo(nodes, |nodes|, gc)
    ensures after == SweptNodes(nodes, gc)
  {
    assert nodes[..|nodes|] == nodes;
  }

  lemma NothingWeak(m: Contents, gc: Collector)
    requires !gc.weakKeys && !gc.weakValues
    ensures Survivors(m, gc) == m
  {
  }

  method SweepArray(arr: seq<Value>, gc: Collector) returns (slots: seq<Value>)
    ensures |slots| == |arr|
    ensures forall p | 0 <= p < |arr| :: slots[p] == if gc.isWeakValueDead(arr[p]) then Nil else arr[p]
  {
    slots := arr;
    for p := 0 to |arr|
      invariant |slots| == |arr|
      invariant forall q | 0 <= q < |arr| :: slots[q] == if q < p && gc.isWeakValueDead(arr[q]) then Nil else arr[q]
    {
      if gc.isWeakValueDead(slots[p]) {
        slots := slots[p := Nil];
      }
    }
  }

  predicate SweptSlots(arr: seq<Value>, slots: seq<Value>, gc: Collector) {
    && |slots| == |arr|
    && forall p | 0 <= p < |arr| :: slots[p] == if gc.weakValues && gc.isWeakValueDead(arr[p]) then Nil else arr[p]
  }

  lemma SweptHidesNothing(arr: seq<Value>, nodes: seq<HashNode>, m: Contents, slots: seq<Value>, gc: Collector)
    requires Represents(arr, nodes, m) && SweptSlots(arr, slots, gc)
    ensures NoHiddenKeys(arr, m) ==> NoHiddenKeys(slots, Survivors(m, gc))
    ensures StableNodes(nodes, SweptNodes(nodes, gc))
    ensures forall p | 0 <= p < |arr| :: slots[p] != Nil ==> arr[p] != Nil
  {
    if NoHiddenKeys(arr, m) {
      forall p | 0 <= p < |slots| && IntKey(p + 1) in Survivors(m, gc) ensures slots[p] != Nil {
        assert SlotHeld(arr, m, p);
      }
    }
  }

  lemma SweptContents(arr: seq<Value>, nodes: seq<HashNode>, m: Contents, slots: seq<Value>, gc: Collector)
    requires Represents(arr, nodes, m)
    requires forall n :: !gc.isValueDead(Num(n))
    requires SweptSlots(arr, slots, gc)
    ensures Represents(slots, SweptNodes(nodes, gc), Survivors(m, gc))
  {
    var nodes', m' := SweptNodes(nodes, gc), Survivors(m, gc);
    forall p | 0 <= p < |slots| ensures SlotHeld(slots, m', p) {
      assert SlotHeld(arr, m, p);
    }
    forall i | 0 <= i < |nodes'| ensures NodeHeld(slots, nodes', m', i) {
      assert NodeHeld(arr, nodes, m, i);
    }
    forall k ensures KeyHeld(slots, nodes', m', k) {
      ReadBack(arr, nodes, m, k);
      if k in m' && InHash(nodes, k) {
        var i :| 0 <= i < |nodes| && NodeFor(nodes, k, false, i);
        assert NodeFor(nodes', k, false, i);
      }
    }
  }

  // -------------------------------------------------------- array ranges

  /** `arr` with `values` written from slot `first` on. */
  function Overlay(arr: seq<Value>, first: nat, values: seq<Value>): (r: seq<Value>)
    requires first + |values| <= |arr|
    ensures |r| == |arr|
  {
    arr[..first] + values + arr[first + |values|..]
  }

  lemma OverlayGrown(arr: seq<Value>, p: nat, v: Value)
    ensures Overlay(Grown(arr, p + 1), p, [v]) == Grown(arr, p + 1)[p := v]
  {
    OverlayOne(Grown(arr, p + 1), p, v);
  }

  /** `array_.resize(size, nil)` where that grows it. */
  function Grown(arr: seq<Value>, size: nat): (r: seq<Value>)
    ensures |r| == if |arr| < size then size else |arr|
  {
    if |arr| < size then arr + seq(size - |arr|, _ => Nil) else arr
  }

  lemma OverlayOneMore(arr: seq<Value>, first: nat, values: seq<Value>, k: nat)
    requires first + |values| <= |arr| && k < |values|
    ensures Overlay(arr, first, values[..k])[first + k := values[k]] == Overlay(arr, first, values[..k + 1])
  {
  }

  lemma RangeOneMore(nodes: seq<HashNode>, m: Contents, first: int, values: seq<Value>, k: nat)
    requires k < |values|
    ensures AssignRange(m, first, values[..k + 1]) == Assign(AssignRange(m, first, values[..k]), IntKey(first + k), values[k])
    ensures DropRange(nodes, first, k + 1) == DropKey(DropRange(nodes, first, k), IntKey(first + k))
  {
    assert values[..k + 1][..k] == values[..k];
  }

  /** `t[first] = v` as a range of one. */
  lemma AssignOne(m: Contents, first: int, v: Value)
    ensures AssignRange(m, first, [v]) == Assign(m, IntKey(first), v)
  {
    assert [v][..0] == [];
  }

  lemma OverlayOne(arr: seq<Value>, p: nat, v: Value)
    requires p < |arr|
    ensures Overlay(arr, p, [v]) == arr[p := v]
  {
  }

  /** If no key was hidden, one is now exactly if a key lies in the gap below `first`. */
  ghost predicate HidesTheGap(arr: seq<Value>, m: Contents, arr': seq<Value>, m': Contents, first: int) {
    NoHiddenKeys(arr, m) ==> (NoHiddenKeys(arr', m') <==> NothingBetween(m, |arr|, first))
  }

  predicate NothingBetween(m: Contents, lo: int, hi: int) {
    forall k | lo < k < hi :: IntKey(k) !in m
  }

  /** Slot by slot: what a range hides is the gap it leaves behind the array part. */
  lemma HiddenByRange(arr: seq<Value>, m: Contents, arr': seq<Value>, first: int, values: seq<Value>, p: nat)
    requires 1 <= first && values != [] && NoHiddenKeys(arr, m)
    requires forall k | k in m :: m[k] != Nil
    requires arr' == Overlay(Grown(arr, first - 1 + |values|), first - 1, values)
    ensures HiddenAt(arr', AssignRange(m, first, values), p) <==> |arr| <= p < first - 1 && IntKey(p + 1) in m
  {
    AssignRangeLookup(m, first, values, IntKey(p + 1));
  }

  /** A range hides keys if, and only if, one lies in that gap. */
  lemma RangeHidesTheGap(arr: seq<Value>, m: Contents, arr': seq<Value>, first: int, values: seq<Value>)
    requires 1 <= first && values != [] && NoHiddenKeys(arr, m)
    requires forall k | k in m :: m[k] != Nil
    requires arr' == Overlay(Grown(arr, first - 1 + |values|), first - 1, values)
    ensures NoHiddenKeys(arr', AssignRange(m, first, values)) <==> NothingBetween(m, |arr|, first)
  {
    forall p | 0 <= p < |arr'|
      ensures HiddenAt(arr', AssignRange(m, first, values), p) <==> |arr| <= p < first - 1 && IntKey(p + 1) in m
    {
      HiddenByRange(arr, m, arr', first, values, p);
    }
    HiddenAreTheGap(arr', AssignRange(m, first, values), m, |arr|, first);
  }

  lemma HiddenAfterRange(arr: seq<Value>, nodes: seq<HashNode>, m: Contents, arr': seq<Value>, first: int, values: seq<Value>)
    requires Represents(arr, nodes, m) && 1 <= first && values != []
    requires arr' == Overlay(Grown(arr, first - 1 + |values|), first - 1, values)
    ensures HidesTheGap(arr, m, arr', AssignRange(m, first, values), first)
  {
    NoNilValues(arr, nodes, m);
    if NoHiddenKeys(arr, m) {
      RangeHidesTheGap(arr, m, arr', first, values);
    }
  }

  lemma HiddenAreTheGap(arr: seq<Value>, m': Contents, m: Contents, lo: int, hi: int)
    requires 0 <= lo && hi <= |arr| + 1
    requires forall p | 0 <= p < |arr| :: HiddenAt(arr, m', p) <==> lo <= p < hi - 1 && IntKey(p + 1) in m
    ensures NoHiddenKeys(arr, m') <==> NothingBetween(m, lo, hi)
  {
    if !NothingBetween(m, lo, hi) {
      var k :| lo < k < hi && IntKey(k) in m;
      assert HiddenAt(arr, m', k - 1);
    }
    if !NoHiddenKeys(arr, m') {
      var p :| 0 <= p < |arr| && IntKey(p + 1) in m' && arr[p] == Nil;
      assert HiddenAt(arr, m', p);
    }
  }

  // ---------------------------------------------------------------- size

  /** A table has at most as many entries as array slots and Live nodes. */
  lemma ContentsSize(arr: seq<Value>, nodes: seq<HashNode>, m: Contents)
    requires Represents(arr, nodes, m)
    ensures |m| <= |arr| + Tally(nodes, false)
  {
    var inArray := ArrayKeys(|arr|);
    var inHash := LiveKeys(nodes);
    forall k | k in m ensures k in inArray + inHash {
      ReadBack(arr, nodes, m, k);
      if InHash(nodes, k) {
        var i :| 0 <= i < |nodes| && NodeFor(nodes, k, false, i);
      } else {
        assert k == IntKey(k.n.i);
      }
    }
    var both := inArray + inHash;
    assert m.Keys <= both && both == m.Keys + (both - m.Keys);
    assert |both| <= |inArray| + |inHash|;
  }

  function LiveKeySet(nodes: seq<HashNode>): set<Value> {
    if nodes == [] then {}
    else
      var last := nodes[|nodes| - 1];
      LiveKeySet(nodes[..|nodes| - 1]) + if last.state.Live? then {last.key} else {}
  }

  lemma {:induction false} InLiveKeySet(nodes: seq<HashNode>, k: Value)
    ensures k in LiveKeySet(nodes) <==> exists i | 0 <= i < |nodes| :: nodes[i].state.Live? && nodes[i].key == k
  {
    if nodes != [] {
      InLiveKeySet(nodes[..|nodes| - 1], k);
    }
  }

  predicate LiveKeysDiffer(nodes: seq<HashNode>) {
    forall i, j | 0 <= i < j < |nodes| :: nodes[i].state.Live? && nodes[j].state.Live? ==> nodes[i].key != nodes[j].key
  }

  lemma {:induction false} CountLiveKeys(nodes: seq<HashNode>)
    requires LiveKeysDiffer(nodes)
    ensures |LiveKeySet(nodes)| == Tally(nodes, false)
  {
    if nodes != [] {
      var rest, last := nodes[..|nodes| - 1], nodes[|nodes| - 1];
      CountLiveKeys(rest);
      InLiveKeySet(rest, last.key);
    }
  }

  /** ... and at least as many as Live nodes. */
  lemma LiveNodesHaveEntries(arr: seq<Value>, nodes: seq<HashNode>, h: Hasher, m: Contents)
    requires Represents(arr, nodes, m) && ProbeOk(nodes, h)
    ensures Tally(nodes, false) <= |m|
  {
    forall i, j | 0 <= i < j < |nodes| && nodes[i].state.Live? && nodes[j].state.Live?
      ensures nodes[i].key != nodes[j].key
    {
      assert NoClash(nodes, i, j);
    }
    CountLiveKeys(nodes);
    forall k | k in LiveKeySet(nodes) ensures k in m.Keys {
      InLiveKeySet(nodes, k);
      var i :| 0 <= i < |nodes| && nodes[i].state.Live? && nodes[i].key == k;
      assert NodeHeld(arr, nodes, m, i);
    }
    assert m.Keys == LiveKeySet(nodes) + (m.Keys - LiveKeySet(nodes));
  }

  lemma {:induction false} ArrayKeys(n: nat) returns (s: set<Value>)
    ensures |s| <= n && forall i | 1 <= i <= n :: IntKey(i) in s
  {
    if n == 0 {
      s := {};
    } else {
      s := ArrayKeys(n - 1);
      s := s + {IntKey(n)};
    }
  }

  lemma {:induction false} LiveKeys(nodes: seq<HashNode>) returns (s: set<Value>)
    ensures |s| <= Tally(nodes, false) && forall i | 0 <= i < |nodes| :: nodes[i].state.Live? ==> nodes[i].key in s
  {
    if nodes == [] {
      s := {};
    } else {
      s := LiveKeys(nodes[..|nodes| - 1]);
      if nodes[|nodes| - 1].state.Live? {
        s := s + {nodes[|nodes| - 1].key};
      }
    }
  }
}
