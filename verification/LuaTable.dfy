/**
 * `Lua::Table`, src/core/table.hpp and src/core/table.cpp: a dense array part and an
 * open-addressing hash part that together are one finite map.
 */
module LuaTable {
  import opened LuaValue
  import opened HashNodes
  import opened TableContents
  import opened Traversal

  datatype TableError = IndexIsNil | IndexIsNaN | ArraySlotLimit | HashEntryLimit | BadArrayLength

  datatype Outcome = Done | Failed(error: TableError)

  // --------------------------------------------------- metamethod absence bits

  /** `TMS`: TM_INDEX to TM_EQ, which have a bit in `flags_`, are 0 to 4. */
  type Event = e: nat | e <= 16

  const TM_EQ: Event := 4

  /** `1u << event`. */
  function EventBit(e: Event): bv8
    requires e <= TM_EQ
  {
    match e
    case 0 => 1
    case 1 => 2
    case 2 => 4
    case 3 => 8
    case _ => 16
  }

  /** The interned name of an event, `kMetamethodNames` in src/core/metatable.hpp:152. */
  function EventName(e: Event): Value {
    Str(match e
        case 0 => "__index"
        case 1 => "__newindex"
        case 2 => "__gc"
        case 3 => "__mode"
        case 4 => "__eq"
        case 5 => "__add"
        case 6 => "__sub"
        case 7 => "__mul"
        case 8 => "__div"
        case 9 => "__mod"
        case 10 => "__pow"
        case 11 => "__unm"
        case 12 => "__len"
        case 13 => "__lt"
        case 14 => "__le"
        case 15 => "__concat"
        case _ => "__call")
  }

  /** A set bit says that the event's name is absent from the table. */
  ghost predicate AbsenceBitsHold(flags: bv8, m: Contents) {
    flags == 0 || forall e: Event | e <= TM_EQ :: flags & EventBit(e) != 0 ==> EventName(e) !in m
  }

  lemma FewerKeys(flags: bv8, m: Contents, m': Contents)
    requires AbsenceBitsHold(flags, m) && m'.Keys <= m.Keys
    ensures AbsenceBitsHold(flags, m')
  {
  }

  /** The bisection of `length` inside the array part. */
  method BisectArray(arr: seq<Value>) returns (low: nat)
    requires EndsInNil(arr)
    ensures low == BisectEnd(arr, 0, |arr|) && ArrayBorder(arr, low)
  {
    low := 0;
    var high := |arr|;
    while high - low > 1
      invariant low < high <= |arr| && arr[high - 1] == Nil
      invariant low == 0 || arr[low - 1] != Nil
      invariant BisectEnd(arr, low, high) == BisectEnd(arr, 0, |arr|)
    {
      var mid := low + (high - low) / 2;
      if arr[mid - 1] == Nil {
        high := mid;
      } else {
        low := mid;
      }
    }
  }

  class Table {
    const hasher: Hasher
    const maxArraySlots: nat
    const maxHashEntries: nat

    var arr: seq<Value>
    var nodes: seq<HashNode>
    var liveCount: nat
    var usedCount: nat
    var flags: bv8

    ghost var contents: Contents

    /** The invariant of the hash part alone. */
    ghost predicate HashValid()
      reads this
    {
      && ProbeOk(nodes, hasher)
      && CapacityOk(|nodes|, maxHashEntries)
      && liveCount == Tally(nodes, false)
      && usedCount == Tally(nodes, true)
      && WithinLoad(usedCount, |nodes|)
    }

    ghost predicate Valid()
      reads this
    {
      && maxArraySlots <= I32_MAX
      && |arr| <= maxArraySlots
      && HashValid()
      && liveCount <= maxHashEntries
      && Represents(arr, nodes, contents)
      && AbsenceBitsHold(flags, contents)
    }

    constructor (hasher: Hasher, maxArraySlots: nat, maxHashEntries: nat)
      requires maxArraySlots <= I32_MAX
      ensures Valid() && contents == map[] && arr == [] && nodes == [] && usedCount == 0
      ensures this.hasher == hasher && this.maxArraySlots == maxArraySlots
      ensures this.maxHashEntries == maxHashEntries
    {
      this.hasher, this.maxArraySlots, this.maxHashEntries := hasher, maxArraySlots, maxHashEntries;
      arr, nodes, liveCount, usedCount, flags := [], [], 0, 0, 0;
      contents := map[];
    }

    // ----------------------------------------------------------------- lookup

    method FindHashNode(key: Value, includeDead: bool) returns (r: Option<nat>)
      requires HashValid()
      ensures r.Some? ==> r.value < |nodes| && Matches(nodes[r.value], key, includeDead)
      ensures r.None? ==> !HasNode(nodes, key, includeDead)
    {
      if |nodes| == 0 {
        return None;
      }
      var hash := hasher(key);
      ghost var home := Home(hash, |nodes|);
      var index: nat := Home(hash, |nodes|);
      var probes := 0;
      while probes < |nodes|
        invariant 0 <= probes <= |nodes| && index < |nodes|
        invariant probes < |nodes| ==> Distance(home, index, |nodes|) == probes
        invariant forall j | 0 <= j < |nodes| ::
                    Distance(home, j, |nodes|) < probes ==> !Matches(nodes[j], key, includeDead)
      {
        if nodes[index].state.Empty? {
          ProbeMiss(nodes, hasher, key, index, includeDead);
          return None;
        }
        assert NodeOk(nodes, hasher, index);
        if nodes[index].hash == hash && RawEqual(nodes[index].key, key)
           && (nodes[index].state.Live? || includeDead) {
          return Some(index);
        }
        index := NextSlot(index, |nodes|);
        probes := probes + 1;
      }
      ProbeExhausted(nodes, hasher, key, includeDead);
      return None;
    }

    method Get(key: Value) returns (v: Value)
      requires Valid()
      ensures v == Lookup(contents, key)
    {
      ReadBack(arr, nodes, contents, key);
      if IsArrayKey(key) && key.n.i <= |arr| {
        v := arr[key.n.i - 1];
        if v != Nil {
          return;
        }
      }
      var node := FindHashNode(key, false);
      v := if node.Some? then nodes[node.value].value else Nil;
    }

    method Has(key: Value) returns (b: bool)
      requires Valid()
      ensures b <==> key in contents
    {
      ReadBack(arr, nodes, contents, key);
      if IsArrayKey(key) && key.n.i <= |arr| && arr[key.n.i - 1] != Nil {
        return true;
      }
      var node := FindHashNode(key, false);
      b := node.Some?;
    }

    // ---------------------------------------------------------------- removal

    method KillNode(i: nat)
      requires HashValid() && i < |nodes| && nodes[i].state.Live?
      modifies this`nodes, this`liveCount
      ensures HashValid() && liveCount == old(liveCount) - 1
      ensures nodes == old(nodes)[i := old(nodes)[i].(value := Nil, state := Dead)]
    {
      var dead := nodes[i].(value := Nil, state := Dead);
      ReplaceKeepsProbeOk(nodes, hasher, i, dead);
      TallyUpdate(nodes, i, dead, false);
      TallyUpdate(nodes, i, dead, true);
      nodes := nodes[i := dead];
      liveCount := liveCount - 1;
    }

    /** Kills the Live node of `key`, if there is one; the array part and the ghost map are the caller's. */
    method RemoveHash(key: Value)
      requires HashValid()
      modifies this`nodes, this`liveCount
      ensures HashValid() && liveCount <= old(liveCount)
      ensures nodes == DropKey(old(nodes), key)
    {
      var index := FindHashNode(key, false);
      if index.None? {
        DropMissingKey(nodes, key);
        return;
      }
      DropFoundKey(nodes, hasher, key, index.value);
      KillNode(index.value);
    }

    method Remove(key: Value)
      requires Valid()
      modifies this`arr, this`nodes, this`liveCount, this`flags, this`contents
      ensures Valid() && contents == Assign(old(contents), key, Nil)
      ensures Stable(old(View(arr, nodes)), View(arr, nodes))
      ensures old(NoHiddenKeys(arr, contents)) ==> NoHiddenKeys(arr, contents)
    {
      RemovedKey(View(arr, nodes), contents, key);
      flags := 0;
      contents := Assign(contents, key, Nil);
      if IsArrayKey(key) && key.n.i <= |arr| && arr[key.n.i - 1] != Nil {
        arr := arr[key.n.i - 1 := Nil];
      }
      RemoveHash(key);
    }

    method Clear()
      requires Valid()
      modifies this
      ensures Valid() && contents == map[]
    {
      arr, nodes, liveCount, usedCount, flags := [], [], 0, 0, 0;
      contents := map[];
    }

    // -------------------------------------------------------------- insertion

    /** Reallocates the node array and re-inserts the Live nodes only. */
    method Rehash(requestedCapacity: nat) returns (r: Outcome)
      requires Valid()
      requires CapacityOk(requestedCapacity, maxHashEntries)
      requires requestedCapacity > 0 && WithinLoad(liveCount, requestedCapacity)
      modifies this`nodes, this`usedCount
      ensures Valid() && (r.Failed? ==> nodes == old(nodes) && usedCount == old(usedCount))
      ensures r.Failed? ==> r.error == BadArrayLength && requestedCapacity > USIZE_MAX
      ensures r.Done? ==> |nodes| == requestedCapacity && usedCount == liveCount
      ensures r.Done? ==> SameLiveNodes(old(nodes), nodes)
    {
      assert Holds(requestedCapacity, requestedCapacity);
      var capacity := RoundCapacity(requestedCapacity);
      if capacity == 0 {
        return Failed(BadArrayLength);
      }
      var replacement := Rebuild(nodes, hasher, capacity);
      RearrangeHash(arr, nodes, replacement, contents);
      nodes := replacement;
      usedCount := liveCount;
      return Done;
    }

    /** Makes room for one more node; `contents` is untouched. */
    method EnsureHashInsertCapacity() returns (r: Outcome)
      requires Valid() && liveCount < maxHashEntries
      modifies this`nodes, this`usedCount
      ensures Valid() && (r.Failed? ==> nodes == old(nodes))
      ensures r.Done? ==> WithinLoad(usedCount + 1, |nodes|)
      ensures usedCount <= old(usedCount)
      ensures forall k | HasNode(nodes, k, true) :: HasNode(old(nodes), k, true)
      ensures r.Failed? ==> r.error == BadArrayLength && |nodes| > USIZE_MAX / 2
      ensures r.Done? ==> |nodes| == (if old(|nodes|) == 0 then 8
                                      else if 4 * (old(usedCount) + 1) <= 3 * old(|nodes|) then old(|nodes|)
                                      else if liveCount * 2 < old(usedCount) then old(|nodes|) else old(|nodes|) * 2)
    {
      LiveAtMostUsed(nodes);
      LoadIsThreeQuarters(usedCount + 1, |nodes|, maxHashEntries);
      RoomAfterRehash(|nodes|, usedCount, liveCount, maxHashEntries);
      if |nodes| == 0 {
        r := Rehash(8);
      } else {
        if WithinLoad(usedCount + 1, |nodes|) {
          return Done;
        }
        r := RehashFull();
      }
      if r.Done? {
        NoNewNodes(old(nodes), nodes);
      }
    }

    /** At the load bound: cleans up where more than half of the nodes are Dead, else doubles. */
    method RehashFull() returns (r: Outcome)
      requires Valid() && liveCount < maxHashEntries && |nodes| > 0 && !WithinLoad(usedCount + 1, |nodes|)
      modifies this`nodes, this`usedCount
      ensures Valid() && (r.Failed? ==> nodes == old(nodes) && usedCount == old(usedCount))
      ensures r.Failed? ==> r.error == BadArrayLength && |nodes| > USIZE_MAX / 2
      ensures r.Done? ==> |nodes| == if liveCount * 2 < old(usedCount) then old(|nodes|) else old(|nodes|) * 2
      ensures r.Done? ==> usedCount == liveCount && WithinLoad(usedCount + 1, |nodes|)
      ensures r.Done? ==> SameLiveNodes(old(nodes), nodes)
    {
      LiveAtMostUsed(nodes);
      RoomAfterRehash(|nodes|, usedCount, liveCount, maxHashEntries);
      if liveCount * 2 < usedCount {
        r := Rehash(|nodes|);
      } else if |nodes| > USIZE_MAX / 2 {
        return Failed(BadArrayLength);
      } else {
        r := Rehash(|nodes| * 2);
      }
    }

    /** Stores a non-nil value in the hash part. */
    method SetHash(key: Value, value: Value) returns (r: Outcome)
      requires Valid() && flags == 0
      requires IsTableKey(key) && value != Nil && !InArray(arr, key)
      modifies this`nodes, this`liveCount, this`usedCount, this`contents
      ensures Valid()
      ensures contents == if r.Done? then Assign(old(contents), key, value) else old(contents)
      ensures r.Failed? ==> key !in contents && liveCount == old(liveCount) && nodes == old(nodes)
      ensures usedCount <= old(usedCount) + 1
      ensures r == Failed(HashEntryLimit) <==> key !in old(contents) && old(liveCount) >= maxHashEntries
      ensures r.Failed? && r.error != HashEntryLimit ==> r.error == BadArrayLength && |nodes| > USIZE_MAX / 2
      ensures old(InHash(nodes, key)) ==> StableNodes(old(nodes), nodes)
    {
      ReadBack(arr, nodes, contents, key);
      var found := FindHashNode(key, true);
      if found.Some? {
        OneNode(nodes, hasher, key, found.value);
      } else {
        NoNodeAtAll(nodes, key);
      }
      if found.Some? && nodes[found.value].state.Live? {
        Store(found.value, nodes[found.value].(value := value));
        return Done;
      }
      if liveCount >= maxHashEntries {
        return Failed(HashEntryLimit);
      }
      if found.Some? {
        Store(found.value, nodes[found.value].(value := value, state := Live));
        return Done;
      }
      r := EnsureHashInsertCapacity();
      if r.Done? {
        InsertNew(key, value);
      }
    }

    /** Gives a key that no node carries, Live or Dead, a node of its own. */
    method InsertNew(key: Value, value: Value)
      requires Valid() && flags == 0 && liveCount < maxHashEntries && WithinLoad(usedCount + 1, |nodes|)
      requires IsTableKey(key) && value != Nil && !InArray(arr, key) && !HasNode(nodes, key, true)
      modifies this`nodes, this`liveCount, this`usedCount, this`contents
      ensures Valid() && contents == Assign(old(contents), key, value)
      ensures usedCount <= old(usedCount) + 1
    {
      var destination := FindInsertSlot(nodes, hasher, key);
      var node := HashNode(key, value, hasher(key), Live);
      InsertKeepsProbeOk(nodes, hasher, destination, key, value);
      NoNodeAtAll(nodes, key);
      StoreInHash(arr, nodes, contents, destination, node);
      TallyUpdate(nodes, destination, node, false);
      TallyUpdate(nodes, destination, node, true);
      if nodes[destination].state.Empty? {
        usedCount := usedCount + 1;
      }
      nodes := nodes[destination := node];
      liveCount := liveCount + 1;
      contents := Assign(contents, key, value);
    }

    /** Writes a Live node over the node of the same key. */
    method Store(i: nat, x: HashNode)
      requires Valid() && flags == 0
      requires i < |nodes| && !nodes[i].state.Empty? && x.state.Live? && x.value != Nil
      requires x.key == nodes[i].key && x.hash == nodes[i].hash && !InArray(arr, x.key)
      requires nodes[i].state.Live? || liveCount < maxHashEntries
      modifies this`nodes, this`liveCount, this`contents
      ensures Valid() && contents == Assign(old(contents), x.key, x.value)
      ensures nodes == old(nodes)[i := x]
    {
      assert NodeOk(nodes, hasher, i);
      OneNode(nodes, hasher, x.key, i);
      ReplaceKeepsProbeOk(nodes, hasher, i, x);
      StoreInHash(arr, nodes, contents, i, x);
      TallyUpdate(nodes, i, x, false);
      TallyUpdate(nodes, i, x, true);
      if !nodes[i].state.Live? {
        liveCount := liveCount + 1;
      }
      nodes := nodes[i := x];
      contents := Assign(contents, x.key, x.value);
    }

    // ------------------------------------------------------------ assignment

    predicate ShouldStoreInArray(index: int)
      reads this
    {
      1 <= index <= maxArraySlots && (index <= |arr| || index == |arr| + 1)
    }

    /** Writes slot p of the array part and drops the same key from the hash part. */
    method PutArraySlot(p: nat, v: Value)
      requires Valid() && flags == 0 && p < |arr|
      modifies this`arr, this`nodes, this`liveCount, this`contents
      ensures Valid() && arr == old(arr)[p := v]
      ensures contents == Assign(old(contents), IntKey(p + 1), v)
      ensures nodes == DropKey(old(nodes), IntKey(p + 1))
    {
      StoreInArray(arr, nodes, contents, p, v);
      contents := Assign(contents, IntKey(p + 1), v);
      arr := arr[p := v];
      RemoveHash(IntKey(p + 1));
    }

    method ResizeArray(size: nat)
      requires Valid() && |arr| <= size <= maxArraySlots
      modifies this`arr
      ensures Valid() && arr == Grown(old(arr), size)
    {
      var extra := seq(size - |arr|, _ => Nil);
      GrowArray(arr, nodes, contents, extra);
      assert Grown(arr, size) == arr + extra;
      arr := arr + extra;
    }

    method WriteRange(first: nat, values: seq<Value>)
      requires Valid() && flags == 0 && first + |values| <= |arr|
      modifies this`arr, this`nodes, this`liveCount, this`contents
      ensures Valid() && arr == Overlay(old(arr), first, values)
      ensures contents == AssignRange(old(contents), first + 1, values)
      ensures nodes == DropRange(old(nodes), first + 1, |values|)
    {
      for offset := 0 to |values|
        invariant Valid() && arr == Overlay(old(arr), first, values[..offset])
        invariant contents == AssignRange(old(contents), first + 1, values[..offset])
        invariant nodes == DropRange(old(nodes), first + 1, offset)
      {
        OverlayOneMore(old(arr), first, values, offset);
        RangeOneMore(old(nodes), old(contents), first + 1, values, offset);
        PutArraySlot(first + offset, values[offset]);
      }
      assert values[..|values|] == values;
    }

    /** Writes `values` from 1-based `firstIndex` on, growing the array part with nil if needed. */
    method SetArrayRange(firstIndex: int, values: seq<Value>) returns (r: Outcome)
      requires Valid() && firstIndex <= I32_MAX
      modifies this`arr, this`nodes, this`liveCount, this`flags, this`contents
      ensures Valid()
      ensures r.Failed? <==> firstIndex >= 1 && values != [] && firstIndex - 1 + |values| > maxArraySlots
      ensures r.Failed? ==> r.error == if |values| > USIZE_MAX - (firstIndex - 1) then BadArrayLength else ArraySlotLimit
      ensures r.Done? && firstIndex >= 1 && values != [] ==>
                && contents == AssignRange(old(contents), firstIndex, values)
                && arr == Overlay(Grown(old(arr), firstIndex - 1 + |values|), firstIndex - 1, values)
                && nodes == DropRange(old(nodes), firstIndex, |values|)
                && HidesTheGap(old(arr), old(contents), arr, contents, firstIndex)
      ensures r.Failed? || firstIndex < 1 || values == [] ==>
                contents == old(contents) && View(arr, nodes) == old(View(arr, nodes))
    {
      if firstIndex < 1 || |values| == 0 {
        return Done;
      }
      var first := firstIndex - 1;
      if |values| > USIZE_MAX - first {
        return Failed(BadArrayLength);
      }
      var requiredSize := first + |values|;
      if requiredSize > maxArraySlots {
        return Failed(ArraySlotLimit);
      }
      StoreRange(first, values);
      return Done;
    }

    method PrepareRange(size: nat)
      requires Valid() && size <= maxArraySlots
      modifies this`arr, this`flags
      ensures Valid() && flags == 0 && arr == Grown(old(arr), size)
    {
      if size > |arr| {
        ResizeArray(size);
      }
      flags := 0;
    }

    method StoreRange(first: nat, values: seq<Value>)
      requires Valid() && values != [] && first + |values| <= maxArraySlots
      modifies this`arr, this`nodes, this`liveCount, this`flags, this`contents
      ensures Valid() && contents == AssignRange(old(contents), first + 1, values)
      ensures arr == Overlay(Grown(old(arr), first + |values|), first, values)
      ensures nodes == DropRange(old(nodes), first + 1, |values|)
      ensures HidesTheGap(old(arr), old(contents), arr, contents, first + 1)
    {
      HiddenAfterRange(arr, nodes, contents, Overlay(Grown(arr, first + |values|), first, values), first + 1, values);
      PrepareRange(first + |values|);
      WriteRange(first, values);
    }

    method SetArray(index: int, value: Value) returns (r: Outcome)
      requires Valid() && index <= I32_MAX
      modifies this`arr, this`nodes, this`liveCount, this`flags, this`contents
      ensures Valid()
      ensures contents == if r.Done? && index >= 1 then Assign(old(contents), IntKey(index), value) else old(contents)
      ensures r.Failed? <==> index >= 1 && (value != Nil || index <= old(|arr|)) && index > maxArraySlots
      ensures r.Failed? ==> r.error == ArraySlotLimit && arr == old(arr)
      ensures r.Done? ==> arr == if index >= 1 && (value != Nil || index <= old(|arr|))
                                 then Grown(old(arr), index)[index - 1 := value] else old(arr)
      ensures nodes == if r.Done? && index >= 1 then DropKey(old(nodes), IntKey(index)) else old(nodes)
      ensures old(NoHiddenKeys(arr, contents)) && index <= old(|arr|) + 1 ==> NoHiddenKeys(arr, contents)
    {
      if index < 1 {
        return Done;
      }
      if value == Nil && index > |arr| {
        DropFromHash(arr, nodes, contents, IntKey(index));
        contents := Assign(contents, IntKey(index), Nil);
        RemoveHash(IntKey(index));
        return Done;
      }
      AssignOne(contents, index, value);
      OverlayGrown(arr, index - 1, value);
      assert DropRange(nodes, index, 1) == DropKey(DropRange(nodes, index, 0), IntKey(index));
      r := SetArrayRange(index, [value]);
    }

    /** A key whose next value goes to the array part. */
    predicate GoesToArray(key: Value)
      reads this
    {
      IsArrayKey(key) && ShouldStoreInArray(key.n.i)
    }

    /** Slot `index` of the array part, which had `size` slots and grows no further, holds the value. */
    predicate InSlot(index: int, value: Value, size: nat)
      reads this
    {
      1 <= index <= |arr| == (if index <= size then size else index) && arr[index - 1] == value
    }

    /** A key that would need one more entry than the hash part may have. */
    ghost predicate NeedsNewEntry(key: Value)
      reads this
    {
      key !in contents && liveCount >= maxHashEntries && !GoesToArray(key)
    }

    /** The hash part has reached a limit. */
    ghost predicate AtLimit()
      reads this
    {
      liveCount >= maxHashEntries || |nodes| > USIZE_MAX / 2
    }

    /** `t[key] = value`. */
    method Set(key: Value, value: Value) returns (r: Outcome)
      requires Valid()
      modifies this
      ensures Valid()
      ensures contents == if r.Done? then Assign(old(contents), key, value) else old(contents)
      ensures r == Failed(IndexIsNil) <==> key == Nil
      ensures r == Failed(IndexIsNaN) <==> key == Num(NaN)
      ensures r.Failed? && IsTableKey(key) ==> value != Nil && key !in old(contents)
      ensures r == Failed(HashEntryLimit) <==> IsTableKey(key) && value != Nil && old(NeedsNewEntry(key))
      ensures r == Failed(BadArrayLength) ==> |nodes| > USIZE_MAX / 2
      ensures r.Failed? && IsTableKey(key) ==> r.error == HashEntryLimit || r.error == BadArrayLength
      ensures value != Nil && key.Num? && key.n.Integral? && 1 <= key.n.i <= old(|arr|) + 1 && key.n.i <= maxArraySlots ==>
                r.Done? && InSlot(key.n.i, value, old(|arr|))
      ensures value != Nil && !(key.Num? && key.n.Integral? && 1 <= key.n.i <= old(|arr|) + 1 && key.n.i <= maxArraySlots) ==>
                arr == old(arr)
      ensures old(NoHiddenKeys(arr, contents)) ==> NoHiddenKeys(arr, contents)
      ensures IsTableKey(key) && value != Nil ==>
                if old(GoesToArray(key)) then r.Done? && View(arr, nodes) == Migrated(old(View(arr, nodes)), key.n.i, value)
                else arr == old(arr)
      ensures r.Failed? ==> liveCount == old(liveCount) && View(arr, nodes) == old(View(arr, nodes))
      ensures usedCount <= old(usedCount) + if old(GoesToArray(key)) then 0 else 1
      ensures key in old(contents) ==> Assigned(old(View(arr, nodes)), View(arr, nodes), maxArraySlots)
    {
      if key == Nil {
        return Failed(IndexIsNil);
      }
      if key == Num(NaN) {
        return Failed(IndexIsNaN);
      }
      flags := 0;
      if value == Nil {
        Remove(key);
        return Done;
      }
      r := SetValue(key, value);
    }

    /** The assignment of a value other than nil to a key that can be one. */
    method SetValue(key: Value, value: Value) returns (r: Outcome)
      requires Valid() && flags == 0 && IsTableKey(key) && value != Nil
      modifies this
      ensures Valid()
      ensures contents == if r.Done? then Assign(old(contents), key, value) else old(contents)
      ensures r.Failed? ==> key !in old(contents) && (r.error == HashEntryLimit || r.error == BadArrayLength)
      ensures r == Failed(HashEntryLimit) <==> old(NeedsNewEntry(key))
      ensures r == Failed(BadArrayLength) ==> |nodes| > USIZE_MAX / 2
      ensures old(NoHiddenKeys(arr, contents)) ==> NoHiddenKeys(arr, contents)
      ensures if old(GoesToArray(key)) then r.Done? && View(arr, nodes) == Migrated(old(View(arr, nodes)), key.n.i, value)
              else arr == old(arr)
      ensures key.Num? && key.n.Integral? && 1 <= key.n.i <= old(|arr|) + 1 && key.n.i <= maxArraySlots ==>
                r.Done? && InSlot(key.n.i, value, old(|arr|))
      ensures !(key.Num? && key.n.Integral? && 1 <= key.n.i <= old(|arr|) + 1 && key.n.i <= maxArraySlots) ==>
                arr == old(arr)
      ensures r.Failed? ==> liveCount == old(liveCount) && View(arr, nodes) == old(View(arr, nodes))
      ensures usedCount <= old(usedCount) + if old(GoesToArray(key)) then 0 else 1
      ensures key in old(contents) ==> Assigned(old(View(arr, nodes)), View(arr, nodes), maxArraySlots)
    {
      ReadBack(arr, nodes, contents, key);
      if GoesToArray(key) {
        assert key == IntKey(key.n.i);
        AssignedByMove(View(arr, nodes), contents, maxArraySlots, key.n.i, value);
        r := SetArray(key.n.i, value);
      } else {
        r := SetHash(key, value);
      }
    }

    // ------------------------------------------------------------------ length

    /** The lambda `hasIntegerKey` of `length`. */
    method HasIntegerKey(index: nat) returns (b: bool)
      requires Valid()
      ensures b <==> 1 <= index <= I32_MAX && IntKey(index) in contents
    {
      if index == 0 || index > I32_MAX {
        return false;
      }
      ReadBack(arr, nodes, contents, IntKey(index));
      if index <= |arr| && arr[index - 1] != Nil {
        return true;
      }
      var node := FindHashNode(IntKey(index), false);
      b := node.Some?;
    }

    /** The `#` operator. */
    method Length() returns (n: nat)
      requires Valid()
      ensures n == 0 || IntKey(n) in contents
      ensures IsBorder(contents, n) <==> !MissesBorder(arr, contents)
      ensures EndsInNil(arr) ==> ArrayBorder(arr, n)
      ensures !EndsInNil(arr) && IntKey(|arr| + 1) !in contents ==> n == |arr|
    {
      if |arr| > 0 {
        if arr[|arr| - 1] == Nil {
          n := BisectArray(arr);
          assert n > 0 ==> SlotHeld(arr, contents, n - 1);
          return;
        }
        assert SlotHeld(arr, contents, |arr| - 1);
        var more := HasIntegerKey(|arr| + 1);
        if !more {
          return |arr|;
        }
      }
      n := UnboundSearch(|arr|, FirstProbe(arr));
    }

    /** The doubling search and the bisection of its last interval. */
    method UnboundSearch(start: nat, firstHigh: nat) returns (low: nat)
      requires Valid() && start < firstHigh && start <= I32_MAX
      requires start == 0 || IntKey(start) in contents
      ensures low == 0 || IntKey(low) in contents
      ensures low >= start
      ensures match GivesUpAt(contents, firstHigh)
              case Some(g) => low == g
              case None =>
                && low == SearchEnd(contents, LastInterval(contents, start, firstHigh).0, LastInterval(contents, start, firstHigh).1)
                && low <= I32_MAX && (IntKey(low + 1) in contents ==> low == I32_MAX)
    {
      low := start;
      var high := firstHigh;
      var has := HasIntegerKey(high);
      while has
        invariant start <= low < high && low <= I32_MAX && (low == 0 || IntKey(low) in contents)
        invariant has <==> high <= I32_MAX && IntKey(high) in contents
        invariant GivesUpAt(contents, high) == GivesUpAt(contents, firstHigh)
        invariant LastInterval(contents, low, high) == LastInterval(contents, start, firstHigh)
        decreases if has then I32_MAX + 1 - high else 0
      {
        low := high;
        if high > I32_MAX / 2 {
          return;
        }
        high := high * 2;
        has := HasIntegerKey(high);
      }
      low := SearchBetween(low, high);
    }

    method SearchBetween(from: nat, to: nat) returns (low: nat)
      requires Valid() && from < to && from <= I32_MAX && (from == 0 || IntKey(from) in contents)
      requires to > I32_MAX || IntKey(to) !in contents
      ensures from <= low == SearchEnd(contents, from, to) && low <= I32_MAX
      ensures (low == 0 || IntKey(low) in contents) && (IntKey(low + 1) in contents ==> low == I32_MAX)
    {
      low := from;
      var high := to;
      while high - low > 1
        invariant from <= low < high && low <= I32_MAX && (low == 0 || IntKey(low) in contents)
        invariant high > I32_MAX || IntKey(high) !in contents
        invariant SearchEnd(contents, low, high) == SearchEnd(contents, from, to)
      {
        SearchStep(contents, low, high);
        var mid := low + (high - low) / 2;
        var has := HasIntegerKey(mid);
        if has {
          low := mid;
        } else {
          high := mid;
        }
      }
    }

    // --------------------------------------------------------------- traversal

    method NextLiveHashNode(first: nat) returns (i: nat)
      requires first <= |nodes|
      ensures first <= i <= |nodes| && (i < |nodes| ==> nodes[i].state.Live?)
      ensures forall j | first <= j < i :: !nodes[j].state.Live?
    {
      i := first;
      while i < |nodes| && !nodes[i].state.Live?
        invariant first <= i <= |nodes|
        invariant forall j | first <= j < i :: !nodes[j].state.Live?
      {
        i := i + 1;
      }
    }

    /** Scans the array part from slot p, then the nodes. */
    method NextFromArray(p: nat) returns (r: NextResult)
      requires p <= |arr|
      ensures r == EntryAt(View(arr, nodes), FirstFrom(View(arr, nodes), p))
    {
      ghost var t := View(arr, nodes);
      for i := p to |arr|
        invariant FirstFrom(t, p) == FirstFrom(t, i)
      {
        if arr[i] != Nil {
          return Entry(IntKey(i + 1), arr[i]);
        }
      }
      r := NextFromNode(0);
    }

    method NextFromNode(first: nat) returns (r: NextResult)
      requires first <= |nodes|
      ensures r == EntryAt(View(arr, nodes), FirstFrom(View(arr, nodes), |arr| + first))
    {
      var i := NextLiveHashNode(first);
      FirstFromIs(View(arr, nodes), |arr| + first, |arr| + i);
      r := if i < |nodes| then Entry(nodes[i].key, nodes[i].value) else Finished;
    }

    method Next(key: Value) returns (r: NextResult)
      requires Valid()
      ensures r == match ResumeAt(View(arr, nodes), key)
                   case None => InvalidKey
                   case Some(p) => EntryAt(View(arr, nodes), FirstFrom(View(arr, nodes), p))
      ensures r.InvalidKey? <==> key != Nil && !HasNode(nodes, key, true)
                                 && !(key.Num? && key.n.Integral? && 1 <= key.n.i <= |arr|)
    {
      if key == Nil {
        r := NextFromArray(0);
        return;
      }
      var node := FindHashNode(key, true);
      ResumeAtFound(View(arr, nodes), hasher, key, node);
      if IsArrayKey(key) && key.n.i <= |arr| && (arr[key.n.i - 1] != Nil || node.None?) {
        r := NextFromArray(key.n.i);
      } else if node.None? {
        r := InvalidKey;
      } else {
        r := NextFromNode(node.value + 1);
      }
    }

    // ------------------------------------------------------------- weak tables

    /** Drops the entries whose key or value the collector is about to free. */
    method RemoveWeakEntries(gc: Collector)
      requires Valid()
      requires forall n :: !gc.isValueDead(Num(n))
      modifies this`arr, this`nodes, this`liveCount, this`contents
      ensures Valid() && contents == Survivors(old(contents), gc)
      ensures forall k | k in old(contents) ::
                k in contents <==> !(gc.weakKeys && gc.isValueDead(k))
                                   && !(gc.weakValues && gc.isWeakValueDead(old(contents)[k]))
      ensures forall k | k in contents :: k in old(contents) && contents[k] == old(contents)[k]
      ensures Stable(old(View(arr, nodes)), View(arr, nodes))
      ensures old(NoHiddenKeys(arr, contents)) ==> NoHiddenKeys(arr, contents)
    {
      if !gc.weakKeys && !gc.weakValues {
        NothingWeak(contents, gc);
        return;
      }
      var slots := arr;
      if gc.weakValues {
        slots := SweepArray(arr, gc);
      }
      SweepEntries(slots, gc);
    }

    /** The rest of the sweep, once the array slots to keep are known. */
    method SweepEntries(slots: seq<Value>, gc: Collector)
      requires Valid() && SweptSlots(arr, slots, gc)
      requires forall n :: !gc.isValueDead(Num(n))
      modifies this`arr, this`nodes, this`liveCount, this`contents
      ensures Valid() && contents == Survivors(old(contents), gc)
      ensures Stable(old(View(arr, nodes)), View(arr, nodes))
      ensures old(NoHiddenKeys(arr, contents)) ==> NoHiddenKeys(arr, contents)
    {
      SweptContents(arr, nodes, contents, slots, gc);
      SweptHidesNothing(arr, nodes, contents, slots, gc);
      FewerKeys(flags, contents, Survivors(contents, gc));
      contents := Survivors(contents, gc);
      arr := slots;
      SweepNodes(gc);
    }

    method SweepNodes(gc: Collector)
      requires HashValid()
      modifies this`nodes, this`liveCount
      ensures HashValid() && liveCount <= old(liveCount)
      ensures nodes == SweptNodes(old(nodes), gc)
      ensures EachDiesOrStays(old(nodes), nodes, gc)
    {
      SweptNothing(nodes, gc);
      for i := 0 to |nodes|
        invariant HashValid() && liveCount <= old(liveCount)
        invariant |nodes| == |old(nodes)| && nodes == SweptUpTo(old(nodes), i, gc)
      {
        SweepNext(old(nodes), i, gc);
      }
      SweptAll(nodes, old(nodes), gc);
      SweepDecides(old(nodes), gc);
    }

    method SweepNext(ghost before: seq<HashNode>, i: nat, gc: Collector)
      requires HashValid() && i < |nodes| == |before| && nodes == SweptUpTo(before, i, gc)
      modifies this`nodes, this`liveCount
      ensures HashValid() && liveCount <= old(liveCount)
      ensures |nodes| == |before| && nodes == SweptUpTo(before, i + 1, gc)
    {
      SweptOneMore(before, i, gc);
      SweepNode(i, gc);
    }

    method SweepNode(i: nat, gc: Collector)
      requires HashValid() && i < |nodes|
      modifies this`nodes, this`liveCount
      ensures HashValid() && liveCount <= old(liveCount)
      ensures nodes == old(nodes)[i := SweptNode(old(nodes)[i], gc)]
      ensures DiesOrStays(old(nodes)[i], nodes[i], gc)
    {
      if !nodes[i].state.Live? {
        return;
      }
      var removeEntry := false;
      if gc.weakKeys && gc.isValueDead(nodes[i].key) {
        removeEntry := true;
      }
      if gc.weakValues && gc.isWeakValueDead(nodes[i].value) {
        removeEntry := true;
      }
      if removeEntry {
        KillNode(i);
      }
    }
  }
}
