/**
 * luaL_ref and luaL_unref, src/api/lapi.cpp:1942-1980: integer references to values, with
 * the free ones on a list threaded through the table from slot 0.
 */
module References {
  import opened LuaValue
  import opened HashNodes
  import opened TableContents
  import opened LuaTable

  const REFNIL: int := -1

  datatype RefResult = Reference(r: int) | RefError

  /** Slot 0 and the slots of the free list, up to the nil that ends it. */
  ghost predicate FreeListFrom(m: Contents, slot: nat, free: seq<nat>)
    decreases |free|
  {
    if free == [] then IntKey(slot) !in m
    else Lookup(m, IntKey(slot)) == IntKey(free[0]) && FreeListFrom(m, free[0], free[1..])
  }

  ghost predicate Distinct(s: seq<nat>) {
    forall i, j | 0 <= i < j < |s| :: s[i] != s[j]
  }

  /** `live` maps each reference handed out to its value. */
  ghost predicate Sound(m: Contents, free: seq<nat>, live: map<nat, Value>) {
    && FreeListFrom(m, 0, free) && Distinct(free)
    && (forall r | r in free :: 1 <= r <= I32_MAX && r !in live)
    && (forall r | r in live :: 1 <= r <= I32_MAX && live[r] != Nil && Lookup(m, IntKey(r)) == live[r])
    && (forall k: nat | k >= 1 && IntKey(k) in m :: k in live || k in free)
  }

  /** Every slot up to `top` is a reference, in use or free. */
  ghost predicate Dense(free: seq<nat>, live: map<nat, Value>, top: nat) {
    forall k: nat :: 1 <= k <= top <==> k in live || k in free
  }

  /** Assigning a slot that is not on the list leaves the list. */
  lemma {:induction false} FreeListKept(m: Contents, slot: nat, free: seq<nat>, k: Value, v: Value)
    requires FreeListFrom(m, slot, free)
    requires k != IntKey(slot) && forall r | r in free :: k != IntKey(r)
    ensures FreeListFrom(Assign(m, k, v), slot, free)
    decreases |free|
  {
    if free != [] {
      FreeListKept(m, free[0], free[1..], k, v);
    }
  }

  // --------------------------------------------- what a border is good for

  function IntKeysUpTo(n: nat): set<Value> {
    set k: nat | 1 <= k <= n :: IntKey(k)
  }

  lemma {:induction false} CountIntKeys(n: nat)
    ensures |IntKeysUpTo(n)| == n
  {
    if n > 0 {
      CountIntKeys(n - 1);
      assert IntKeysUpTo(n) == IntKeysUpTo(n - 1) + {IntKey(n)};
    }
  }

  lemma SubsetSize<T>(a: set<T>, b: set<T>)
    requires a <= b
    ensures |a| <= |b|
  {
    assert b == a + (b - a);
  }

  /** Under the table limits a dense reference table keeps clear of the keys `length` gives up on. */
  lemma DenseIsNotHuge(m: Contents, free: seq<nat>, live: map<nat, Value>, top: nat, limit: nat)
    requires Sound(m, free, live) && Dense(free, live, top)
    requires |m| <= limit < I32_MAX / 2
    ensures NoHugeKeys(m) && top <= limit + 1
  {
    var last: nat := if free == [] then 0 else free[|free| - 1];
    ListedSlots(m, 0, free);
    var all := IntKeysUpTo(top);
    CountIntKeys(top);
    forall v | v in all - {IntKey(last)} ensures v in m.Keys {
      var k: nat :| 1 <= k <= top && v == IntKey(k);
      if k in free {
        var i :| 0 <= i < |free| && free[i] == k;
      }
    }
    SubsetSize(all - {IntKey(last)}, m.Keys);
    forall k | IntKey(k) in m ensures k <= I32_MAX / 2 {
      if k >= 1 {
        var n: nat := k;
        assert n in live || n in free;
      }
    }
  }

  /** Every free slot but the last one holds something. */
  lemma {:induction false} ListedSlots(m: Contents, slot: nat, free: seq<nat>)
    requires FreeListFrom(m, slot, free)
    ensures forall i | 0 <= i < |free| - 1 :: IntKey(free[i]) in m
    decreases |free|
  {
    if |free| > 1 {
      ListedSlots(m, free[0], free[1..]);
      forall i | 0 <= i < |free| - 1 ensures IntKey(free[i]) in m {
        if i > 0 {
          assert free[1..][i - 1] == free[i];
        }
      }
    }
  }

  /** `checkedLuaInteger(lua_tonumber(...), Exact)`, and 0 for what is no positive int. */
  function ToReference(v: Value): nat {
    if IsArrayKey(v) then v.n.i else 0
  }

  // -------------------------------------------- one call, on the map alone

  /** The list that started at slot r starts at slot 0 once r's content is copied there. */
  lemma ListRestarts(m: Contents, r: nat, rest: seq<nat>)
    requires FreeListFrom(m, r, rest) && r > 0 && 0 !in rest
    ensures FreeListFrom(Assign(m, IntKey(0), Lookup(m, IntKey(r))), 0, rest)
  {
    if rest != [] {
      FreeListKept(m, rest[0], rest[1..], IntKey(0), Lookup(m, IntKey(r)));
    }
  }

  /** `t[0] = t[r]` takes the first free slot r off the list; should the table then refuse
      the value, r is neither in use nor free. */
  lemma Unlink(m: Contents, free: seq<nat>, live: map<nat, Value>)
    requires Sound(m, free, live) && free != []
    ensures var m1 := Assign(m, IntKey(0), Lookup(m, IntKey(free[0])));
            && FreeListFrom(m1, 0, free[1..])
            && (IntKey(free[0]) !in m ==> Sound(m1, free[1..], live))
  {
    assert free == [free[0]] + free[1..];
    ListRestarts(m, free[0], free[1..]);
  }

  /** ... and `t[r] = v` puts it to use. */
  lemma TakeFree(m: Contents, free: seq<nat>, live: map<nat, Value>, v: Value)
    requires Sound(m, free, live) && free != [] && v != Nil
    ensures var r := free[0];
            Sound(Assign(Assign(m, IntKey(0), Lookup(m, IntKey(r))), IntKey(r), v), free[1..], live[r := v])
  {
    var r := free[0];
    var m1 := Assign(m, IntKey(0), Lookup(m, IntKey(r)));
    Unlink(m, free, live);
    FreeListKept(m1, 0, free[1..], IntKey(r), v);
    assert free == [r] + free[1..];
  }

  /** `t[r] = t[0]` makes slot r, which is not free, the head of the list that hung on slot 0;
      should the table then refuse `t[0] = r`, which it can only if there was no list, r is
      not in use. */
  lemma Unhand(m: Contents, free: seq<nat>, live: map<nat, Value>, r: nat)
    requires Sound(m, free, live) && 0 < r <= I32_MAX && r !in free
    ensures var m1 := Assign(m, IntKey(r), Lookup(m, IntKey(0)));
            && FreeListFrom(m1, r, free)
            && (IntKey(0) !in m ==> Sound(m1, free, live - {r}))
  {
    if free != [] {
      FreeListKept(m, free[0], free[1..], IntKey(r), Lookup(m, IntKey(0)));
    }
  }

  /** The two writes of luaL_unref. */
  function Released(m: Contents, r: nat): Contents {
    Assign(Assign(m, IntKey(r), Lookup(m, IntKey(0))), IntKey(0), IntKey(r))
  }

  /** ... and `t[0] = r` puts it in front of the list. */
  lemma PutBack(m: Contents, free: seq<nat>, live: map<nat, Value>, r: nat)
    requires Sound(m, free, live) && 0 < r <= I32_MAX && r !in free
    ensures Sound(Released(m, r), [r] + free, live - {r})
  {
    var m1 := Assign(m, IntKey(r), Lookup(m, IntKey(0)));
    Unhand(m, free, live, r);
    FreeListKept(m1, r, free, IntKey(0), IntKey(r));
    assert ([r] + free)[1..] == free && FreeListFrom(Released(m, r), r, free);
  }

  // --------------------------------------------------- releasing what is free

  ghost predicate HasFreeList(m: Contents) {
    exists list :: FreeListFrom(m, 0, list)
  }

  ghost predicate LeadsInto(m: Contents, cycle: set<nat>, slot: nat) {
    exists next: nat | next in cycle :: Lookup(m, IntKey(slot)) == IntKey(next)
  }

  /** No list that runs into a cycle ends. */
  lemma {:induction false} NoEndFrom(m: Contents, cycle: set<nat>, slot: nat, free: seq<nat>)
    requires LeadsInto(m, cycle, slot) && forall s | s in cycle :: LeadsInto(m, cycle, s)
    ensures !FreeListFrom(m, slot, free)
    decreases |free|
  {
    var next: nat :| next in cycle && Lookup(m, IntKey(slot)) == IntKey(next);
    if free != [] && free[0] == next {
      NoEndFrom(m, cycle, next, free[1..]);
    }
  }

  /** Each free slot holds the next one. */
  lemma {:induction false} FreeListStep(m: Contents, slot: nat, free: seq<nat>, j: nat)
    requires FreeListFrom(m, slot, free) && j < |free|
    ensures Lookup(m, IntKey(if j == 0 then slot else free[j - 1])) == IntKey(free[j])
    decreases j
  {
    if j > 0 {
      FreeListStep(m, free[0], free[1..], j - 1);
    }
  }

  /** Releasing a slot that is free already, or slot 0, closes the list into a cycle. */
  lemma ReleasingFreeMakesCycle(m: Contents, free: seq<nat>, live: map<nat, Value>, r: nat, list: seq<nat>)
    requires Sound(m, free, live) && (r == 0 || r in free)
    ensures !FreeListFrom(Released(m, r), 0, list)
  {
    var m2 := Released(m, r);
    if r == 0 {
      assert Lookup(m2, IntKey(0)) == IntKey(0);
      assert LeadsInto(m2, {0}, 0);
      NoEndFrom(m2, {0}, 0, list);
    } else {
      var i :| 0 <= i < |free| && free[i] == r;
      var cycle := set j | 0 <= j <= i :: free[j];
      FreeListStep(m, 0, free, 0);
      assert Lookup(m2, IntKey(r)) == IntKey(free[0]) && free[0] in cycle;
      assert Lookup(m2, IntKey(0)) == IntKey(r) && r in cycle;
      forall s | s in cycle ensures LeadsInto(m2, cycle, s) {
        var j :| 0 <= j <= i && free[j] == s;
        if j < i {
          FreeListStep(m, 0, free, j + 1);
          assert Lookup(m2, IntKey(s)) == IntKey(free[j + 1]) && free[j + 1] in cycle;
        }
      }
      NoEndFrom(m2, cycle, 0, list);
    }
  }

  /** A release leaves a free list exactly if what it releases is a positive number that is not
      free already. */
  lemma ReleaseKeepsListIff(m: Contents, free: seq<nat>, live: map<nat, Value>, r: nat)
    requires Sound(m, free, live) && r <= I32_MAX
    ensures HasFreeList(Released(m, r)) <==> r > 0 && r !in free
  {
    if r > 0 && r !in free {
      PutBack(m, free, live, r);
      assert FreeListFrom(Released(m, r), 0, [r] + free);
    } else {
      forall list ensures !FreeListFrom(Released(m, r), 0, list) {
        ReleasingFreeMakesCycle(m, free, live, r, list);
      }
    }
  }

  /** A reference released twice in a row is then handed out twice in a row. */
  lemma TwiceReleasedIsTwiceHandedOut(m: Contents, r: nat, v: Value)
    requires 0 < r <= I32_MAX && v != Nil
    ensures var m2 := Released(Released(m, r), r);
            var m3 := Assign(Assign(m2, IntKey(0), Lookup(m2, IntKey(r))), IntKey(r), v);
            ToReference(Lookup(m2, IntKey(0))) == r && ToReference(Lookup(m3, IntKey(0))) == r
  {
    var m1 := Released(m, r);
    assert Lookup(m1, IntKey(0)) == IntKey(r);
  }

  /** With no free slot, the slot behind n is in use exactly if it holds something ... */
  lemma InUseIfHeld(m: Contents, live: map<nat, Value>, n: nat)
    requires Sound(m, [], live)
    ensures n + 1 in live <==> IntKey(n + 1) in m
  {
    assert n + 1 in live ==> Lookup(m, IntKey(n + 1)) != Nil;
  }

  /** ... and either way a value can go there. */
  lemma StoreBehind(m: Contents, live: map<nat, Value>, n: nat, v: Value)
    requires Sound(m, [], live) && v != Nil && n < I32_MAX
    ensures Sound(Assign(m, IntKey(n + 1), v), [], live[n + 1 := v])
  {
  }

  /** Density under the two calls: with no free slot a new reference is the next number,
      for slots 1 to top are then all in use and top is the only border. */
  lemma DenseAcquire(m: Contents, free: seq<nat>, live: map<nat, Value>, top: nat, r: nat, v: Value)
    requires Sound(m, free, live) && Dense(free, live, top)
    requires if free == [] then r > 0 && IsBorder(m, r - 1) else r == free[0]
    ensures free == [] ==> r == top + 1 && Dense([], live[r := v], top + 1)
    ensures free != [] ==> Dense(free[1..], live[r := v], top)
  {
    if free == [] {
      assert r > 1 ==> r - 1 in live;
      assert r in live || r !in live;
    } else {
      assert free == [r] + free[1..];
      forall k: nat ensures 1 <= k <= top <==> k in live[r := v] || k in free[1..] {
        assert k in free <==> k == r || k in free[1..];
      }
    }
  }

  lemma DenseRelease(free: seq<nat>, live: map<nat, Value>, top: nat, r: nat)
    requires Dense(free, live, top) && r in live
    ensures Dense([r] + free, live - {r}, top)
  {
  }

  class ReferenceTable {
    const table: Table

    ghost var free: seq<nat>
    ghost var live: map<nat, Value>

    ghost predicate Valid()
      reads this, table
    {
      && table.Valid()
      && NoHiddenKeys(table.arr, table.contents)
      && Sound(table.contents, free, live)
    }

    constructor (table: Table)
      requires table.Valid() && NoHiddenKeys(table.arr, table.contents)
      requires forall k: nat :: IntKey(k) !in table.contents
      ensures Valid() && free == [] && live == map[] && Dense(free, live, 0) && this.table == table
    {
      this.table := table;
      free, live := [], map[];
    }

    /** luaL_ref, for the value on top of the stack. The reference is a new one exactly if
        there is a free slot or `length` finds a border. */
    method Ref(value: Value) returns (result: RefResult)
      requires Valid()
      modifies this, table
      ensures Valid()
      ensures value == Nil ==> result == Reference(REFNIL) && live == old(live) && free == old(free)
      ensures result.RefError? ==> live == old(live) && (table.AtLimit() || IntKey(I32_MAX) in old(table.contents))
      ensures result.Reference? && value != Nil ==>
                && result.r > 0 && live == old(live)[result.r := value]
                && free == (if old(free) == [] then [] else old(free)[1..])
                && (old(free) != [] ==> result.r == old(free)[0])
                && (result.r !in old(live) <==> old(free) != [] || !old(MissesBorder(table.arr, table.contents)))
                && (result.r !in old(live) && old(free) == [] ==> IsBorder(old(table.contents), result.r - 1))
    {
      if value == Nil {
        return Reference(REFNIL);
      }
      var first := table.Get(IntKey(0));
      var reference := ToReference(first);
      if reference != 0 {
        result := Recycle(reference, value);
      } else {
        var length := SlotToAppend();
        if length >= I32_MAX {
          return RefError;
        }
        result := StoreNew(length + 1, value);
      }
    }

    /** Takes the first slot off the free list. */
    method Recycle(reference: nat, value: Value) returns (result: RefResult)
      requires Valid() && value != Nil && free != [] && reference == free[0]
      modifies this, table
      ensures Valid()
      ensures if result.RefError? then live == old(live) && table.AtLimit()
              else result.r == reference && live == old(live)[reference := value] && free == old(free)[1..]
    {
      var next := table.Get(IntKey(reference));
      Unlink(table.contents, free, live);
      TakeFree(table.contents, free, live, value);
      var moved := table.Set(IntKey(0), next);
      free := free[1..];
      var stored := table.Set(IntKey(reference), value);
      if stored.Failed? {
        return RefError;
      }
      live := live[reference := value];
      return Reference(reference);
    }

    /** `length`: it is no border exactly if the slot behind it is in use. */
    method SlotToAppend() returns (n: nat)
      requires Valid() && free == []
      ensures n >= I32_MAX ==> IntKey(I32_MAX) in table.contents
      ensures n < I32_MAX ==>
                && (n + 1 !in live <==> !MissesBorder(table.arr, table.contents))
                && (n + 1 !in live ==> IsBorder(table.contents, n))
    {
      n := table.Length();
      if n < I32_MAX {
        InUseIfHeld(table.contents, live, n);
      }
    }

    method StoreNew(slot: nat, value: Value) returns (result: RefResult)
      requires Valid() && value != Nil && free == [] && 0 < slot <= I32_MAX
      modifies this, table
      ensures Valid() && free == []
      ensures if result.RefError? then live == old(live) && table.AtLimit()
              else result.r == slot && live == old(live)[slot := value]
    {
      StoreBehind(table.contents, live, slot - 1, value);
      var stored := table.Set(IntKey(slot), value);
      if stored.Failed? {
        return RefError;
      }
      live := live[slot := value];
      return Reference(slot);
    }

    /** luaL_unref. A positive number that is not free leaves one more free slot; another one
        breaks the list, as `ReleaseKeepsListIff` says. */
    method Unref(reference: int) returns (ok: bool)
      requires Valid() && reference <= I32_MAX
      modifies this, table
      ensures reference < 0 ==> ok && Valid() && live == old(live) && free == old(free)
      ensures reference >= 0 && ok ==> table.Valid() && table.contents == Released(old(table.contents), reference)
      ensures reference > 0 && reference !in old(free) && ok ==>
                Valid() && live == old(live) - {reference} && free == [reference] + old(free)
      ensures !ok ==> Valid() && live == old(live) - {reference} && free == old(free) && table.AtLimit()
    {
      if reference < 0 {
        return true;
      }
      ghost var good := reference > 0 && reference !in free;
      if good {
        Unhand(table.contents, free, live, reference);
        PutBack(table.contents, free, live, reference);
      }
      ok := Link(reference, good);
      if good || !ok {
        live := live - {reference};
      }
      if good && ok {
        free := [reference] + free;
      }
    }

    /** The two writes; if the second is refused, the first has changed nothing that counts. */
    method Link(reference: nat, ghost good: bool) returns (ok: bool)
      requires Valid() && reference <= I32_MAX && (good <==> reference > 0 && reference !in free)
      requires good ==> IntKey(0) !in table.contents ==>
                 Sound(Assign(table.contents, IntKey(reference), Lookup(table.contents, IntKey(0))), free, live - {reference})
      modifies table
      ensures table.Valid() && NoHiddenKeys(table.arr, table.contents)
      ensures ok ==> table.contents == Released(old(table.contents), reference)
      ensures !ok ==> table.AtLimit() && Sound(table.contents, free, live - {reference})
    {
      NotLiveIfNotThere(table.contents, free, live, reference);
      var first := table.Get(IntKey(0));
      var linked := table.Set(IntKey(reference), first);
      if linked.Failed? {
        return false;
      }
      var headed := table.Set(IntKey(0), IntKey(reference));
      ok := headed.Done?;
    }
  }

  /** A slot whose write can be refused, because it holds nothing, is not in use. */
  lemma NotLiveIfNotThere(m: Contents, free: seq<nat>, live: map<nat, Value>, r: nat)
    requires Sound(m, free, live)
    ensures IntKey(r) !in m ==> r !in live && live - {r} == live
    ensures r == 0 ==> r !in live && live - {r} == live && Assign(m, IntKey(0), Lookup(m, IntKey(0))) == m
    ensures r in free ==> IntKey(0) in m && r !in live && live - {r} == live
  {
    if r in free {
      FreeListStep(m, 0, free, 0);
    }
  }

  /** A luaL_ref on packed references. */
  method AcquireOne(rt: ReferenceTable, value: Value, ghost top: nat) returns (result: RefResult, ghost newTop: nat)
    requires rt.Valid() && Dense(rt.free, rt.live, top)
    requires rt.table.maxArraySlots + rt.table.maxHashEntries < I32_MAX / 2
    modifies rt, rt.table
    ensures rt.Valid()
    ensures result.RefError? ==> rt.live == old(rt.live) && value != Nil && rt.table.AtLimit()
    ensures result.Reference? ==> Dense(rt.free, rt.live, newTop)
    ensures result.Reference? ==> if value == Nil then result.r == REFNIL && rt.live == old(rt.live)
                                  else result.r > 0 && result.r !in old(rt.live) && rt.live == old(rt.live)[result.r := value]
  {
    ContentsSize(rt.table.arr, rt.table.nodes, rt.table.contents);
    DenseIsNotHuge(rt.table.contents, rt.free, rt.live, top, rt.table.maxArraySlots + rt.table.maxHashEntries);
    NoHugeNoMiss(rt.table.arr, rt.table.contents);
    ghost var m, free, live := rt.table.contents, rt.free, rt.live;
    result := rt.Ref(value);
    newTop := top;
    if result.Reference? && value != Nil {
      DenseAcquire(m, free, live, top, result.r, value);
      newTop := if free == [] then top + 1 else top;
    }
  }

  datatype RefOp = Acquire(value: Value) | Release(reference: int)

  datatype RefObservation = Handed(r: int) | Freed | Ignored | Refused

  /** What a call may do, given the references held: a value gets a reference that is not among
      them, nil the nil reference. A release of what is not held is not made. */
  predicate RefAllowed(held: map<int, Value>, op: RefOp, o: RefObservation) {
    match op
    case Acquire(value) =>
      if value == Nil then o == Handed(REFNIL) else o.Refused? || (o.Handed? && o.r >= 1 && o.r !in held)
    case Release(reference) =>
      if reference in held then o.Freed? || o.Refused? else o.Ignored?
  }

  function HeldAfter(held: map<int, Value>, op: RefOp, o: RefObservation): map<int, Value> {
    match op
    case Acquire(value) => if value != Nil && o.Handed? then held[o.r := value] else held
    case Release(reference) => held - {reference}
  }

  /** These calls, with these results, leave these references held. */
  ghost predicate RefsExplain(ops: seq<RefOp>, log: seq<RefObservation>, held: map<int, Value>) {
    |ops| == |log| &&
    if ops == [] then held == map[]
    else
      var last := |ops| - 1;
      exists before :: RefsExplain(ops[..last], log[..last], before)
                       && RefAllowed(before, ops[last], log[last]) && held == HeldAfter(before, ops[last], log[last])
  }

  lemma RefsExplainOneMore(ops: seq<RefOp>, log: seq<RefObservation>, held: map<int, Value>, k: nat, o: RefObservation)
    requires k < |ops| && RefsExplain(ops[..k], log, held) && RefAllowed(held, ops[k], o)
    ensures RefsExplain(ops[..k + 1], log + [o], HeldAfter(held, ops[k], o))
  {
    assert ops[..k + 1][..k] == ops[..k] && (log + [o])[..k] == log;
  }

  /** Releases a reference in use. */
  method ReleaseOne(rt: ReferenceTable, reference: nat, ghost top: nat) returns (ok: bool)
    requires rt.Valid() && Dense(rt.free, rt.live, top) && reference in rt.live
    modifies rt, rt.table
    ensures rt.Valid() && rt.live == old(rt.live) - {reference}
    ensures if ok then Dense(rt.free, rt.live, top) else rt.table.AtLimit()
  {
    DenseRelease(rt.free, rt.live, top, reference);
    ok := rt.Unref(reference);
  }

  /** Nothing was refused, or the last call and no other. */
  predicate StopsAtRefusal(log: seq<RefObservation>, complete: bool) {
    && (!complete ==> log != [] && log[|log| - 1].Refused?)
    && forall i | 0 <= i < |log| - (if complete then 0 else 1) :: !log[i].Refused?
  }

  lemma StopsOrGoesOn(log: seq<RefObservation>, o: RefObservation)
    requires StopsAtRefusal(log, true)
    ensures StopsAtRefusal(log + [o], !o.Refused?)
  {
  }

  ghost predicate Holds(rt: ReferenceTable, held: map<int, Value>)
    reads rt
  {
    (forall r :: r in held <==> r in rt.live) && forall r | r in held :: held[r] == rt.live[r]
  }

  /** One call, made if it is an acquisition or releases a reference in use. */
  method MakeCall(rt: ReferenceTable, op: RefOp, held: map<int, Value>, ghost top: nat)
    returns (o: RefObservation, newHeld: map<int, Value>, ghost newTop: nat)
    requires rt.Valid() && Dense(rt.free, rt.live, top) && Holds(rt, held)
    requires rt.table.maxArraySlots + rt.table.maxHashEntries < I32_MAX / 2
    modifies rt, rt.table
    ensures rt.Valid() && RefAllowed(held, op, o) && newHeld == HeldAfter(held, op, o) && Holds(rt, newHeld)
    ensures if o.Refused? then rt.table.AtLimit() else Dense(rt.free, rt.live, newTop)
  {
    newHeld, newTop := held, top;
    match op
    case Acquire(value) =>
      var result: RefResult;
      result, newTop := AcquireOne(rt, value, top);
      o := if result.RefError? then Refused else Handed(result.r);
      if o.Handed? && value != Nil {
        newHeld := held[result.r := value];
      }
    case Release(reference) =>
      o := Ignored;
      newHeld := held - {reference};
      if reference in held {
        var ok := ReleaseOne(rt, reference, top);
        o := if ok then Freed else Refused;
      }
  }

  /** Any run of acquisitions and of releases of references in use, up to the end or to the
      first call that the limits of the table refuse: no reference is handed out while it is
      held, those held are exactly those handed out and not released, each reads back its own
      value, and as long as nothing was refused, the references held and the free ones are
      together the numbers from 1 to some top. */
  method RunReferences(rt: ReferenceTable, ops: seq<RefOp>)
    returns (log: seq<RefObservation>, held: map<int, Value>, complete: bool, ghost top: nat)
    requires rt.Valid() && rt.live == map[] && Dense(rt.free, rt.live, 0)
    requires rt.table.maxArraySlots + rt.table.maxHashEntries < I32_MAX / 2
    modifies rt, rt.table
    ensures rt.Valid()
    ensures |log| <= |ops| && RefsExplain(ops[..|log|], log, held)
    ensures Holds(rt, held)
    ensures forall r | r in held :: r >= 1 && Lookup(rt.table.contents, IntKey(r)) == held[r] != Nil
    ensures StopsAtRefusal(log, complete)
    ensures if complete then |log| == |ops| && Dense(rt.free, rt.live, top) else rt.table.AtLimit()
  {
    log, held, complete, top := [], map[], true, 0;
    while complete && |log| < |ops|
      invariant rt.Valid() && (complete ==> Dense(rt.free, rt.live, top))
      invariant |log| <= |ops| && RefsExplain(ops[..|log|], log, held)
      invariant Holds(rt, held)
      invariant StopsAtRefusal(log, complete) && (!complete ==> rt.table.AtLimit())
      decreases |ops| - |log|, complete
    {
      var o: RefObservation;
      ghost var before, k := held, |log|;
      o, held, top := MakeCall(rt, ops[|log|], held, top);
      RefsExplainOneMore(ops, log, before, k, o);
      StopsOrGoesOn(log, o);
      log := log + [o];
      complete := !o.Refused?;
    }
  }
}
