/**
 * Any sequence of table operations, metamethod lookups and collections, compared with the
 * same sequence on a finite map.
 */
module TableRuns {
  import opened LuaValue
  import opened TableContents
  import opened LuaTable
  import opened Metatable

  datatype Op =
    | Set(key: Value, value: Value)
    | Remove(key: Value)
    | SetRange(first: int, values: seq<Value>)
    | Clear
    | Collect(gc: Collector)
    | Get(key: Value)
    | Has(key: Value)
    | LookupEvent(event: Event)

  datatype Limits = Limits(arraySlots: nat, hashEntries: nat)

  datatype Observation = Changed | Refused(error: TableError) | Got(value: Value) | Answered(b: bool)

  /** What the collector never reports dead, and the range of an i32. */
  ghost predicate WellFormed(op: Op) {
    match op
    case Collect(gc) => forall n :: !gc.isValueDead(Num(n))
    case SetRange(first, _) => first <= I32_MAX
    case _ => true
  }

  /** One operation on the finite map: the map afterwards, given what was observed. */
  function After(m: Contents, op: Op, o: Observation): Contents {
    if o.Refused? then m
    else match op
      case Set(k, v) => Assign(m, k, v)
      case Remove(k) => Assign(m, k, Nil)
      case SetRange(first, values) => if first >= 1 then AssignRange(m, first, values) else m
      case Clear => map[]
      case Collect(gc) => Survivors(m, gc)
      case _ => m
  }

  /** What may be observed. Only an assignment of a value is ever refused: to a nil or NaN key,
      to a new key once there are as many entries as nodes are allowed, or nodes enough for
      their array to outgrow a usize, and, exactly beyond the array limit, to a range. */
  predicate Allowed(m: Contents, lim: Limits, op: Op, o: Observation) {
    match op
    case Set(k, v) =>
      if !IsTableKey(k) then o == Refused(if k == Nil then IndexIsNil else IndexIsNaN)
      else o.Changed? || (v != Nil && k !in m && MayRefuseEntry(m, lim, o))
    case SetRange(first, values) =>
      o == if first >= 1 && values != [] && first - 1 + |values| > lim.arraySlots
           then Refused(if |values| > USIZE_MAX - (first - 1) then BadArrayLength else ArraySlotLimit) else Changed
    case Get(k) => o == Got(Lookup(m, k))
    case Has(k) => o == Answered(k in m)
    case LookupEvent(e) => o == Got(Lookup(m, EventName(e)))
    case _ => o.Changed?
  }

  predicate MayRefuseEntry(m: Contents, lim: Limits, o: Observation) {
    || (o == Refused(HashEntryLimit) && |m| >= lim.hashEntries)
    || (o == Refused(BadArrayLength) && 3 * (USIZE_MAX / 2) < 16 * lim.hashEntries)
  }

  /** The operations on a finite map, with these observations, lead from m to m'. */
  ghost predicate Explains(m: Contents, lim: Limits, ops: seq<Op>, log: seq<Observation>, m': Contents) {
    |ops| == |log| &&
    if ops == [] then m == m'
    else
      var last := |ops| - 1;
      exists mid :: Explains(m, lim, ops[..last], log[..last], mid)
                    && Allowed(mid, lim, ops[last], log[last]) && m' == After(mid, ops[last], log[last])
  }

  function LimitsOf(t: Table): Limits {
    Limits(t.maxArraySlots, t.maxHashEntries)
  }

  method Perform(t: Table, op: Op) returns (o: Observation)
    requires t.Valid() && WellFormed(op)
    modifies t
    ensures t.Valid()
    ensures Allowed(old(t.contents), LimitsOf(t), op, o) && t.contents == After(old(t.contents), op, o)
  {
    var r: Outcome := Done;
    LiveNodesHaveEntries(t.arr, t.nodes, t.hasher, t.contents);
    match op {
      case Set(k, v) =>
        r := t.Set(k, v);
      case Remove(k) =>
        t.Remove(k);
      case SetRange(first, values) =>
        r := t.SetArrayRange(first, values);
      case Clear =>
        t.Clear();
      case Collect(gc) =>
        t.RemoveWeakEntries(gc);
      case Get(k) =>
        var v := t.Get(k);
        return Got(v);
      case Has(k) =>
        var b := t.Has(k);
        return Answered(b);
      case LookupEvent(e) =>
        var v := GetMetamethod(t, e);
        return Got(v);
    }
    o := if r.Failed? then Refused(r.error) else Changed;
  }

  /** A table is a finite map, whatever is done to it: rehashing, migration between its two
      parts, refused insertions and the metamethod cache never show. */
  method RunTable(t: Table, ops: seq<Op>) returns (log: seq<Observation>)
    requires t.Valid() && forall op | op in ops :: WellFormed(op)
    modifies t
    ensures t.Valid() && Explains(old(t.contents), LimitsOf(t), ops, log, t.contents)
  {
    log := [];
    for i := 0 to |ops|
      invariant t.Valid() && Explains(old(t.contents), LimitsOf(t), ops[..i], log, t.contents)
    {
      ghost var mid := t.contents;
      var o := Perform(t, ops[i]);
      assert ops[..i + 1][..i] == ops[..i] && (log + [o])[..i] == log;
      log := log + [o];
    }
    assert ops[..|ops|] == ops;
  }
}
