/**
 * The loop `for k, v in next, t, nil do ... end` over a table that is not modified
 * meanwhile: lua_next as its callers use it, src/api/lapi.cpp:1715-1737.
 */
module Pairs {
  import opened LuaValue
  import opened HashNodes
  import opened TableContents
  import opened Traversal
  import opened TraversalTheorems
  import opened LuaTable
  import opened Assignments

  /** The occupied positions before p, in order. */
  ghost function Positions(t: View, p: nat): seq<nat>
    requires p <= Span(t)
  {
    if p == 0 then []
    else if Occupied(t, p - 1) then Positions(t, p - 1) + [p - 1]
    else Positions(t, p - 1)
  }

  lemma {:induction false} PositionsAscend(t: View, p: nat)
    requires p <= Span(t)
    ensures forall i | 0 <= i < |Positions(t, p)| :: Positions(t, p)[i] < p
    ensures forall i, j | 0 <= i < j < |Positions(t, p)| :: Positions(t, p)[i] < Positions(t, p)[j]
    ensures forall q | 0 <= q < p && Occupied(t, q) :: q in Positions(t, p)
  {
    if p > 0 {
      PositionsAscend(t, p - 1);
    }
  }

  lemma {:induction false} SkipEmptyPositions(t: View, p: nat, q: nat)
    requires p <= q <= Span(t)
    requires forall i | p <= i < q :: !Occupied(t, i)
    ensures Positions(t, q) == Positions(t, p)
    decreases q - p
  {
    if p < q {
      assert !Occupied(t, q - 1);
      assert Positions(t, q) == Positions(t, q - 1);
      SkipEmptyPositions(t, p, q - 1);
    }
  }

  predicate AreEntries(t: View, items: seq<(Value, Value)>, ps: seq<nat>) {
    |items| == |ps| && forall i | 0 <= i < |items| :: ps[i] < Span(t) && Occupied(t, ps[i]) && items[i] == (KeyAt(t, ps[i]), ValueAt(t, ps[i]))
  }

  lemma OneMoreEntry(t: View, items: seq<(Value, Value)>, ps: seq<nat>, p: nat)
    requires AreEntries(t, items, ps) && p < Span(t) && Occupied(t, p)
    ensures AreEntries(t, items + [(KeyAt(t, p), ValueAt(t, p))], ps + [p])
  {
  }

  /** Every entry of the table, exactly once. */
  method CollectPairs(t: Table) returns (items: seq<(Value, Value)>)
    requires t.Valid()
    ensures forall i, j | 0 <= i < j < |items| :: items[i].0 != items[j].0
    ensures forall i | 0 <= i < |items| :: items[i].0 in t.contents && t.contents[items[i].0] == items[i].1
    ensures forall k | k in t.contents :: (k, t.contents[k]) in items
  {
    ghost var view := View(t.arr, t.nodes);
    ghost var pos: nat := 0;
    items := [];
    var key := Nil;
    while true
      invariant pos <= Span(view) && ResumeAt(view, key) == Some(pos)
      invariant AreEntries(view, items, Positions(view, pos))
      decreases Span(view) - pos
    {
      var r := t.Next(key);
      ghost var q := FirstFrom(view, pos);
      SkipEmptyPositions(view, pos, q);
      if !r.Entry? {
        AllPairs(view, t.hasher, t.contents, items);
        return;
      }
      OneMoreEntry(view, items, Positions(view, q), q);
      items := items + [(r.key, r.value)];
      ResumesBehind(view, t.hasher, t.contents, q);
      key, pos := r.key, q + 1;
    }
  }

  lemma AllPairs(t: View, h: Hasher, m: Contents, items: seq<(Value, Value)>)
    requires IsTable(t, h, m) && AreEntries(t, items, Positions(t, Span(t)))
    ensures forall i, j | 0 <= i < j < |items| :: items[i].0 != items[j].0
    ensures forall i | 0 <= i < |items| :: items[i].0 in m && m[items[i].0] == items[i].1
    ensures forall k | k in m :: (k, m[k]) in items
  {
    var ps := Positions(t, Span(t));
    PositionsAreKeys(t, h, m);
    PositionsAscend(t, Span(t));
    forall i, j | 0 <= i < j < |items| ensures items[i].0 != items[j].0 {
      assert ps[i] < ps[j];
    }
    forall k | k in m ensures (k, m[k]) in items {
      var q :| 0 <= q < Span(t) && Occupied(t, q) && KeyAt(t, q) == k;
      var i :| 0 <= i < |ps| && ps[i] == q;
      assert items[i] == (k, m[k]);
    }
  }

  // ---------------------------------------------- with assignments in between

  /** What the body of the loop may do, a call of `next` included. */
  datatype Move = Advance | AssignExisting(key: Value, value: Value) | Sweep(gc: Collector)

  /** What a move does to the map. */
  function AfterMove(m: Contents, move: Move): Contents {
    match move
    case Advance => m
    case AssignExisting(key, value) => if key in m then Assign(m, key, value) else m
    case Sweep(gc) => Survivors(m, gc)
  }

  function AfterMoves(m: Contents, moves: seq<Move>): Contents {
    if moves == [] then m else AfterMove(AfterMoves(m, moves[..|moves| - 1]), moves[|moves| - 1])
  }

  function Calls(moves: seq<Move>): nat {
    if moves == [] then 0 else Calls(moves[..|moves| - 1]) + if moves[|moves| - 1].Advance? then 1 else 0
  }

  /** One move; an assignment is skipped if the field does not exist. */
  method MakeMove(t: Table, move: Move, cursor: Value, reported: seq<Value>)
    returns (newCursor: Value, newReported: seq<Value>, done: bool)
    requires t.Valid() && (move.Sweep? ==> forall n :: !move.gc.isValueDead(Num(n)))
    requires OnTrack(Moment(View(t.arr, t.nodes), cursor, reported, false), t.hasher, t.contents, t.maxArraySlots)
    modifies t
    ensures t.Valid() && t.contents == AfterMove(old(t.contents), move)
    ensures done ==> move.Advance?
    ensures newReported == if move.Advance? && !done then reported + [newCursor] else reported
    ensures move.Advance? && !done ==> newCursor in t.contents
    ensures OnTrack(Moment(View(t.arr, t.nodes), newCursor, newReported, done), t.hasher, t.contents, t.maxArraySlots)
  {
    newCursor, newReported, done := cursor, reported, false;
    ghost var s := Moment(View(t.arr, t.nodes), cursor, reported, false);
    ghost var m := t.contents;
    match move {
      case Advance =>
        var r := t.Next(cursor);
        PositionsAreKeys(View(t.arr, t.nodes), t.hasher, t.contents);
        if r.Entry? {
          newCursor, newReported := r.key, reported + [r.key];
        } else {
          done := true;
        }
      case AssignExisting(key, value) =>
        var exists' := t.Has(key);
        if !exists' {
          return;
        }
        ReadBack(t.arr, t.nodes, t.contents, key);
        var r := t.Set(key, value);
      case Sweep(gc) =>
        t.RemoveWeakEntries(gc);
    }
    StepStaysOnTrack(s, Moment(View(t.arr, t.nodes), newCursor, newReported, done), t.hasher, m, t.contents, t.maxArraySlots);
  }

  /** Any such loop over a steady table, up to the end of the script or of the traversal: the
      table ends up as the assignments say, each call but the last of a finished traversal
      reports another key, all of them fields of the table, and if the end is reached, every
      key that is then there has been reported. */
  method TraverseAssigning(t: Table, script: seq<Move>) returns (reported: seq<Value>, done: bool, made: nat)
    requires t.Valid() && Steady(View(t.arr, t.nodes), t.maxArraySlots)
    requires forall move | move in script && move.Sweep? :: forall n :: !move.gc.isValueDead(Num(n))
    modifies t
    ensures t.Valid() && made <= |script| && (!done ==> made == |script|)
    ensures t.contents == AfterMoves(old(t.contents), script[..made])
    ensures Calls(script[..made]) == |reported| + (if done then 1 else 0)
    ensures Distinct(reported) && forall k | k in reported :: k in old(t.contents)
    ensures done ==> forall k | k in t.contents :: k in reported
  {
    var cursor := Nil;
    reported, done, made := [], false, 0;
    StartsOnTrack(View(t.arr, t.nodes), t.hasher, t.contents, t.maxArraySlots);
    while made < |script| && !done
      invariant t.Valid() && made <= |script|
      invariant OnTrack(Moment(View(t.arr, t.nodes), cursor, reported, done), t.hasher, t.contents, t.maxArraySlots)
      invariant t.contents == AfterMoves(old(t.contents), script[..made])
      invariant t.contents.Keys <= old(t.contents).Keys && forall k | k in reported :: k in old(t.contents)
      invariant Calls(script[..made]) == |reported| + (if done then 1 else 0)
    {
      assert script[made] in script;
      assert script[..made + 1][..made] == script[..made];
      cursor, reported, done := MakeMove(t, script[made], cursor, reported);
      made := made + 1;
    }
    PositionsAreKeys(View(t.arr, t.nodes), t.hasher, t.contents);
  }
}
