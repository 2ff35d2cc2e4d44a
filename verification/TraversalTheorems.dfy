/**
 * What `Table::next` guarantees to a loop that calls it: every entry once on a table left
 * alone, and exactly when also on a table whose existing entries are assigned or cleared
 * between the calls (Lua 5.1 Reference Manual, section 5.1, `next`).
 */
module TraversalTheorems {
  import opened LuaValue
  import opened HashNodes
  import opened TableContents
  import opened Traversal

  /** A view of a valid table. */
  ghost predicate IsTable(t: View, h: Hasher, m: Contents) {
    ProbeOk(t.nodes, h) && Represents(t.arr, t.nodes, m) && |t.arr| <= I32_MAX
  }

  /** A key just returned resumes the scan right behind its entry, also an integer key that
      sits in the hash part under a nil array slot, and an array key with a stale Dead node. */
  lemma ResumesBehind(t: View, h: Hasher, m: Contents, p: nat)
    requires IsTable(t, h, m) && p < Span(t) && Occupied(t, p)
    ensures ResumeAt(t, KeyAt(t, p)) == Some(p + 1)
  {
    if p >= |t.arr| {
      var i := p - |t.arr|;
      var key := t.nodes[i].key;
      assert NodeOk(t.nodes, h, i) && NodeHeld(t.arr, t.nodes, m, i);
      assert NodeFor(t.nodes, key, true, i);
      OneNode(t.nodes, h, key, i);
    }
  }

  /** Distinct occupied positions carry distinct keys, and every key of the map has one. */
  lemma PositionsAreKeys(t: View, h: Hasher, m: Contents)
    requires IsTable(t, h, m)
    ensures forall p, q | 0 <= p < Span(t) && 0 <= q < Span(t) ::
              Occupied(t, p) && Occupied(t, q) && KeyAt(t, p) == KeyAt(t, q) ==> p == q
    ensures forall p | 0 <= p < Span(t) :: Occupied(t, p) ==> KeyAt(t, p) in m && m[KeyAt(t, p)] == ValueAt(t, p)
    ensures forall k | k in m :: exists p | 0 <= p < Span(t) :: Occupied(t, p) && KeyAt(t, p) == k
  {
    forall p, q | 0 <= p < Span(t) && 0 <= q < Span(t) && Occupied(t, p) && Occupied(t, q)
                  && KeyAt(t, p) == KeyAt(t, q)
      ensures p == q
    {
      ResumesBehind(t, h, m, p);
      ResumesBehind(t, h, m, q);
    }
    forall p | 0 <= p < Span(t) && Occupied(t, p) ensures KeyAt(t, p) in m && m[KeyAt(t, p)] == ValueAt(t, p) {
      if p < |t.arr| {
        assert SlotHeld(t.arr, m, p);
      } else {
        assert NodeHeld(t.arr, t.nodes, m, p - |t.arr|);
      }
    }
    forall k | k in m ensures exists p | 0 <= p < Span(t) :: Occupied(t, p) && KeyAt(t, p) == k {
      ReadBack(t.arr, t.nodes, m, k);
      if InArray(t.arr, k) {
        assert k == IntKey(k.n.i) && Occupied(t, k.n.i - 1) && KeyAt(t, k.n.i - 1) == k;
      } else {
        var i :| 0 <= i < |t.nodes| && NodeFor(t.nodes, k, false, i);
        assert Occupied(t, |t.arr| + i) && KeyAt(t, |t.arr| + i) == k;
      }
    }
  }

  // -------------------------------------------------- runs with modification

  /** A traversal: `ps[i]` is the position the call number i of `next` reports in table
      state `ts[i]`, given the key of the position before; the state may have changed since. */
  ghost predicate Run(ts: seq<View>, ps: seq<nat>) {
    && |ts| == |ps| && |ps| > 0
    && ps[0] == FirstFrom(ts[0], 0)
    && (forall i | 0 < i < |ps| :: Step(ts[i - 1], ps[i - 1], ts[i], ps[i]))
  }

  ghost predicate Step(t: View, p: nat, t': View, p': nat) {
    && Stable(t, t') && p < Span(t)
    && ResumeAt(t', KeyAt(t, p)).Some?
    && p' == FirstFrom(t', ResumeAt(t', KeyAt(t, p)).value)
  }

  ghost predicate Complete(ts: seq<View>, ps: seq<nat>) {
    Run(ts, ps) && ps[|ps| - 1] == Span(ts[|ts| - 1])
  }

  /** `ts` and `ps` are a traversal that starts on t, `ms` the maps the states denote. */
  ghost predicate TraversalOf(t: View, h: Hasher, ts: seq<View>, ps: seq<nat>, ms: seq<Contents>) {
    && Run(ts, ps) && |ms| == |ts| && ts[0] == t
    && (forall i | 0 <= i < |ts| :: IsTable(ts[i], h, ms[i]))
  }

  /** An array entry p has an old node of the same key, and the scan would lose `q` if the
      entry were cleared while it is the current one: it would go on behind that node. */
  ghost predicate Trap(t: View, p: nat, q: nat) {
    && p < |t.arr| && t.arr[p] != Nil
    && HasNode(t.nodes, IntKey(p + 1), true)
    && p < q <= |t.arr| + NodeOf(t.nodes, IntKey(p + 1)) && q < Span(t) && Occupied(t, q)
  }

  ghost predicate Resumable(t: View) {
    forall p: nat, q: nat :: !Trap(t, p, q)
  }

  lemma OccupancyOnlyShrinks(t: View, t': View, q: nat)
    requires Stable(t, t') && q < Span(t)
    ensures Occupied(t', q) ==> Occupied(t, q)
  {
    assert q >= |t.arr| ==> StableNode(t.nodes[q - |t.arr|], t'.nodes[q - |t.arr|]);
  }

  lemma StaysResumable(t: View, t': View, h: Hasher, m: Contents)
    requires IsTable(t, h, m) && Stable(t, t') && Resumable(t)
    ensures Resumable(t')
  {
    forall p: nat, q: nat ensures !Trap(t', p, q) {
      SameNode(t.nodes, t'.nodes, h, IntKey(p + 1));
      if q < Span(t) {
        OccupancyOnlyShrinks(t, t', q);
      }
      assert !Trap(t, p, q);
    }
  }

  /** From a resumable state one step reports the first entry behind the current one. */
  lemma StepGoesOn(t: View, p: nat, t': View, h: Hasher, m: Contents)
    requires IsTable(t, h, m) && Stable(t, t') && Resumable(t)
    requires p < Span(t) && Occupied(t, p)
    ensures ResumeAt(t', KeyAt(t, p)).Some?
    ensures FirstFrom(t', ResumeAt(t', KeyAt(t, p)).value) == FirstFrom(t', p + 1)
  {
    var key := KeyAt(t, p);
    SameNode(t.nodes, t'.nodes, h, key);
    if p < |t.arr| {
      if t'.arr[p] == Nil && HasNode(t'.nodes, key, true) {
        var jump := |t.arr| + NodeOf(t.nodes, key) + 1;
        forall q | p < q < jump ensures !Occupied(t', q) {
          OccupancyOnlyShrinks(t, t', q);
          assert !Trap(t, p, q);
        }
        FirstFromIs(t', p + 1, FirstFrom(t', jump));
      }
    } else {
      var i := p - |t.arr|;
      assert NodeOk(t.nodes, h, i) && NodeHeld(t.arr, t.nodes, m, i) && NodeFor(t.nodes, key, true, i);
      OneNode(t.nodes, h, key, i);
    }
  }

  /** Whatever is left in the table up to position `last` has been reported. */
  predicate ReportedUpTo(t: View, ps: seq<nat>, last: nat) {
    forall q | 0 <= q <= last && q < Span(t) && Occupied(t, q) :: q in ps
  }

  /** Every entry up to `last` is among those reported, if every one before was. */
  lemma AllReportedSoFar(t: View, t': View, ps: seq<nat>, last: nat)
    requires Stable(t, t') && ps != []
    requires ReportedUpTo(t, ps, ps[|ps| - 1])
    requires forall q | ps[|ps| - 1] < q < last && q < Span(t') :: !Occupied(t', q)
    ensures ReportedUpTo(t', ps + [last], last)
  {
    forall q | 0 <= q <= last && q < Span(t') && Occupied(t', q) ensures q in ps + [last] {
      OccupancyOnlyShrinks(t, t', q);
      if q <= ps[|ps| - 1] {
        assert q in ps;
      }
    }
  }

  /** A call reports an entry of the table it is made on, or the end. */
  predicate Reports(t: View, p: nat) {
    p == Span(t) || (p < Span(t) && Occupied(t, p))
  }

  predicate Ascending(ps: seq<nat>) {
    forall i, j | 0 <= i < j < |ps| :: ps[i] < ps[j]
  }

  predicate AllReport(ts: seq<View>, ps: seq<nat>) {
    |ts| == |ps| && forall i | 0 <= i < |ps| :: Reports(ts[i], ps[i])
  }

  lemma AllReportExtends(ts: seq<View>, ps: seq<nat>, t: View, p: nat)
    requires AllReport(ts, ps) && Reports(t, p)
    ensures AllReport(ts + [t], ps + [p])
  {
  }

  lemma AscendingExtends(ps: seq<nat>, p: nat)
    requires Ascending(ps) && ps != [] && ps[|ps| - 1] < p
    ensures Ascending(ps + [p])
  {
  }

  /** Completeness: a traversal of a table that starts resumable, with existing entries
      assigned or cleared at will between the calls, visits strictly forward, so nothing
      twice; each visit finds an entry that is there; and nothing that survives is missed. */
  lemma {:induction false} TraversalUnderModification(t: View, h: Hasher, ts: seq<View>, ps: seq<nat>, ms: seq<Contents>)
    requires TraversalOf(t, h, ts, ps, ms) && Resumable(t)
    ensures Ascending(ps) && AllReport(ts, ps)
    ensures ReportedUpTo(ts[|ts| - 1], ps, ps[|ps| - 1])
    ensures Resumable(ts[|ts| - 1])
    decreases |ps|
  {
    var n := |ps| - 1;
    if n > 0 {
      var ts', ps', ms' := ts[..n], ps[..n], ms[..n];
      TraversalPrefix(t, h, ts, ps, ms);
      TraversalUnderModification(t, h, ts', ps', ms');
      StepReports(ts[n - 1], ps', ts[n], ps[n], h, ms[n - 1]);
      OneMoreReport(ts, ps);
    }
  }

  lemma OneMoreReport(ts: seq<View>, ps: seq<nat>)
    requires |ts| == |ps| > 1
    requires var n := |ps| - 1;
             && Ascending(ps[..n]) && AllReport(ts[..n], ps[..n])
             && ps[n - 1] < ps[n] && Reports(ts[n], ps[n]) && ReportedUpTo(ts[n], ps[..n] + [ps[n]], ps[n])
    ensures Ascending(ps) && AllReport(ts, ps) && ReportedUpTo(ts[|ts| - 1], ps, ps[|ps| - 1])
  {
    var n := |ps| - 1;
    AscendingExtends(ps[..n], ps[n]);
    AllReportExtends(ts[..n], ps[..n], ts[n], ps[n]);
    assert ps == ps[..n] + [ps[n]] && ts == ts[..n] + [ts[n]];
  }

  lemma TraversalPrefix(t: View, h: Hasher, ts: seq<View>, ps: seq<nat>, ms: seq<Contents>)
    requires TraversalOf(t, h, ts, ps, ms) && |ps| > 1
    ensures var n := |ps| - 1;
            && TraversalOf(t, h, ts[..n], ps[..n], ms[..n])
            && Step(ts[n - 1], ps[n - 1], ts[n], ps[n]) && IsTable(ts[n - 1], h, ms[n - 1])
  {
    var ts', ps' := ts[..|ps| - 1], ps[..|ps| - 1];
    forall i | 0 < i < |ps'| ensures Step(ts'[i - 1], ps'[i - 1], ts'[i], ps'[i]) {
      assert Step(ts[i - 1], ps[i - 1], ts[i], ps[i]);
    }
  }

  lemma StepReports(t: View, ps: seq<nat>, t': View, p: nat, h: Hasher, m: Contents)
    requires IsTable(t, h, m) && Resumable(t) && ps != []
    requires Reports(t, ps[|ps| - 1]) && Step(t, ps[|ps| - 1], t', p)
    requires ReportedUpTo(t, ps, ps[|ps| - 1])
    ensures ps[|ps| - 1] < p && Reports(t', p) && ReportedUpTo(t', ps + [p], p) && Resumable(t')
  {
    StepGoesOn(t, ps[|ps| - 1], t', h, m);
    StaysResumable(t, t', h, m);
    AllReportedSoFar(t, t', ps, p);
  }

  // ---------------------------------------------- the condition is necessary

  ghost predicate Misses(ts: seq<View>, ps: seq<nat>, q: nat)
    requires |ts| > 0
  {
    q < Span(ts[|ts| - 1]) && Occupied(ts[|ts| - 1], q) && q !in ps
  }

  ghost predicate NothingMissed(t: View, h: Hasher) {
    forall ts, ps, ms | TraversalOf(t, h, ts, ps, ms) && Complete(ts, ps) ::
      forall q: nat :: !Misses(ts, ps, q)
  }

  lemma AppendStep(t0: View, h: Hasher, ts: seq<View>, ps: seq<nat>, ms: seq<Contents>, t: View, p: nat, m: Contents)
    requires TraversalOf(t0, h, ts, ps, ms) && IsTable(t, h, m)
    requires Step(ts[|ts| - 1], ps[|ps| - 1], t, p)
    ensures TraversalOf(t0, h, ts + [t], ps + [p], ms + [m])
  {
    var ts', ps' := ts + [t], ps + [p];
    forall i | 0 < i < |ps'| ensures Step(ts'[i - 1], ps'[i - 1], ts'[i], ps'[i]) {
      if i < |ps| {
        assert Step(ts[i - 1], ps[i - 1], ts[i], ps[i]);
      }
    }
  }

  /** Calls on the unmodified last state reach any of its entries ahead, and the end. */
  lemma RunTo(t: View, h: Hasher, m: Contents, t0: View, ts: seq<View>, ps: seq<nat>, ms: seq<Contents>, goal: nat)
    returns (ts': seq<View>, ps': seq<nat>, ms': seq<Contents>)
    requires TraversalOf(t0, h, ts, ps, ms)
    requires ts[|ts| - 1] == t && IsTable(t, h, m) && ps[|ps| - 1] <= goal <= Span(t)
    requires ps[|ps| - 1] < Span(t) ==> Occupied(t, ps[|ps| - 1])
    requires goal < Span(t) ==> Occupied(t, goal)
    ensures TraversalOf(t0, h, ts', ps', ms')
    ensures ts'[|ts'| - 1] == t && ps'[|ps'| - 1] == goal
    ensures |ps'| >= |ps| && ps'[..|ps|] == ps
    ensures forall i | |ps| <= i < |ps'| :: ps[|ps| - 1] < ps'[i] <= goal
  {
    ts', ps', ms' := ts, ps, ms;
    while ps'[|ps'| - 1] != goal
      invariant TraversalOf(t0, h, ts', ps', ms')
      invariant ts'[|ts'| - 1] == t && ps[|ps| - 1] <= ps'[|ps'| - 1] <= goal
      invariant ps'[|ps'| - 1] < Span(t) ==> Occupied(t, ps'[|ps'| - 1])
      invariant |ps'| >= |ps| && ps'[..|ps|] == ps
      invariant forall i | |ps| <= i < |ps'| :: ps[|ps| - 1] < ps'[i] <= goal
      decreases goal - ps'[|ps'| - 1]
    {
      ResumesBehind(t, h, m, ps'[|ps'| - 1]);
      AppendStep(t0, h, ts', ps', ms', t, FirstFrom(t, ps'[|ps'| - 1] + 1), m);
      ts', ps', ms' := ts' + [t], ps' + [FirstFrom(t, ps'[|ps'| - 1] + 1)], ms' + [m];
    }
  }

  /** Clearing an array entry that is current, and has an old node, makes the next call go
      on behind that node. */
  lemma ClearingJumps(t: View, h: Hasher, m: Contents, p: nat)
    requires IsTable(t, h, m) && p < |t.arr| && t.arr[p] != Nil && HasNode(t.nodes, IntKey(p + 1), true)
    ensures var cleared := View(t.arr[p := Nil], t.nodes);
            && Stable(t, cleared) && IsTable(cleared, h, Assign(m, IntKey(p + 1), Nil))
            && ResumeAt(cleared, IntKey(p + 1)) == Some(|t.arr| + NodeOf(t.nodes, IntKey(p + 1)) + 1)
  {
    var key := IntKey(p + 1);
    ReadBack(t.arr, t.nodes, m, key);
    DropMissingKey(t.nodes, key);
    StoreInArray(t.arr, t.nodes, m, p, Nil);
  }

  /** A trap can be sprung: clear entry p when it is the current one, and the rest of the
      traversal, with nothing else changed, never reports q. */
  lemma TrapLosesEntry(t: View, h: Hasher, m: Contents, p: nat, q: nat)
    returns (ts: seq<View>, ps: seq<nat>, ms: seq<Contents>)
    requires IsTable(t, h, m) && Trap(t, p, q)
    ensures TraversalOf(t, h, ts, ps, ms) && Complete(ts, ps) && Misses(ts, ps, q)
  {
    ts, ps, ms := RunToTrap(t, h, m, p);
    var key := IntKey(p + 1);
    var cleared, m' := View(t.arr[p := Nil], t.nodes), Assign(m, key, Nil);
    ClearingJumps(t, h, m, p);
    var jump := FirstFrom(cleared, |t.arr| + NodeOf(t.nodes, key) + 1);
    AppendStep(t, h, ts, ps, ms, cleared, jump, m');
    ts, ps, ms := RunPast(cleared, h, m', t, ts + [cleared], ps + [jump], ms + [m'], q);
  }

  lemma RunToTrap(t: View, h: Hasher, m: Contents, p: nat)
    returns (ts: seq<View>, ps: seq<nat>, ms: seq<Contents>)
    requires IsTable(t, h, m) && p < Span(t) && Occupied(t, p)
    ensures TraversalOf(t, h, ts, ps, ms) && ts[|ts| - 1] == t && ps[|ps| - 1] == p
    ensures forall i | 0 <= i < |ps| :: ps[i] <= p
  {
    ts, ps, ms := RunTo(t, h, m, t, [t], [FirstFrom(t, 0)], [m], p);
    assert ps[0] == ps[..1][0];
  }

  /** A traversal that has got past q without reporting it never does. */
  lemma RunPast(t: View, h: Hasher, m: Contents, t0: View, ts0: seq<View>, ps0: seq<nat>, ms0: seq<Contents>, q: nat)
    returns (ts: seq<View>, ps: seq<nat>, ms: seq<Contents>)
    requires TraversalOf(t0, h, ts0, ps0, ms0) && ts0[|ts0| - 1] == t && IsTable(t, h, m)
    requires Reports(t, ps0[|ps0| - 1]) && ps0[|ps0| - 1] > q && q !in ps0
    requires q < Span(t) && Occupied(t, q)
    ensures TraversalOf(t0, h, ts, ps, ms) && Complete(ts, ps) && Misses(ts, ps, q)
  {
    ts, ps, ms := RunTo(t, h, m, t0, ts0, ps0, ms0, Span(t));
    forall i | 0 <= i < |ps| ensures ps[i] != q {
      assert i < |ps0| ==> ps[i] == ps[..|ps0|][i];
    }
  }

  /** A traversal with clearing reports every surviving entry, whatever is cleared when,
      exactly if the table it starts on is resumable. */
  lemma NothingMissedIffResumable(t: View, h: Hasher, m: Contents)
    requires IsTable(t, h, m)
    ensures NothingMissed(t, h) <==> Resumable(t)
  {
    if Resumable(t) {
      forall ts, ps, ms, q: nat | TraversalOf(t, h, ts, ps, ms) && Complete(ts, ps) ensures !Misses(ts, ps, q) {
        TraversalUnderModification(t, h, ts, ps, ms);
      }
    } else {
      var p: nat, q: nat :| Trap(t, p, q);
      var ts, ps, ms := TrapLosesEntry(t, h, m, p, q);
    }
  }
}
