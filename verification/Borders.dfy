/**
 * What a key hidden in the hash part under a nil array slot does to the `#` operator,
 * src/core/table.cpp:264-321: filling and emptying other slots makes its result no border.
 */
module Borders {
  import opened LuaValue
  import opened HashNodes
  import opened TableContents
  import opened LuaTable

  /** v in the slots below p, nothing in those above it. */
  function Isolated(m: Contents, p: nat, size: nat, v: Value): Contents
    requires p < size
  {
    AssignRange(AssignRange(m, 1, seq(p, _ => v)), p + 2, seq(size - p - 1, _ => Nil))
  }

  lemma IsolatedKeepsKey(m: Contents, p: nat, size: nat, v: Value)
    requires p < size && IntKey(p + 1) in m && forall k | k in m :: m[k] != Nil
    ensures IntKey(p + 1) in Isolated(m, p, size, v)
  {
    var below, above := seq(p, _ => v), seq(size - p - 1, _ => Nil);
    AssignRangeLookup(m, 1, below, IntKey(p + 1));
    AssignRangeLookup(AssignRange(m, 1, below), p + 2, above, IntKey(p + 1));
  }

  /** Fill the slots below a hidden key and empty those above it: `length` then ends right
      below the key, which is still there. */
  method HiddenKeyMisleadsLength(t: Table, p: nat, v: Value) returns (n: nat)
    requires t.Valid() && p < |t.arr| && t.arr[p] == Nil && IntKey(p + 1) in t.contents && v != Nil
    modifies t
    ensures t.Valid() && t.contents == Isolated(old(t.contents), p, |old(t.arr)|, v)
    ensures n == p && !IsBorder(t.contents, n)
  {
    NoNilValues(t.arr, t.nodes, t.contents);
    IsolatedKeepsKey(t.contents, p, |t.arr|, v);
    Isolate(t, p, v);
    n := t.Length();
    OneBorder(t.arr, p, v, n);
  }

  /** v in the slots below p and nil from p on. */
  predicate FilledUpTo(arr: seq<Value>, p: nat, v: Value) {
    && p < |arr|
    && (forall i | 0 <= i < p :: arr[i] == v)
    && (forall i | p <= i < |arr| :: arr[i] == Nil)
  }

  lemma OneBorder(arr: seq<Value>, p: nat, v: Value, n: nat)
    requires FilledUpTo(arr, p, v) && v != Nil && ArrayBorder(arr, n)
    ensures n == p
  {
  }

  method Isolate(t: Table, p: nat, v: Value)
    requires t.Valid() && p < |t.arr| && t.arr[p] == Nil
    modifies t
    ensures t.Valid() && t.contents == Isolated(old(t.contents), p, |old(t.arr)|, v)
    ensures |t.arr| == |old(t.arr)| && FilledUpTo(t.arr, p, v)
  {
    ghost var arr := t.arr;
    var below, above := seq(p, _ => v), seq(|t.arr| - p - 1, _ => Nil);
    Overwrite(t, 0, below);
    Overwrite(t, p + 1, above);
    IsolatedSlots(arr, p, below, above);
  }

  lemma IsolatedSlots(arr: seq<Value>, p: nat, below: seq<Value>, above: seq<Value>)
    requires p < |arr| && |below| == p && |above| == |arr| - p - 1
    ensures Overlay(Overlay(arr, 0, below), p + 1, above) == below + [arr[p]] + above
  {
  }

  method Overwrite(t: Table, first: nat, values: seq<Value>)
    requires t.Valid() && first + |values| <= |t.arr|
    modifies t
    ensures t.Valid() && t.arr == Overlay(old(t.arr), first, values)
    ensures t.contents == AssignRange(old(t.contents), first + 1, values)
  {
    if values != [] {
      var r := t.SetArrayRange(first + 1, values);
    }
  }

  // ----------------------------------------------- what hidden keys are about

  /** Assignments inside the array part, which leave the rest of the table alone: a slot is as
      it was, its key included, or holds what its key has been assigned. */
  ghost predicate Rewritten(arr: seq<Value>, m: Contents, arr': seq<Value>, m': Contents) {
    && |arr'| == |arr|
    && (forall k | k in m' :: m'[k] != Nil)
    && (forall p | 0 <= p < |arr| :: SlotRewritten(arr, m, arr', m', p))
    && (forall k :: InRange(k, |arr|) || Lookup(m', k) == Lookup(m, k))
  }

  predicate SlotRewritten(arr: seq<Value>, m: Contents, arr': seq<Value>, m': Contents, p: nat)
    requires p < |arr| == |arr'|
  {
    || (arr'[p] == arr[p] && Lookup(m', IntKey(p + 1)) == Lookup(m, IntKey(p + 1)))
    || Lookup(m', IntKey(p + 1)) == arr'[p]
  }

  predicate InRange(k: Value, size: nat) {
    k.Num? && k.n.Integral? && 1 <= k.n.i <= size
  }

  /** As long as the last slot is nil, `length` finds a border whatever is assigned inside the
      array part, if and only if no key is hidden to begin with. */
  lemma HiddenKeysMatterIff(arr: seq<Value>, nodes: seq<HashNode>, m: Contents)
    requires Represents(arr, nodes, m)
    ensures NoHiddenKeys(arr, m)
            <==> forall arr', m' | Rewritten(arr, m, arr', m') && EndsInNil(arr') :: !MissesBorder(arr', m')
  {
    NoNilValues(arr, nodes, m);
    if NoHiddenKeys(arr, m) {
      forall arr', m' | Rewritten(arr, m, arr', m') && EndsInNil(arr') ensures !MissesBorder(arr', m') {
        NothingGetsHidden(arr, m, arr', m', BisectEnd(arr', 0, |arr'|));
      }
    } else {
      var p :| 0 <= p < |arr| && IntKey(p + 1) in m && arr[p] == Nil;
      HiddenKeyMatters(arr, m, p);
    }
  }

  lemma NothingGetsHidden(arr: seq<Value>, m: Contents, arr': seq<Value>, m': Contents, p: nat)
    requires NoHiddenKeys(arr, m) && Rewritten(arr, m, arr', m')
    ensures !HiddenAt(arr', m', p)
  {
    assert p < |arr| ==> SlotRewritten(arr, m, arr', m', p);
  }

  lemma HiddenKeyMatters(arr: seq<Value>, m: Contents, p: nat)
    requires HiddenAt(arr, m, p) && forall k | k in m :: m[k] != Nil
    ensures exists arr', m' :: Rewritten(arr, m, arr', m') && EndsInNil(arr') && MissesBorder(arr', m')
  {
    var v := Boolean(true);
    var arr' := seq(p, _ => v) + [Nil] + seq(|arr| - p - 1, _ => Nil);
    var m' := Isolated(m, p, |arr|, v);
    IsolatedKeepsKey(m, p, |arr|, v);
    IsolatedIsRewritten(arr, m, p, v);
    BisectEndIsBorder(arr', 0, |arr'|);
    OneBorder(arr', p, v, BisectEnd(arr', 0, |arr'|));
    assert Rewritten(arr, m, arr', m') && EndsInNil(arr') && MissesBorder(arr', m');
  }

  lemma IsolatedIsRewritten(arr: seq<Value>, m: Contents, p: nat, v: Value)
    requires p < |arr| && arr[p] == Nil && v != Nil && forall k | k in m :: m[k] != Nil
    ensures Rewritten(arr, m, seq(p, _ => v) + [Nil] + seq(|arr| - p - 1, _ => Nil), Isolated(m, p, |arr|, v))
  {
    var arr' := seq(p, _ => v) + [Nil] + seq(|arr| - p - 1, _ => Nil);
    var m' := Isolated(m, p, |arr|, v);
    forall k ensures k in m' ==> m'[k] != Nil
      ensures Lookup(m', k) == if InRange(k, p) then v else if InRange(k, |arr|) && k != IntKey(p + 1) then Nil else Lookup(m, k)
    {
      IsolatedLookup(m, p, |arr|, v, k);
    }
    forall q | 0 <= q < |arr| ensures SlotRewritten(arr, m, arr', m', q) {
      IsolatedLookup(m, p, |arr|, v, IntKey(q + 1));
    }
  }

  lemma IsolatedLookup(m: Contents, p: nat, size: nat, v: Value, k: Value)
    requires p < size && forall k | k in m :: m[k] != Nil
    ensures Lookup(Isolated(m, p, size, v), k)
         == if InRange(k, p) then v else if InRange(k, size) && k != IntKey(p + 1) then Nil else Lookup(m, k)
    ensures k in Isolated(m, p, size, v) ==> Isolated(m, p, size, v)[k] != Nil
  {
    var below, above := seq(p, _ => v), seq(size - p - 1, _ => Nil);
    AssignRangeLookup(m, 1, below, k);
    AssignRangeLookup(AssignRange(m, 1, below), p + 2, above, k);
  }
}
