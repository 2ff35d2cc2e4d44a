/**
 * The constants and local-variable records of a function prototype, src/core/function.cpp:48-148
 * and 226-238. Interned strings make the pointer keys of `ConstantKey` content keys, and a
 * key that holds a NaN equals no key, so it is never found again.
 */
module ConstantPool {
  import opened LuaValue

  predicate IsConstant(v: Value) {
    v.Nil? || v.Boolean? || v.Num? || v.Str?
  }

  /** `ConstantKey` equality is reflexive on this value. */
  predicate Findable(v: Value) {
    IsConstant(v) && v != Num(NaN)
  }

  /** Exactly nil, booleans, numbers and strings that equal themselves. */
  lemma FindableIff(v: Value)
    ensures Findable(v) <==> (v.Nil? || v.Boolean? || v.Num? || v.Str?) && RawEqual(v, v)
  {
  }

  /** `index` is where `v` first occurs. */
  predicate FirstAt(constants: seq<Value>, v: Value, index: nat) {
    index < |constants| && constants[index] == v && v !in constants[..index]
  }

  ghost predicate NoDuplicates(constants: seq<Value>) {
    forall i, j | 0 <= i < j < |constants| :: Findable(constants[i]) ==> constants[i] != constants[j]
  }

  datatype LocVar = LocVar(startpc: int, endpc: int)

  /** How many of the variables are active at pc. */
  function CountActive(vars: seq<LocVar>, pc: int): nat {
    if vars == [] then 0
    else CountActive(vars[..|vars| - 1], pc) + (if IsActive(vars[|vars| - 1], pc) then 1 else 0)
  }

  /** The records up to the first that starts behind pc. */
  function Started(vars: seq<LocVar>, pc: int): (r: seq<LocVar>)
    ensures |r| <= |vars|
  {
    if vars == [] || vars[0].startpc > pc then [] else [vars[0]] + Started(vars[1..], pc)
  }

  lemma {:induction false} StartedIsPrefix(vars: seq<LocVar>, pc: int)
    ensures Started(vars, pc) == vars[..|Started(vars, pc)|]
    ensures forall i | 0 <= i < |Started(vars, pc)| :: vars[i].startpc <= pc
    ensures |Started(vars, pc)| < |vars| ==> vars[|Started(vars, pc)|].startpc > pc
  {
    if vars != [] && vars[0].startpc <= pc {
      StartedIsPrefix(vars[1..], pc);
      forall i | 0 <= i < |Started(vars, pc)| ensures vars[i].startpc <= pc {
        assert i > 0 ==> vars[1..][i - 1] == vars[i];
      }
    }
  }

  /** All records up to the last start at or before pc. */
  predicate AllStart(vars: seq<LocVar>, last: nat, pc: int)
    requires last < |vars|
  {
    forall i | 0 <= i <= last :: vars[i].startpc <= pc
  }

  predicate IsActive(v: LocVar, pc: int) {
    v.startpc <= pc < v.endpc
  }

  class Proto {
    var constants: seq<Value>
    var constantMap: map<Value, nat>

    ghost predicate Valid()
      reads this
    {
      && (forall v | v in constantMap :: Findable(v) && FirstAt(constants, v, constantMap[v]))
      && (forall v | v in constants :: Findable(v) ==> v in constantMap)
    }

    constructor ()
      ensures Valid() && constants == []
    {
      constants, constantMap := [], map[];
    }

    /** The index of an equal constant, or of a new one; None if the map insertion throws. */
    method AddConstant(value: Value, insertFails: bool) returns (index: Option<nat>)
      requires Valid()
      modifies this
      ensures Valid()
      ensures index.None? ==> insertFails && constants == old(constants) && constantMap == old(constantMap)
      ensures index.Some? ==> index.value < |constants| && constants[index.value] == value
      ensures index.Some? && Findable(value) ==> FirstAt(constants, value, index.value)
      ensures index.Some? ==> constants == if Findable(value) && value in old(constants) then old(constants)
                                           else old(constants) + [value]
      ensures (value.Nil? || value.Boolean? || value.Num? || value.Str?) && RawEqual(value, value)
              && value in old(constants) ==>
                index.Some? && constants == old(constants) && FirstAt(constants, value, index.value)
      ensures old(NoDuplicates(constants)) ==> NoDuplicates(constants)
    {
      if IsConstant(value) {
        if value in constantMap {
          return Some(constantMap[value]);
        }
        var position := |constants|;
        constants := constants + [value];
        if insertFails {
          constants := constants[..position];
          assert constants == old(constants);
          return None;
        }
        if Findable(value) {
          constantMap := constantMap[value := position];
        }
        return Some(position);
      }
      constants := constants + [value];
      return Some(|constants| - 1);
    }

    /** An equal constant added twice in a row gets one index. */
    method AddTwice(value: Value) returns (first: nat, second: nat)
      requires Valid()
      requires (value.Nil? || value.Boolean? || value.Num? || value.Str?) && RawEqual(value, value)
      modifies this
      ensures Valid() && first == second < |constants| && constants[first] == value
      ensures constants == if value in old(constants) then old(constants) else old(constants) + [value]
    {
      var a := AddConstant(value, false);
      var b := AddConstant(value, false);
      first, second := a.value, b.value;
    }

    /** The loader's form: the constant goes to the next position, an equal one or not. */
    method AppendConstantSlot(value: Value, insertFails: bool) returns (index: Option<nat>)
      requires Valid()
      modifies this
      ensures Valid()
      ensures index.None? ==> insertFails && constants == old(constants) && constantMap == old(constantMap)
      ensures index.Some? ==> index.value == |old(constants)| && constants == old(constants) + [value]
      ensures forall v | v in old(constantMap) :: v in constantMap && constantMap[v] == old(constantMap)[v]
    {
      var position := |constants|;
      constants := constants + [value];
      if IsConstant(value) {
        if insertFails {
          constants := constants[..position];
          assert constants == old(constants);
          return None;
        }
        if Findable(value) && value !in constantMap {
          constantMap := constantMap[value := position];
        }
      }
      return Some(position);
    }

    method GetConstant(index: nat) returns (value: Option<Value>)
      ensures value == if index < |constants| then Some(constants[index]) else None
    {
      if index >= |constants| {
        return None;
      }
      return Some(constants[index]);
    }

    /** Loading a constant list slot by slot keeps every position, and a constant added
        afterwards that the list has gets the position of its first occurrence. */
    method LoadThenAdd(list: seq<Value>, value: Value) returns (index: nat)
      requires Valid() && constants == []
      modifies this
      ensures Valid() && list <= constants && index < |constants| && constants[index] == value
      ensures Findable(value) && value in list ==> constants == list && FirstAt(list, value, index)
    {
      for i := 0 to |list|
        invariant Valid() && constants == list[..i]
      {
        var slot := AppendConstantSlot(list[i], false);
      }
      assert list[..|list|] == list;
      var added := AddConstant(value, false);
      index := added.value;
    }
  }

  /** Record number `localNumber` of those active at pc, as far as the records start at or
      before pc. */
  method GetLocalVarInfo(vars: seq<LocVar>, localNumber: int, pc: int) returns (r: Option<nat>)
    ensures r.Some? ==> r.value < |vars| && vars[r.value].startpc <= pc < vars[r.value].endpc
                        && CountActive(vars[..r.value + 1], pc) == localNumber
    ensures r.None? <==> localNumber <= 0 || CountActive(Started(vars, pc), pc) < localNumber
    ensures r.None? && localNumber == 1 ==>
              forall i | 0 <= i < |vars| && AllStart(vars, i, pc) :: vars[i].endpc <= pc
  {
    var remaining := localNumber;
    var i := 0;
    while i < |vars| && vars[i].startpc <= pc
      invariant 0 <= i <= |vars|
      invariant remaining == localNumber - CountActive(vars[..i], pc)
      invariant localNumber > 0 ==> remaining > 0
      invariant forall q | 0 <= q < i :: vars[q].startpc <= pc
      invariant localNumber == 1 ==> remaining == 1 && forall q | 0 <= q < i :: vars[q].endpc <= pc
    {
      assert vars[..i + 1][..i] == vars[..i];
      if pc < vars[i].endpc {
        remaining := remaining - 1;
        if remaining == 0 {
          StartedCountsAtLeast(vars, i + 1, pc);
          return Some(i);
        }
      }
      i := i + 1;
    }
    StartedIsPrefix(vars, pc);
    assert i == |Started(vars, pc)|;
    return None;
  }

  lemma StartedCountsAtLeast(vars: seq<LocVar>, k: nat, pc: int)
    requires k <= |vars| && forall i | 0 <= i < k :: vars[i].startpc <= pc
    ensures CountActive(vars[..k], pc) <= CountActive(Started(vars, pc), pc)
  {
    StartedIsPrefix(vars, pc);
    assert k <= |Started(vars, pc)|;
    CountGrows(Started(vars, pc), k, pc);
    assert Started(vars, pc)[..k] == vars[..k];
  }

  lemma {:induction false} CountGrows(vars: seq<LocVar>, k: nat, pc: int)
    requires k <= |vars|
    ensures CountActive(vars[..k], pc) <= CountActive(vars, pc)
    decreases |vars|
  {
    if k < |vars| {
      assert vars[..|vars| - 1][..k] == vars[..k];
      CountGrows(vars[..|vars| - 1], k, pc);
    } else {
      assert vars[..k] == vars;
    }
  }

  /** With records in the order of their starts, every active one is among those counted. */
  lemma SortedRecordsAllCount(vars: seq<LocVar>, pc: int)
    requires forall i, j | 0 <= i < j < |vars| :: vars[i].startpc <= vars[j].startpc
    ensures CountActive(Started(vars, pc), pc) == CountActive(vars, pc)
  {
    var k := |Started(vars, pc)|;
    StartedIsPrefix(vars, pc);
    NoneActiveFrom(vars, k, pc);
  }

  /** Without that order an active record can be out of reach. */
  lemma UnsortedRecordOutOfReach()
    ensures var vars := [LocVar(5, 9), LocVar(0, 9)];
            CountActive(vars, 3) == 1 && CountActive(Started(vars, 3), 3) == 0
  {
    var vars := [LocVar(5, 9), LocVar(0, 9)];
    assert vars[..1] == [LocVar(5, 9)];
  }

  lemma {:induction false} NoneActiveFrom(vars: seq<LocVar>, k: nat, pc: int)
    requires k <= |vars| && forall i | k <= i < |vars| :: vars[i].startpc > pc
    ensures CountActive(vars, pc) == CountActive(vars[..k], pc)
    decreases |vars|
  {
    if k < |vars| {
      assert vars[..|vars| - 1][..k] == vars[..k];
      NoneActiveFrom(vars[..|vars| - 1], k, pc);
    } else {
      assert vars[..k] == vars;
    }
  }
}
