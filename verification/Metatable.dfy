/**
 * Metamethod lookup with its absence cache, src/core/metatable.cpp:38-130 and 238-269.
 */
module Metatable {
  import opened LuaValue
  import opened TableContents
  import opened LuaTable

  datatype FastResult = Found(v: Value) | NotAFastEvent

  /** What the lookup means: the event's field of the metatable, nil without a metatable. */
  ghost function Metamethod(mt: Table?, e: Event): Value
    reads mt
  {
    if mt == null then Nil else Lookup(mt.contents, EventName(e))
  }

  predicate IsKnownAbsent(flags: bv8, e: Event) {
    e <= TM_EQ && flags & EventBit(e) != 0
  }

  function WithAbsent(flags: bv8, e: Event): bv8
    requires e <= TM_EQ
  {
    flags | EventBit(e)
  }

  lemma MarkAbsent(flags: bv8, m: Contents, e: Event)
    requires AbsenceBitsHold(flags, m) && e <= TM_EQ && EventName(e) !in m
    ensures AbsenceBitsHold(WithAbsent(flags, e), m)
  {
    forall d: Event | d <= TM_EQ && (flags | EventBit(e)) & EventBit(d) != 0 ensures EventName(d) !in m {
      if d != e {
        BitsAreSeparate(flags, e, d);
      }
    }
  }

  lemma BitsAreSeparate(flags: bv8, e: Event, d: Event)
    requires e <= TM_EQ && d <= TM_EQ && e != d
    ensures (flags | EventBit(e)) & EventBit(d) == flags & EventBit(d)
  {
  }

  lemma KnownIsAbsent(flags: bv8, m: Contents, e: Event)
    requires AbsenceBitsHold(flags, m) && IsKnownAbsent(flags, e)
    ensures e <= TM_EQ && EventName(e) !in m && WithAbsent(flags, e) == flags
  {
  }

  /** Sets the bit of an event whose lookup gave nil. */
  method RememberAbsent(mt: Table, e: Event)
    requires mt.Valid() && e <= TM_EQ && Lookup(mt.contents, EventName(e)) == Nil
    modifies mt`flags
    ensures mt.Valid() && mt.flags == WithAbsent(old(mt.flags), e)
  {
    NoNilValues(mt.arr, mt.nodes, mt.contents);
    MarkAbsent(mt.flags, mt.contents, e);
    mt.flags := WithAbsent(mt.flags, e);
  }

  /** `getMetamethod`: the cached lookup and the direct one agree, the cache stays right, and every
      event found absent is in it. */
  method GetMetamethod(mt: Table?, e: Event) returns (v: Value)
    requires mt != null ==> mt.Valid()
    modifies mt
    ensures mt != null ==> mt.Valid() && mt.contents == old(mt.contents)
    ensures mt != null ==> mt.flags == if v == Nil && e <= TM_EQ then WithAbsent(old(mt.flags), e) else old(mt.flags)
    ensures v == Metamethod(mt, e)
  {
    if mt == null {
      return Nil;
    }
    if IsKnownAbsent(mt.flags, e) {
      KnownIsAbsent(mt.flags, mt.contents, e);
      return Nil;
    }
    v := mt.Get(EventName(e));
    if v == Nil && e <= TM_EQ {
      RememberAbsent(mt, e);
    }
  }

  method FastMetamethod(mt: Table?, e: Event) returns (r: FastResult)
    requires mt != null ==> mt.Valid()
    modifies mt
    ensures mt != null ==> mt.Valid() && mt.contents == old(mt.contents)
    ensures mt != null ==> mt.flags == if e <= TM_EQ && r == Found(Nil) then WithAbsent(old(mt.flags), e) else old(mt.flags)
    ensures r == if e > TM_EQ then NotAFastEvent else Found(Metamethod(mt, e))
  {
    if e > TM_EQ {
      return NotAFastEvent;
    }
    var v := GetMetamethod(mt, e);
    r := Found(v);
  }

  /** The handler two operands agree on, nil if they do not. */
  ghost function SharedHandler(mt1: Table?, mt2: Table?, e: Event): Value
    reads mt1, mt2
  {
    var a, b := Metamethod(mt1, e), Metamethod(mt2, e);
    if mt1 == mt2 || RawEqual(a, b) then a else Nil
  }

  method GetComparisonTM(mt1: Table?, mt2: Table?, e: Event) returns (r: FastResult)
    requires (mt1 != null ==> mt1.Valid()) && (mt2 != null ==> mt2.Valid())
    modifies mt1, mt2
    ensures mt1 != null ==> mt1.Valid() && mt1.contents == old(mt1.contents)
    ensures mt2 != null ==> mt2.Valid() && mt2.contents == old(mt2.contents)
    ensures r == if e > TM_EQ then NotAFastEvent else Found(SharedHandler(mt1, mt2, e))
    ensures SharedHandler(mt1, mt2, e) == SharedHandler(mt2, mt1, e)
    ensures e <= TM_EQ && mt1 == mt2 ==> r == Found(Metamethod(mt1, e))
    ensures e <= TM_EQ && mt1 != mt2 && RawEqual(Metamethod(mt1, e), Metamethod(mt2, e)) ==> r == Found(Metamethod(mt1, e))
    ensures e <= TM_EQ && mt1 != mt2 && !RawEqual(Metamethod(mt1, e), Metamethod(mt2, e)) ==> r == Found(Nil)
  {
    var tm1 := FastMetamethod(mt1, e);
    if tm1.NotAFastEvent? || tm1.v == Nil || mt1 == mt2 {
      return tm1;
    }
    var tm2 := FastMetamethod(mt2, e);
    if tm2.v == Nil {
      return Found(Nil);
    }
    return Found(if RawEqual(tm1.v, tm2.v) then tm1.v else Nil);
  }
}
