/**
 * The two stack rearrangements of `Thread::resume`, src/core/thread.cpp:258-363: the frame
 * of a coroutine's first activation, and the move of resume arguments over the results of
 * the yield call.
 */
module ResumeFrame {
  import opened LuaValue

  const FUNCTION_POSITION: nat := 1

  /** Argument i, nil beyond the last. */
  function ArgOrNil(args: seq<Value>, i: nat): Value {
    if i < |args| then args[i] else Nil
  }

  function Min(a: nat, b: nat): (m: nat)
    ensures m <= a && m <= b && (m == a || m == b)
  {
    if a < b then a else b
  }

  /** What register i of a first frame holds, `above` being the physical slots above the
      function: under varargs the parameters are copied from the front of `above` to the
      physical end, which is as many slots too far as there are more slots than arguments. */
  function Register(above: seq<Value>, nargs: nat, parameters: nat, isVararg: bool, i: nat): Value
    requires nargs <= |above|
  {
    if i >= parameters then Nil
    else if !isVararg then ArgOrNil(above, i)
    else if i < |above| - nargs then ArgOrNil(above, Max(nargs, parameters) + i)
    else ArgOrNil(above, i - (|above| - nargs))
  }

  function Nils(n: nat): seq<Value> {
    seq(n, _ => Nil)
  }

  function Max(a: nat, b: nat): (m: nat)
    ensures m >= a && m >= b && (m == a || m == b)
  {
    if a < b then b else a
  }

  /** Slot s once the slots of [lo, hi) have taken the values `delta` further on. */
  function Moved(before: seq<Value>, delta: int, lo: nat, hi: nat, s: nat): Value
    requires s < |before| && (lo <= s < hi ==> 0 <= s + delta < |before|)
  {
    if lo <= s < hi then before[s + delta] else before[s]
  }

  /** Slot s once the arguments have replaced the results of the yield call: `count` results
      from `position` on, cut or padded with nil, and nil in argument slots that they leave. */
  function Resumed(before: seq<Value>, args: seq<Value>, start: nat, position: nat, count: nat, s: nat): Value
    requires s < |before|
  {
    if position <= s < position + count then ArgOrNil(args, s - position)
    else if start <= s < start + |args| || position <= s < position + |args| then Nil
    else before[s]
  }

  /** Slot s with the arguments copied and the missing results padded, nothing yet cleared. */
  function Placed(before: seq<Value>, start: nat, position: nat, nargs: nat, wanted: int, s: nat): Value
    requires s < |before| && start + nargs <= |before|
  {
    if position + nargs <= s < position + wanted then Nil
    else Moved(before, start - position, position, position + nargs, s)
  }

  predicate IsVacated(start: nat, position: nat, nargs: nat, resultTop: nat, s: nat) {
    (start <= s < start + nargs && (s < position || s >= resultTop)) || (nargs > 0 && resultTop <= s < position + nargs)
  }

  lemma ClearedIsResumed(before: seq<Value>, placed: seq<Value>, start: nat, position: nat, nargs: nat, wanted: int, s: nat)
    requires s < |before| == |placed| && start + nargs <= |before|
    requires placed[s] == Placed(before, start, position, nargs, wanted, s)
    ensures var count := if wanted >= 0 then wanted else nargs;
            Resumed(before, before[start..start + nargs], start, position, count, s)
            == if IsVacated(start, position, nargs, position + count, s) then Nil else placed[s]
  {
  }

  class CoroutineStack {
    var slots: seq<Value>   // the physical stack, up to `Stack::size()`
    var top: nat            // the logical top, `LuaState::getAbsoluteTop()`

    // --------------------------------------------------- the first activation

    method Push(v: Value)
      modifies this`slots
      ensures slots == old(slots) + [v]
    {
      slots := slots + [v];
    }

    /** `while (stack.size() < size) stack.push(nil)`. */
    method FillTo(size: nat)
      modifies this`slots
      ensures slots == old(slots) + Nils(if |old(slots)| < size then size - |old(slots)| else 0)
    {
      while |slots| < size
        invariant |slots| >= |old(slots)| && (|slots| > |old(slots)| ==> |slots| <= size)
        invariant slots == old(slots) + Nils(|slots| - |old(slots)|)
      {
        Push(Nil);
      }
    }

    /** Writes nil to the slots of [lo, hi). */
    method ClearRange(lo: nat, hi: nat)
      requires hi <= |slots|
      modifies this`slots
      ensures |slots| == |old(slots)|
      ensures forall s | 0 <= s < |slots| :: slots[s] == if lo <= s < hi then Nil else old(slots)[s]
    {
      var slot := lo;
      while slot < hi
        invariant |slots| == |old(slots)| && lo <= slot && (slot <= hi || slot == lo)
        invariant forall s | 0 <= s < |slots| :: slots[s] == if lo <= s < slot then Nil else old(slots)[s]
      {
        slots := slots[slot := Nil];
        slot := slot + 1;
      }
    }

    /** Copies the first `count` slots from oldBase on to the end and leaves nil behind. */
    method MoveToEnd(oldBase: nat, count: nat)
      requires oldBase + count <= |slots|
      modifies this`slots
      ensures |slots| == |old(slots)| + count
      ensures forall s | 0 <= s < |old(slots)| ::
                slots[s] == if oldBase <= s < oldBase + count then Nil else old(slots)[s]
      ensures forall s | |old(slots)| <= s < |slots| :: slots[s] == old(slots)[s - |old(slots)| + oldBase]
    {
      for i := 0 to count
        invariant |slots| == |old(slots)| + i
        invariant forall s | 0 <= s < |old(slots)| ::
                    slots[s] == if oldBase <= s < oldBase + i then Nil else old(slots)[s]
        invariant forall s | |old(slots)| <= s < |slots| :: slots[s] == old(slots)[s - |old(slots)| + oldBase]
      {
        Push(slots[oldBase + i]);
        slots := slots[oldBase + i := Nil];
      }
    }

    /** Builds the frame of a Lua function for its last `nargs` pushed values, whatever lies
        in the physical slots above it. */
    method FirstFrame(nargs: nat, parameters: nat, isVararg: bool, maxStack: nat) returns (base: nat)
      requires FUNCTION_POSITION + 1 + nargs <= |slots|
      modifies this
      ensures base == FUNCTION_POSITION + 1 + if isVararg then Max(nargs, parameters) else 0
      ensures top == |slots| == base + maxStack
      ensures slots[..FUNCTION_POSITION + 1] == old(slots)[..FUNCTION_POSITION + 1]
      ensures forall s | base <= s < |slots| ::
                slots[s] == Register(old(slots)[FUNCTION_POSITION + 1..], nargs, parameters, isVararg, s - base)
      ensures forall s | base + parameters <= s < base + maxStack :: slots[s] == Nil
      ensures |old(slots)| == FUNCTION_POSITION + 1 + nargs ==>
                forall s | base <= s < base + parameters && s < base + maxStack ::
                  slots[s] == if s - base < nargs then old(slots)[FUNCTION_POSITION + 1 + s - base] else Nil
      ensures !isVararg ==>
                forall s | base <= s < base + parameters && s < base + maxStack ::
                  slots[s] == if s < |old(slots)| then old(slots)[s] else Nil
      ensures isVararg ==> forall s | FUNCTION_POSITION + 1 <= s < base ::
                slots[s] == if s - FUNCTION_POSITION - 1 < parameters then Nil
                            else old(slots)[FUNCTION_POSITION + 1..][s - FUNCTION_POSITION - 1]
    {
      base := PlaceParameters(nargs, parameters, isVararg);
      FinishFrame(base, parameters, base + maxStack, if isVararg then 0 else base + nargs);
    }

    /** Pads missing parameters and, under varargs, copies the parameters behind the arguments. */
    method PlaceParameters(nargs: nat, parameters: nat, isVararg: bool) returns (base: nat)
      requires FUNCTION_POSITION + 1 + nargs <= |slots|
      modifies this`slots
      ensures base == FUNCTION_POSITION + 1 + if isVararg then Max(nargs, parameters) else 0
      ensures base + parameters <= |slots| && (!isVararg ==> base + nargs <= |slots|)
      ensures slots[..FUNCTION_POSITION + 1] == old(slots)[..FUNCTION_POSITION + 1]
      ensures forall s | base <= s < base + parameters ::
                slots[s] == Register(old(slots)[FUNCTION_POSITION + 1..], nargs, parameters, isVararg, s - base)
      ensures isVararg ==> forall s | FUNCTION_POSITION + 1 <= s < base ::
                slots[s] == if s - FUNCTION_POSITION - 1 < parameters then Nil
                            else old(slots)[FUNCTION_POSITION + 1..][s - FUNCTION_POSITION - 1]
    {
      ghost var above := slots[FUNCTION_POSITION + 1..];
      var oldBase := FUNCTION_POSITION + 1;
      base := oldBase;
      var actual := if nargs < parameters then parameters else nargs;
      FillTo(|slots| + (actual - nargs));
      assert forall s | oldBase <= s < |slots| :: slots[s] == ArgOrNil(above, s - oldBase);
      if isVararg {
        base := oldBase + actual;
        MoveToEnd(oldBase, parameters);
      }
    }

    /** Fills the frame up with nil, clears what is no parameter, and drops what lies above. */
    method FinishFrame(base: nat, parameters: nat, frameTop: nat, argumentTop: nat)
      requires base + parameters <= |slots| && argumentTop <= |slots|
      modifies this
      ensures top == |slots| == frameTop
      ensures forall s | 0 <= s < frameTop :: slots[s] == if s < base + parameters then old(slots)[s] else Nil
    {
      FillTo(frameTop);
      ClearRange(base + parameters, Max(frameTop, argumentTop));
      if |slots| > frameTop {
        slots := slots[..frameTop];
      }
      top := frameTop;
    }

    // ---------------------------------------- the resume of a yielded coroutine

    /** `stack.at(to + i) = stack.at(from + i)` for i below count, in the order that keeps the
        source intact; false stands for `std::out_of_range`. */
    method MoveArguments(from: nat, to: nat, count: nat) returns (ok: bool)
      requires from + count <= |slots|
      modifies this`slots
      ensures ok <==> count == 0 || to + count <= |slots|
      ensures |slots| == |old(slots)|
      ensures ok ==> forall s | 0 <= s < |slots| ::
                slots[s] == Moved(old(slots), from - to, to, to + count, s)
    {
      if to > from && to < from + count {
        var i := count;
        while i > 0
          invariant 0 <= i <= count && |slots| == |old(slots)|
          invariant i < count ==> to + count <= |slots|
          invariant forall s | 0 <= s < |slots| ::
                      slots[s] == Moved(old(slots), from - to, to + i, to + count, s)
        {
          if to + i - 1 >= |slots| {
            return false;
          }
          slots := slots[to + i - 1 := slots[from + i - 1]];
          i := i - 1;
        }
      } else {
        for i := 0 to count
          invariant |slots| == |old(slots)| && (i > 0 ==> to + i <= |slots|)
          invariant forall s | 0 <= s < |slots| ::
                      slots[s] == Moved(old(slots), from - to, to, to + i, s)
        {
          if to + i >= |slots| {
            return false;
          }
          slots := slots[to + i := slots[from + i]];
        }
      }
      return true;
    }

    /** Writes nil to [lo, hi), checking each index. */
    method PadResults(lo: nat, hi: nat) returns (ok: bool)
      modifies this`slots
      ensures ok <==> hi <= lo || hi <= |slots|
      ensures |slots| == |old(slots)|
      ensures ok ==> forall s | 0 <= s < |slots| :: slots[s] == if lo <= s < hi then Nil else old(slots)[s]
    {
      var s0 := lo;
      while s0 < hi
        invariant lo <= s0 && (s0 <= hi || s0 == lo) && |slots| == |old(slots)| && (s0 > lo ==> s0 <= |slots|)
        invariant forall s | 0 <= s < |slots| :: slots[s] == if lo <= s < s0 then Nil else old(slots)[s]
      {
        if s0 >= |slots| {
          return false;
        }
        slots := slots[s0 := Nil];
        s0 := s0 + 1;
      }
      return true;
    }

    /** Clears the argument slots that are not result slots. */
    method ClearOutside(lo: nat, hi: nat, keepLo: nat, keepHi: nat)
      requires hi <= |slots|
      modifies this`slots
      ensures |slots| == |old(slots)|
      ensures forall s | 0 <= s < |slots| ::
                slots[s] == if lo <= s < hi && (s < keepLo || s >= keepHi) then Nil else old(slots)[s]
    {
      var slot := lo;
      while slot < hi
        invariant lo <= slot && (slot <= hi || slot == lo) && |slots| == |old(slots)|
        invariant forall s | 0 <= s < |slots| ::
                    slots[s] == if lo <= s < slot && (s < keepLo || s >= keepHi) then Nil else old(slots)[s]
      {
        if slot < keepLo || slot >= keepHi {
          slots := slots[slot := Nil];
        }
        slot := slot + 1;
      }
    }

    /** The resume arguments, the top `nargs` slots, become the results of the yield call
        whose function sat at `position`: exactly `wanted` of them, cut or padded with nil,
        or all of them if `wanted` is negative. Argument slots they leave are nil, every
        other slot keeps its value, and the stack is cut to the caller's frame. */
    method ResumeFromYield(position: nat, nargs: nat, wanted: int, frameTop: nat) returns (ok: bool)
      requires nargs <= top <= |slots|
      modifies this
      ensures ok <==> (nargs == 0 || position + nargs <= |old(slots)|)
                      && (wanted <= nargs || position + wanted <= |old(slots)|)
      ensures ok ==>
                var start := old(top) - nargs;
                var count := if wanted >= 0 then wanted else nargs;
                && top == (if wanted >= 0 then frameTop else position + count)
                && |slots| == Min(|old(slots)|, Max(frameTop, position + count))
                && forall s | 0 <= s < |slots| ::
                     slots[s] == Resumed(old(slots), old(slots)[start..old(top)], start, position, count, s)
      ensures ok ==> forall s | position <= s < position + if wanted >= 0 then wanted else nargs ::
                s < |slots|
                && slots[s] == if s - position < nargs then old(slots)[old(top) - nargs + s - position] else Nil
      ensures ok ==>
                forall s | 0 <= s < |slots| && (s < position || s >= position + if wanted >= 0 then wanted else nargs) ::
                  slots[s] == if old(top) - nargs <= s < old(top) || position <= s < position + nargs then Nil
                              else old(slots)[s]
    {
      var start := top - nargs;
      var resultTop := position + if wanted >= 0 then wanted else nargs;
      ok := PlaceAndClear(start, position, nargs, wanted);
      if !ok {
        return;
      }
      top := resultTop;
      var physicalTop := Max(frameTop, resultTop);
      if |slots| > physicalTop {
        slots := slots[..physicalTop];
      }
      if wanted >= 0 {
        top := frameTop;
      }
    }

    /** The same before the stack is cut. */
    method PlaceAndClear(start: nat, position: nat, nargs: nat, wanted: int) returns (ok: bool)
      requires start + nargs <= |slots|
      modifies this`slots
      ensures ok <==> (nargs == 0 || position + nargs <= |old(slots)|)
                      && (wanted <= nargs || position + wanted <= |old(slots)|)
      ensures ok ==>
                && |slots| == |old(slots)|
                && forall s | 0 <= s < |slots| ::
                     slots[s] == Resumed(old(slots), old(slots)[start..start + nargs], start, position,
                                         if wanted >= 0 then wanted else nargs, s)
    {
      ok := PlaceArguments(start, position, nargs, wanted);
      if !ok {
        return;
      }
      ghost var placed := slots;
      var resultTop := position + if wanted >= 0 then wanted else nargs;
      ClearVacated(start, position, nargs, resultTop);
      forall s | 0 <= s < |slots|
        ensures slots[s] == Resumed(old(slots), old(slots)[start..start + nargs], start, position, resultTop - position, s)
      {
        ClearedIsResumed(old(slots), placed, start, position, nargs, wanted, s);
      }
    }

    /** The arguments at the yield call's slots, followed by nil up to the wanted count. */
    method PlaceArguments(start: nat, position: nat, nargs: nat, wanted: int) returns (ok: bool)
      requires start + nargs <= |slots|
      modifies this`slots
      ensures ok <==> (nargs == 0 || position + nargs <= |old(slots)|)
                      && (wanted <= nargs || position + wanted <= |old(slots)|)
      ensures |slots| == |old(slots)|
      ensures ok ==> forall s | 0 <= s < |slots| ::
                slots[s] == Placed(old(slots), start, position, nargs, wanted, s)
    {
      ok := MoveArguments(start, position, nargs);
      if ok && wanted >= 0 {
        ok := PadResults(position + nargs, position + wanted);
      }
    }

    /** Slots that held arguments, or took them beyond the wanted results, become nil. */
    method ClearVacated(start: nat, position: nat, nargs: nat, resultTop: nat)
      requires start + nargs <= |slots| && (nargs == 0 || position + nargs <= |slots|)
      modifies this`slots
      ensures |slots| == |old(slots)|
      ensures forall s | 0 <= s < |slots| ::
                slots[s] == if IsVacated(start, position, nargs, resultTop, s) then Nil else old(slots)[s]
    {
      if nargs > 0 {
        ClearRange(resultTop, position + nargs);
      }
      ClearOutside(start, start + nargs, position, resultTop);
    }
  }

  // ------------------------------------------------ when a first frame is right

  /** Every register holds its argument, or nil. */
  predicate FrameRight(args: seq<Value>, stale: seq<Value>, parameters: nat, isVararg: bool) {
    forall i | 0 <= i < parameters :: Register(args + stale, |args|, parameters, isVararg, i) == ArgOrNil(args, i)
  }

  /** Without varargs, values left in the physical slots above the arguments become missing
      parameters; the frame is right exactly if all those that do are nil. */
  lemma FixedFrameRightIff(args: seq<Value>, stale: seq<Value>, parameters: nat)
    ensures FrameRight(args, stale, parameters, false)
            <==> forall j | 0 <= j < |stale| && |args| + j < parameters :: stale[j] == Nil
  {
    if FrameRight(args, stale, parameters, false) {
      forall j | 0 <= j < |stale| && |args| + j < parameters ensures stale[j] == Nil {
        assert Register(args + stale, |args|, parameters, false, |args| + j) == ArgOrNil(args, |args| + j);
      }
    }
  }

  /** A call `f()` of a function with one parameter, above which v was left: the parameter is v. */
  lemma StaleValueBecomesParameter(v: Value)
    ensures Register([v], 0, 1, false, 0) == v
    ensures v != Nil ==> !FrameRight([], [v], 1, false)
  {
    assert [] + [v] == [v];
  }

  /** Under varargs the first parameter is wrong for some argument whenever anything at all,
      nil included, lies above at least one argument. */
  lemma FirstParameterLost(stale: seq<Value>, parameters: nat, args: seq<Value>)
    requires parameters > 0 && stale != [] && args != []
    ensures Register(args + stale, |args|, parameters, true, 0) == ArgOrNil(stale, Max(|args|, parameters) - |args|)
  {
  }

  /** Without arguments the registers are stale slots from two windows. */
  predicate WindowsAreNil(stale: seq<Value>, parameters: nat) {
    forall j | 0 <= j < |stale| && (parameters <= j < 2 * parameters || j + |stale| < parameters) :: stale[j] == Nil
  }

  lemma ParameterFromWindow(stale: seq<Value>, parameters: nat, i: nat)
    requires i < parameters
    ensures Register([] + stale, 0, parameters, true, i)
         == ArgOrNil(stale, if i < |stale| then parameters + i else i - |stale|)
  {
    assert [] + stale == stale;
  }

  lemma NoArgumentsRightIff(stale: seq<Value>, parameters: nat)
    ensures FrameRight([], stale, parameters, true) <==> WindowsAreNil(stale, parameters)
  {
    if FrameRight([], stale, parameters, true) {
      forall j | 0 <= j < |stale| && (parameters <= j < 2 * parameters || j + |stale| < parameters)
        ensures stale[j] == Nil
      {
        var i := if j + |stale| < parameters then j + |stale| else j - parameters;
        ParameterFromWindow(stale, parameters, i);
        assert Register([] + stale, 0, parameters, true, i) == ArgOrNil([], i);
      }
    } else {
      var i :| 0 <= i < parameters && Register([] + stale, 0, parameters, true, i) != ArgOrNil([], i);
      ParameterFromWindow(stale, parameters, i);
    }
  }

  /** Under varargs, with n arguments, the frame is right whatever they are, exactly if there
      are no parameters, or nothing lies above the arguments, or there are no arguments and
      the slots that then serve as parameters are nil. */
  lemma VarargFrameRightIff(n: nat, stale: seq<Value>, parameters: nat)
    ensures (forall args: seq<Value> | |args| == n :: FrameRight(args, stale, parameters, true))
            <==> parameters == 0 || stale == [] || (n == 0 && WindowsAreNil(stale, parameters))
  {
    if n == 0 {
      NoArgumentsRightIff(stale, parameters);
      assert forall args: seq<Value> | |args| == n :: args == [];
    } else if parameters > 0 && stale != [] {
      var lost := ArgOrNil(stale, Max(n, parameters) - n);
      var args := seq(n, _ => if lost == Nil then Boolean(true) else Nil);
      FirstParameterLost(stale, parameters, args);
      assert Register(args + stale, |args|, parameters, true, 0) != ArgOrNil(args, 0);
    }
  }
}
