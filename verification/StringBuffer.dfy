/**
 * luaL_Buffer, src/api/lauxlib.cpp:120-160 and 455-512: a fixed character buffer whose
 * overflow goes to string pieces on the Lua stack, which are merged so that few remain.
 */
module StringBuffer {
  import opened LuaValue

  const LUA_MINSTACK: nat := 20
  const PIECE_LIMIT: nat := LUA_MINSTACK / 2

  function Text(v: Value): string {
    if v.Str? then v.s else ""
  }

  function Join(pieces: seq<Value>): string {
    if pieces == [] then "" else Join(pieces[..|pieces| - 1]) + Text(pieces[|pieces| - 1])
  }

  predicate AllStrings(pieces: seq<Value>) {
    forall i | 0 <= i < |pieces| :: pieces[i].Str?
  }

  lemma JoinLast(pieces: seq<Value>, v: Value)
    ensures Join(pieces + [v]) == Join(pieces) + Text(v)
  {
    assert (pieces + [v])[..|pieces|] == pieces;
  }

  lemma Associate(a: string, b: string, c: string)
    ensures (a + b) + c == a + (b + c)
  {
  }

  lemma {:induction false} JoinSplit(a: seq<Value>, b: seq<Value>)
    ensures Join(a + b) == Join(a) + Join(b)
  {
    if b == [] {
      assert a + b == a;
    } else {
      var rest, v := b[..|b| - 1], b[|b| - 1];
      assert a + b == (a + rest) + [v];
      JoinLast(a + rest, v);
      JoinSplit(a, rest);
      Associate(Join(a), Join(rest), Text(v));
    }
  }

  lemma JoinOne(v: Value)
    ensures Join([v]) == Text(v)
  {
    assert [v][..0] == [];
  }

  /** The loop of `VM::detail::concat`, from the top down. */
  method ConcatText(pieces: seq<Value>) returns (text: string)
    requires AllStrings(pieces)
    ensures text == Join(pieces)
  {
    text := "";
    var k := |pieces|;
    while k > 0
      invariant 0 <= k <= |pieces| && text == Join(pieces[k..])
    {
      k := k - 1;
      assert pieces[k..] == [pieces[k]] + pieces[k + 1..];
      JoinSplit([pieces[k]], pieces[k + 1..]);
      JoinOne(pieces[k]);
      text := pieces[k].s + text;
    }
    assert pieces[0..] == pieces;
  }

  function Top(slots: seq<Value>, n: nat): seq<Value>
    requires n <= |slots|
  {
    slots[|slots| - n..]
  }

  function Under(slots: seq<Value>, n: nat): seq<Value>
    requires n <= |slots|
  {
    slots[..|slots| - n]
  }

  /** The top n slots replaced by the one string they spell. */
  function Merged(slots: seq<Value>, n: nat): seq<Value>
    requires n <= |slots|
  {
    Under(slots, n) + [Str(Join(Top(slots, n)))]
  }

  /** The top n slots are strings spelling this text, on these slots. */
  predicate Spells(slots: seq<Value>, n: nat, below: seq<Value>, text: string) {
    n <= |slots| && Under(slots, n) == below && AllStrings(Top(slots, n)) && Join(Top(slots, n)) == text
  }

  lemma PushOnTop(slots: seq<Value>, n: nat, v: Value)
    requires n <= |slots|
    ensures Top(slots + [v], n + 1) == Top(slots, n) + [v]
    ensures Under(slots + [v], n + 1) == Under(slots, n)
  {
  }

  lemma PushPiece(slots: seq<Value>, n: nat, below: seq<Value>, text: string, more: string)
    requires Spells(slots, n, below, text)
    ensures Spells(slots + [Str(more)], n + 1, below, text + more)
  {
    PushOnTop(slots, n, Str(more));
    JoinLast(Top(slots, n), Str(more));
  }

  lemma SplitTop(slots: seq<Value>, n: nat, t: nat)
    requires t <= n <= |slots|
    ensures Top(slots, n) == Top(Under(slots, t), n - t) + Top(slots, t)
    ensures Under(Under(slots, t), n - t) == Under(slots, n)
  {
  }

  lemma PartsAreStrings(a: seq<Value>, b: seq<Value>)
    requires AllStrings(a + b)
    ensures AllStrings(a) && AllStrings(b)
  {
    assert forall i | 0 <= i < |a| :: (a + b)[i] == a[i];
    assert forall i | 0 <= i < |b| :: (a + b)[|a| + i] == b[i];
  }

  /** Merging the top t of n pieces changes nothing in what they spell. */
  lemma MergeTop(slots: seq<Value>, n: nat, t: nat, below: seq<Value>, text: string)
    requires Spells(slots, n, below, text) && t <= n
    ensures AllStrings(Top(slots, t)) && Spells(Merged(slots, t), n - t + 1, below, text)
  {
    SplitTop(slots, n, t);
    var rest, top := Under(slots, t), Top(slots, t);
    var first := Top(rest, n - t);
    PartsAreStrings(first, top);
    JoinSplit(first, top);
    PushPiece(rest, n - t, below, Join(first), Join(top));
  }

  lemma OneMorePiece(slots: seq<Value>, t: nat)
    requires t < |slots|
    ensures Join(Top(slots, t + 1)) == Text(slots[|slots| - t - 1]) + Join(Top(slots, t))
  {
    var piece := slots[|slots| - t - 1];
    assert Top(slots, t + 1) == [piece] + Top(slots, t);
    JoinSplit([piece], Top(slots, t));
    JoinOne(piece);
  }

  function MergedLength(slots: seq<Value>, t: nat): nat
    requires t <= |slots|
  {
    |Join(Top(slots, t))|
  }

  /** The length of the piece below the top t. */
  function NextLength(slots: seq<Value>, t: nat): nat
    requires t < |slots|
  {
    |Text(slots[|slots| - t - 1])|
  }

  lemma MergedLengthGrows(slots: seq<Value>, t: nat)
    requires t < |slots|
    ensures MergedLength(slots, t + 1) == NextLength(slots, t) + MergedLength(slots, t)
  {
    OneMorePiece(slots, t);
  }

  /** With t pieces merged there would still be too many, or the next one is shorter. */
  predicate TakesOneMore(slots: seq<Value>, lvl: nat, t: nat)
    requires t < |slots|
  {
    lvl - t + 1 >= PIECE_LIMIT || MergedLength(slots, t) > NextLength(slots, t)
  }

  /** One more is taken exactly while ten or more would be left, or the merged text is longer than
      that piece. */
  lemma TakesOneMoreIff(rest: seq<Value>, piece: Value, merged: seq<Value>, lvl: nat)
    ensures TakesOneMore(rest + [piece] + merged, lvl, |merged|)
            <==> lvl - |merged| >= 9 || |Text(piece)| < |Join(merged)|
  {
    assert Top(rest + [piece] + merged, |merged|) == merged;
  }

  /** The loop of `adjustStack`: the least number of top pieces to merge so that few enough
      remain and the merged one is no longer than the piece below it. */
  method PiecesToMerge(slots: seq<Value>, lvl: nat) returns (toGet: nat)
    requires 1 < lvl <= |slots|
    ensures 1 <= toGet <= lvl && lvl - toGet + 1 < PIECE_LIMIT
    ensures toGet < lvl ==> !TakesOneMore(slots, lvl, toGet)
    ensures forall t | 1 <= t < toGet :: TakesOneMore(slots, lvl, t)
  {
    toGet := 1;
    var topLength := |Text(slots[|slots| - 1])|;
    MergedLengthGrows(slots, 0);
    while true
      invariant 1 <= toGet < lvl && topLength == MergedLength(slots, toGet)
      invariant forall t | 1 <= t < toGet :: TakesOneMore(slots, lvl, t)
      decreases lvl - toGet
    {
      var length := |Text(slots[|slots| - (toGet + 1)])|;
      assert length == NextLength(slots, toGet);
      MergedLengthGrows(slots, toGet);
      if lvl - toGet + 1 >= PIECE_LIMIT || topLength > length {
        topLength := topLength + length;
        toGet := toGet + 1;
      } else {
        break;
      }
      if toGet >= lvl {
        break;
      }
    }
  }

  function TopTwoSwapped(slots: seq<Value>): seq<Value>
    requires |slots| >= 2
  {
    slots[..|slots| - 2] + [slots[|slots| - 1], slots[|slots| - 2]]
  }

  lemma SwappedAbove(rest: seq<Value>, a: Value, b: Value)
    ensures TopTwoSwapped(rest + [a] + [b]) == rest + [b] + [a]
  {
  }

  /** The part of a Lua state that buffers use. */
  class LuaStack {
    var slots: seq<Value>
    const numberText: Number -> string

    /** What lua_tolstring reads. */
    function AsText(v: Value): string
      requires v.Str? || v.Num?
    {
      if v.Str? then v.s else numberText(v.n)
    }

    constructor (numberText: Number -> string)
      ensures slots == [] && this.numberText == numberText
    {
      this.numberText := numberText;
      slots := [];
    }

    /** lua_concat on strings: the top n slots become one, the empty string for none. */
    method Concat(n: nat)
      requires n <= |slots| && AllStrings(Top(slots, n))
      modifies this
      ensures slots == Merged(old(slots), n)
    {
      var first := |slots| - n;
      var text := ConcatText(slots[first..]);
      slots := slots[..first] + [Str(text)];
    }

    /** lua_insert(L, -2): the top slot goes under the one below it. */
    method InsertBelowTop()
      requires |slots| >= 2
      modifies this
      ensures slots == TopTwoSwapped(old(slots))
    {
      var top := |slots|;
      var value := slots[top - 1];
      slots := slots[top - 1 := slots[top - 2]];
      slots := slots[top - 2 := value];
    }
  }

  lemma Resplit(before: string, text: string, count: nat)
    requires count <= |text|
    ensures (before + text[..count]) + text[count..] == before + text
  {
  }

  class Buffer {
    const L: LuaStack
    const buffer: array<char>
    var p: nat
    var lvl: nat

    /** The top lvl of these slots are the buffer's pieces. */
    ghost predicate Holds(slots: seq<Value>)
      reads this
    {
      buffer.Length > 0 && p <= buffer.Length && lvl <= |slots| && AllStrings(Top(slots, lvl))
    }

    ghost predicate Valid(slots: seq<Value>)
      reads this
    {
      Holds(slots) && lvl < PIECE_LIMIT
    }

    /** Everything added so far: the pieces, then the buffer. */
    ghost function Contents(slots: seq<Value>): string
      requires Holds(slots)
      reads this, buffer
    {
      Join(Top(slots, lvl)) + buffer[..p]
    }

    /** What the user had on the stack before. */
    ghost function Below(slots: seq<Value>): seq<Value>
      requires Holds(slots)
      reads this
    {
      Under(slots, lvl)
    }

    /** luaL_buffinit. */
    constructor (L: LuaStack, size: nat)
      requires size > 0
      ensures this.L == L && fresh(buffer)
      ensures Valid(L.slots) && Contents(L.slots) == "" && Below(L.slots) == L.slots
    {
      this.L := L;
      buffer := new char[size];
      p, lvl := 0, 0;
    }

    function Free(): nat
      requires p <= buffer.Length
      reads this
    {
      buffer.Length - p
    }

    /** Pushes what the buffer holds, if anything, as one more piece. */
    method EmptyBuffer() returns (pushed: bool)
      requires p <= buffer.Length
      modifies this, L
      ensures pushed == (old(p) > 0) && p == 0
      ensures lvl == old(lvl) + (if pushed then 1 else 0)
      ensures L.slots == old(L.slots) + (if pushed then [Str(buffer[..old(p)])] else [])
    {
      if p == 0 {
        return false;
      }
      L.slots := L.slots + [Str(buffer[..p])];
      p := 0;
      lvl := lvl + 1;
      return true;
    }

    /** The same with nothing above the pieces: they then spell all that was added. */
    method Flush(ghost below: seq<Value>, ghost text: string) returns (pushed: bool)
      requires Holds(L.slots) && Below(L.slots) == below && Contents(L.slots) == text
      modifies this, L
      ensures pushed == (old(p) > 0) && p == 0 && lvl == old(lvl) + (if pushed then 1 else 0)
      ensures Spells(L.slots, lvl, below, text)
    {
      ghost var pieces := Join(Top(L.slots, lvl));
      PushPiece(L.slots, lvl, below, pieces, buffer[..p]);
      assert p == 0 ==> pieces + buffer[..p] == pieces;
      pushed := EmptyBuffer();
      assert !pushed ==> L.slots == old(L.slots);
    }

    /** Merges top pieces while there are too many, or the merged one would be longer than
        the piece below it. */
    method AdjustStack()
      requires Holds(L.slots)
      modifies this`lvl, L
      ensures Valid(L.slots) && Contents(L.slots) == old(Contents(L.slots)) && Below(L.slots) == old(Below(L.slots))
    {
      if lvl <= 1 {
        return;
      }
      var toGet := PiecesToMerge(L.slots, lvl);
      MergeTop(L.slots, lvl, toGet, Below(L.slots), Join(Top(L.slots, lvl)));
      L.Concat(toGet);
      lvl := lvl - toGet + 1;
    }

    /** luaL_prepbuffer: afterwards the whole buffer is free. */
    method PrepBuffer()
      requires Valid(L.slots)
      modifies this, L
      ensures Valid(L.slots) && Contents(L.slots) == old(Contents(L.slots)) && Below(L.slots) == old(Below(L.slots))
      ensures p == 0
    {
      ghost var below, text := Below(L.slots), Contents(L.slots);
      var pushed := Flush(below, text);
      if pushed {
        AdjustStack();
      }
    }

    /** The memcpy of a text that fits. */
    method Copy(text: string)
      requires Valid(L.slots) && |text| <= Free()
      modifies this`p, buffer
      ensures Valid(L.slots) && p == old(p) + |text|
      ensures Contents(L.slots) == old(Contents(L.slots)) + text
    {
      var k := 0;
      while k < |text|
        invariant k <= |text| && buffer[..p + k] == old(buffer[..p]) + text[..k]
        modifies buffer
      {
        buffer[p + k] := text[k];
        assert buffer[..p + k + 1] == old(buffer[..p]) + text[..k + 1];
        k := k + 1;
      }
      p := p + |text|;
      assert text[..k] == text;
    }

    /** luaL_addlstring and, for a text without zero bytes, luaL_addstring. */
    method AddLString(text: string)
      requires Valid(L.slots)
      modifies this, L, buffer
      ensures Valid(L.slots) && Below(L.slots) == old(Below(L.slots))
      ensures Contents(L.slots) == old(Contents(L.slots)) + text
    {
      ghost var below, contents := Below(L.slots), Contents(L.slots);
      var remaining := text;
      while remaining != ""
        invariant Valid(L.slots) && Below(L.slots) == below
        invariant Contents(L.slots) + remaining == contents + text
        decreases |remaining|
      {
        ghost var soFar := Contents(L.slots);
        var count := AddSome(remaining);
        Resplit(soFar, remaining, count);
        remaining := remaining[count..];
      }
    }

    /** One round of luaL_addlstring's loop: as much as fits after making room. */
    method AddSome(text: string) returns (count: nat)
      requires Valid(L.slots) && text != ""
      modifies this, L, buffer
      ensures 0 < count <= |text|
      ensures Valid(L.slots) && Below(L.slots) == old(Below(L.slots))
      ensures Contents(L.slots) == old(Contents(L.slots)) + text[..count]
    {
      if Free() == 0 {
        PrepBuffer();
      }
      count := if |text| < Free() then |text| else Free();
      Copy(text[..count]);
    }

    /** luaL_addchar, src/lauxlib.h:80-81. */
    method AddChar(c: char)
      requires Valid(L.slots)
      modifies this, L, buffer
      ensures Valid(L.slots) && Below(L.slots) == old(Below(L.slots))
      ensures Contents(L.slots) == old(Contents(L.slots)) + [c]
    {
      if p >= buffer.Length {
        PrepBuffer();
      }
      Copy([c]);
    }

    /** luaL_addvalue: moves the string or number on top of the stack to the end of the
        buffer; any other value is an error, which leaves everything as it was. */
    method AddValue() returns (ok: bool)
      requires L.slots != [] && Valid(Under(L.slots, 1))
      modifies this, L, buffer
      ensures ok == (Top(old(L.slots), 1)[0].Str? || Top(old(L.slots), 1)[0].Num?)
      ensures !ok ==> L.slots == old(L.slots) && p == old(p) && lvl == old(lvl) && buffer[..] == old(buffer[..])
      ensures ok ==> Valid(L.slots) && Below(L.slots) == old(Below(Under(L.slots, 1)))
      ensures ok ==> Contents(L.slots) == old(Contents(Under(L.slots, 1))) + L.AsText(Top(old(L.slots), 1)[0])
    {
      var top := |L.slots| - 1;
      var value := L.slots[top];
      if !value.Str? && !value.Num? {
        return false;
      }
      var text := L.AsText(value);
      L.slots := L.slots[top := Str(text)];
      assert L.slots == Under(old(L.slots), 1) + [Str(text)];
      if |text| <= Free() {
        L.slots := L.slots[..top];
        Copy(text);
      } else {
        MoveTop(text, Under(old(L.slots), 1));
      }
      return true;
    }

    /** The branch of luaL_addvalue for a string too long for the buffer. */
    method MoveTop(text: string, ghost rest: seq<Value>)
      requires L.slots == rest + [Str(text)] && Valid(rest)
      modifies this, L
      ensures Valid(L.slots) && Below(L.slots) == old(Below(rest))
      ensures Contents(L.slots) == old(Contents(rest)) + text
    {
      ghost var below, contents := Below(rest), Contents(rest);
      var pushed := FlushUnder(text, rest, below, contents);
      lvl := lvl + 1;
      assert Contents(L.slots) == contents + text;
      AdjustStack();
    }

    /** The buffered characters go under the top string, which is then one more piece. */
    method FlushUnder(text: string, ghost rest: seq<Value>, ghost below: seq<Value>, ghost contents: string)
      returns (pushed: bool)
      requires L.slots == rest + [Str(text)]
      requires Holds(rest) && Below(rest) == below && Contents(rest) == contents
      modifies this, L
      ensures p == 0 && lvl == old(lvl) + (if pushed then 1 else 0)
      ensures Spells(L.slots, lvl + 1, below, contents + text)
    {
      ghost var pieces, held := Join(Top(rest, lvl)), buffer[..p];
      PushPiece(rest, lvl, below, pieces, held);
      SwappedAbove(rest, Str(text), Str(held));
      pushed := EmptyBuffer();
      if pushed {
        L.InsertBelowTop();
        PushPiece(rest + [Str(held)], lvl, below, contents, text);
      } else {
        assert contents == pieces;
        assert L.slots == rest + [Str(text)];
        PushPiece(rest, lvl, below, contents, text);
      }
    }

    /** luaL_pushresult: one string on top of what was there before, and nothing else. */
    method PushResult()
      requires Valid(L.slots)
      modifies this, L
      ensures L.slots == old(Below(L.slots)) + [Str(old(Contents(L.slots)))]
      ensures Valid(L.slots) && lvl == 1 && Contents(L.slots) == old(Contents(L.slots))
    {
      ghost var below, text := Below(L.slots), Contents(L.slots);
      var pushed := Flush(below, text);
      L.Concat(lvl);
      lvl := 1;
      assert L.slots == below + [Str(text)];
      assert Top(L.slots, 1) == [Str(text)];
      JoinOne(Str(text));
    }
  }

  datatype Addition = AddText(text: string) | AddCharacter(c: char) | AddTop(v: Value) | Prepare

  /** What one call adds; a value that is neither string nor number is an error and adds
      nothing. */
  function Added(a: Addition, numberText: Number -> string): string {
    match a
    case AddText(text) => text
    case AddCharacter(c) => [c]
    case AddTop(v) => if v.Str? then v.s else if v.Num? then numberText(v.n) else ""
    case Prepare => ""
  }

  function AllAdded(additions: seq<Addition>, numberText: Number -> string): string {
    if additions == [] then ""
    else AllAdded(additions[..|additions| - 1], numberText) + Added(additions[|additions| - 1], numberText)
  }

  method AddOne(b: Buffer, a: Addition)
    requires b.Valid(b.L.slots)
    modifies b, b.L, b.buffer
    ensures b.Valid(b.L.slots) && b.Below(b.L.slots) == old(b.Below(b.L.slots))
    ensures b.Contents(b.L.slots) == old(b.Contents(b.L.slots)) + Added(a, b.L.numberText)
  {
    match a
    case AddText(text) => b.AddLString(text);
    case AddCharacter(c) => b.AddChar(c);
    case AddTop(v) => PushAndAdd(b, v);
    case Prepare => b.PrepBuffer();
  }

  lemma OnTop(slots: seq<Value>, v: Value)
    ensures Under(slots + [v], 1) == slots && Top(slots + [v], 1)[0] == v
  {
  }

  /** lua_pushvalue and luaL_addvalue; a caller that survives the error pops its value. */
  method PushAndAdd(b: Buffer, v: Value)
    requires b.Valid(b.L.slots)
    modifies b, b.L, b.buffer
    ensures b.Valid(b.L.slots) && b.Below(b.L.slots) == old(b.Below(b.L.slots))
    ensures b.Contents(b.L.slots) == old(b.Contents(b.L.slots)) + Added(AddTop(v), b.L.numberText)
  {
    ghost var slots := b.L.slots;
    b.L.slots := b.L.slots + [v];
    OnTop(slots, v);
    var ok := b.AddValue();
    if !ok {
      b.L.slots := Under(b.L.slots, 1);
    }
  }

  /** After any additions luaL_pushresult leaves exactly their concatenation. */
  method BuildString(L: LuaStack, bufferSize: nat, additions: seq<Addition>)
    requires bufferSize > 0
    modifies L
    ensures L.slots == old(L.slots) + [Str(AllAdded(additions, L.numberText))]
  {
    var b := new Buffer(L, bufferSize);
    for k := 0 to |additions|
      invariant b.L == L && fresh(b) && fresh(b.buffer)
      invariant b.Valid(L.slots) && b.Below(L.slots) == old(L.slots)
      invariant b.Contents(L.slots) == AllAdded(additions[..k], L.numberText)
    {
      assert additions[..k + 1][..k] == additions[..k];
      AddOne(b, additions[k]);
    }
    assert additions[..|additions|] == additions;
    b.PushResult();
  }
}
