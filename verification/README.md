# A verified model of a Lua 5.1 interpreter's core

The interpreter is written in C++. This project models the parts of it whose correctness spans
many functions and many states, and proves what they are for:

* `LuaTable.dfy` (on `HashNodes.dfy`, `TableContents.dfy`, `Traversal.dfy`): the Lua table, a dense
  array part and an open-addressing hash part with Empty, Live and Dead slots. The class keeps a
  ghost finite map next to its fields, and `Valid()` ties the two together. `TableRuns.dfy` proves
  that any sequence of operations is explained by the same sequence on the map.
  `TraversalTheorems.dfy`, `Migration.dfy`, `Assignments.dfy` and `AssignmentTraps.dfy` say exactly
  when a traversal with `next` survives assignments to existing fields; `Pairs.dfy` runs such loops
  on the table itself, `TraversalExamples.dfy` builds tables that do not survive them. `Borders.dfy`
  says what hidden keys do to `length`.
* Clients that rely on the table: `References.dfy` (`luaL_ref` and `luaL_unref`), `Metatable.dfy`
  (the cache of absent metamethods), `StringPool.dfy` (interning), `ConstantPool.dfy` (constants and
  local variable records of a function prototype).
* `Scheduler.dfy`: the statuses of all coroutines after any script of nested resumes, as a function of
  those before. `Coroutine.dfy`: the protocol on objects with caller links, proved to do that.
  `ResumeFrame.dfy`: the two stack rearrangements of a resume.
* `ControlFlow.dfy`, `ControlFlowTheorems.dfy`: leaders, blocks and edges of the control-flow graph,
  and that every run of the bytecode is a path in it. `Opcode.dfy` is the 32-bit instruction format,
  `Decoder.dfy` links the two.
* `StringBuffer.dfy`, `Substitution.dfy`: the `luaL_Buffer` rope and `luaL_gsub`.

## How the source is read

* A `std::vector` field is a `seq` field that the methods reassign. Integers are unbounded where the
  code guards their range; the i32 and usize limits appear as `I32_MAX` and `USIZE_MAX` where it
  compares with them. Instruction words are 32-bit vectors with the source's shifts and masks;
  a setter that overwrites a word through a reference is a function from the old word to the new.
* The hash of a value is an arbitrary function of the value. A slot is the hash modulo the capacity,
  which `Valid()` proves a power of two, so this is the source's mask. Each table has constant
  resource limits; an array limit does not exceed the largest i32.
* Numbers are integers, other numbers, and NaN, which equals nothing; minus zero and zero are one
  value. A string is its content; `StringPool.dfy` proves that the pointers compared by the source
  are equal exactly if the contents are.
* An exception is a result value; what it leaves behind is part of the contract. Failures of
  allocation in the constant pool and string pool are parameters (`insertFails`, `Luck`).
* Running a coroutine is a `Script`: how it is prepared, any sequence of creations and nested
  resumes, and how it ends. A resume that leaves the caller links tangled ends the run.
* Whoever resumes a coroutine is the running coroutine, or the main thread when there is none: the
  state `callerL` passed to `Thread::resume` is taken to be its state.
* `Steps` is what the handlers in `src/vm/vm_handlers` do with the program counter, widened where
  the opcode comments in `src/compiler/opcode.hpp` say something else: a test may take its companion
  jump itself, as the handlers do, or leave it to be executed as an instruction.

## Where promises fail

Each of these is proved, with the exact condition.

* **Assignments during a traversal.** The manual lets a caller assign to, and clear, existing fields
  during a traversal. Nothing is lost and nothing repeated, whatever is assigned when, if and only if
  the table is `Steady` at the start (`AssignmentTraps.FaithfulIffSteady`): clearing no array entry
  can make `next` jump, over a stale node of its own key, past another entry; and a key that its next
  assignment moves to the array part is the only such key, has nothing between its new slot and its
  node, and meets no stale node. With assignments in place only, the first half is the exact
  condition (`NothingMissedIffResumable`). For one moving key and one current entry,
  `MigrationIsHarmlessIff` says when the move is harmless. After `t[2]`, `t[1]`, `t[2]`, `t[3]` have
  been set, clearing 2 loses 3 (`SetTwoOneTwoThree`); after `t[2]`, `t[1]`, `t.x`, assigning 2 while x
  is current loses 2 if x lies ahead of it (`SetTwoOneField`).
* **Length is a border.** `setArrayRange` hides keys exactly if one lies in the gap it leaves behind
  the array part; any hidden key can be made to mislead `length` (`HiddenKeyMisleadsLength`). The
  result is a border if and only if `MissesBorder` is false of the table before the call: with a nil
  last slot, the slot where the bisection ends hides no key; else the doubling search does not give
  up right below a key (`PowersOverrun` has keys for which it does), and does not end at the largest
  i32 with a key right above it.
* **Resuming a Normal coroutine.** `Thread::resume` rejects only Dead and Running targets. A Normal
  target leaves caller links that are no chain, whether the coroutine is linked or fails before. Every
  other resume restores the chain: `Resume` and `Execute` leave it if and only if `ResumeFate` and
  `ActionsFate`, functions of the statuses before the call, come upon no Normal target. Scripts in
  which no coroutine names one that waits for it never do (`AncestorsLeftAlone`).
* **First frames.** Missing parameters are pushed at the physical end of the stack, while the base is
  computed from the logical top. Values that `lua_setfenv`, `lua_replace` and others leave above the
  logical top therefore become missing parameters (`FixedFrameRightIff`, `StaleValueBecomesParameter`),
  and under varargs anything left there, nil included, shifts the parameters
  (`VarargFrameRightIff`, `FirstParameterLost`).
* **Releasing references.** A release leaves a free list if and only if the number is positive and not
  free already (`ReleaseKeepsListIff`); one released twice is handed out twice
  (`TwiceReleasedIsTwiceHandedOut`). A new reference is fresh if and only if there is a free slot or
  `length` finds a border (`References.ReferenceTable.Ref`).
* **Tail calls of C functions.** The graph treats TAILCALL as a return; the handler goes on at the
  next instruction after a C function. No edge covers that step (`TailCallReturnIsNotCovered`).
* **Companion jumps.** If another instruction leads to the jump behind a test, the graph lacks the
  test's skip edge, and only then (`PairedIff`).
* **Data words.** The graph reads the words behind SETLIST and CLOSURE as instructions. Where they are
  whole, it shows the way over them if and only if the last one does not read as a jump away, a return
  or a skip (`DataDrawnIff`). In a constructor of 26651 items the raw block number 534 reads as a jump
  out of the code (`LargeConstructorIsNotCovered`). Together: an instruction's steps are covered if and
  only if it `IsDrawn` (`StepIsCoveredIff`).
* **sBx operands** survive encoding exactly between -131071 and 131072 (`SBxRoundTrips`).

## Model

| member | source | states |
|---|---|---|
| `HashNodes.ProbeMiss` | src/core/table.cpp:547-551 | An Empty slot on the probe path of a key proves that no node carries the key. |
| `HashNodes.ProbeExhausted` | src/core/table.cpp:547-557 | A probe that has seen every slot without a match proves that no node carries the key. |
| `HashNodes.OneNode` | src/core/table.cpp:539-558 | A node that carries a key, Live or Dead, is the only one: every other node that matches it is the same. |
| `HashNodes.InsertKeepsProbeOk` | src/core/table.cpp:601-619 | A new key written to the first slot of its probe path that is not Live keeps keys unique and every probe path free of Empty slots. |
| `HashNodes.ReplaceKeepsProbeOk` | src/core/table.cpp:571-594 | Overwriting, reviving or killing a node in place keeps the probe invariant. |
| `HashNodes.EmptySlotExists` | src/core/table.cpp:601-619 | A node array with fewer used nodes than slots has an Empty slot, so the insertion probe ends. |
| `HashNodes.FindInsertSlot` | src/core/table.cpp:597-619 | The insertion probe ends at the first slot on the path of the key that is not Live: a tombstone before any Empty slot. |
| `HashNodes.Reinsert` | src/core/table.cpp:668-677 | Re-inserting one node into an array with room ends and keeps the probe invariant and the other nodes. |
| `HashNodes.Rebuild` | src/core/table.cpp:656-680 | A rehash copies exactly the Live nodes, leaves no Dead one, and establishes the probe invariant at the new capacity. |
| `HashNodes.RoundCapacity` | src/core/table.cpp:657-663 | The doubling loop returns the least power of two, from 8 on, that holds the request, for every request, or reports that none fits a usize. |
| `HashNodes.RoomAfterRehash` | src/core/table.cpp:638-654 | Whichever branch is taken, same size or doubled, the capacity stays admissible and the Live nodes plus the pending one stay within three quarters. |
| `HashNodes.HomeIsRemainder` | src/core/table.cpp:539-547 | Whatever is left of a hash once multiples of the capacity are taken off is its home slot. |
| `HashNodes.DoublingAddsOneBit` | src/core/table.cpp:539-547 | The home slot in twice the capacity has one more bit of the hash, so for powers of two it is what the mask keeps. |
| `HashNodes.NextSlotIsMasked` | src/core/table.cpp:547-557 | The probe goes on to the slot one higher, around the end. |
| `HashNodes.NextSlotIsOneFurther` | src/core/table.cpp:547-557 | Each step of the probe is one further from home, until the probe is back there. |
| `HashNodes.LoadIsThreeQuarters` | src/core/table.cpp:638-654 | Within the load bound means at most three quarters of the slots used, at every admissible capacity. |
| `TableContents.ReadBack` | src/core/table.cpp:93-111 | Looking a key up in the array slot and then among the Live nodes gives the value of the denoted map. |
| `TableContents.LiveNodesHaveEntries` | src/core/table.cpp:582-584 | The map has at least as many entries as there are Live nodes, so a full hash part means a full map. |
| `TableContents.OneMap` | src/core/table.cpp:93-111 | The two parts of a table denote exactly one finite map. |
| `TableContents.StoreInArray` | src/core/table.cpp:246-250 | Writing an array slot and dropping the same key from the hash part is one assignment on the map. |
| `TableContents.DropFromHash` | src/core/table.cpp:627-636 | Killing the Live node of a key removes exactly that key from the map. |
| `TableContents.StoreInHash` | src/core/table.cpp:569-619 | Writing a Live node for a key outside the array part is one assignment on the map. |
| `TableContents.RearrangeHash` | src/core/table.cpp:665-679 | Any node array with the same Live nodes denotes the same map. |
| `TableContents.SweptContents` | src/core/table.cpp:362-397 | Sweeping slots and nodes removes exactly the entries whose key or value the collector frees. |
| `TableContents.RangeHidesTheGap` | src/core/table.cpp:219-250 | A range assignment on a table without hidden keys hides one if and only if a key lies between the end of the array part and the range. |
| `TableContents.AssignRangeLookup` | src/core/table.cpp:247-250 | After a range assignment the keys of the range have its values and all other keys the ones they had. |
| `TableContents.PowersOverrun` | src/core/table.cpp:301-309 | With one array slot, the powers of two from 2 on and the numbers right above them as keys, length misses the border. |
| `TableContents.NoHugeNoMiss` | src/core/table.cpp:264-321 | Without hidden keys and without keys above half of the i32 maximum length finds a border. |
| `LuaTable.Table.constructor` | src/core/table.cpp:74-79 | A new table is valid and denotes the empty map. |
| `LuaTable.Table.FindHashNode` | src/core/table.cpp:539-558 | The probe loop ends and finds a node of the key if and only if there is one, with or without Dead ones. |
| `LuaTable.Table.Get` | src/core/table.cpp:93-111 | The value of the key in the map, nil if it has none, for every key. |
| `LuaTable.Table.Has` | src/core/table.cpp:139-152 | True exactly for the keys of the map. |
| `LuaTable.Table.Remove` | src/core/table.cpp:154-171 | The map loses the key and nothing else; no entry moves, so a traversal may go on; no key becomes hidden. |
| `LuaTable.Table.RemoveHash` | src/core/table.cpp:627-636 | Every Live node of the key dies, all other nodes stay, and the counts stay exact. |
| `LuaTable.Table.Clear` | src/core/table.cpp:173-183 | The map becomes empty. |
| `LuaTable.Table.Set` | src/core/table.cpp:113-137 | Map update, or a stated failure that leaves the table alone: a nil or NaN key exactly then, the entry limit exactly when a new key needs an entry that the full hash part cannot have, no other limit; a value for an integer key up to one behind the array part, under the limit, goes to its slot there and its node dies, any other value leaves the array part alone; assigning an existing key is an in-place change or that move; no key becomes hidden. |
| `LuaTable.Table.SetValue` | src/core/table.cpp:126-136 | The same for a value other than nil: array slot exactly for the keys the array part takes, hash part for all others. |
| `LuaTable.Table.SetHash` | src/core/table.cpp:569-625 | Map update through the hash part; it reports the entry limit exactly for a new key in a full table, and an existing key moves no node. |
| `LuaTable.Table.InsertNew` | src/core/table.cpp:596-620 | A key without a node gets one: map update with the invariant kept. |
| `LuaTable.Table.SetArrayRange` | src/core/table.cpp:219-254 | Assigns the whole range, slot by slot and with the hash nodes of its keys dropped, or fails leaving the table alone, exactly when the array limit is exceeded; hides a key if and only if one lies in the gap. |
| `LuaTable.Table.WriteRange` | src/core/table.cpp:247-250 | The loop of slot writes and hash removals is the range assignment on the map and moves no node. |
| `LuaTable.Table.SetArray` | src/core/table.cpp:204-217 | One positive index assigned, or removed where nil lies beyond the array part; indexes below 1 are ignored. |
| `LuaTable.Table.Rehash` | src/core/table.cpp:656-680 | The same Live nodes, no Dead one, the requested capacity and exact counts; on failure nothing changes. |
| `LuaTable.Table.EnsureHashInsertCapacity` | src/core/table.cpp:638-654 | Room for one more node within three quarters of the capacity: first 8 slots, the same number while there is room or dead nodes prevail, else twice as many; the map unchanged, and no key gets a node that had none. |
| `LuaTable.Table.Length` | src/core/table.cpp:264-321 | For every table the result is a border if and only if none of three situations holds that can be read off the table before the call; with a nil last slot it is a border of the array part, and a full array part with no key right behind it is the result. |
| `LuaTable.Table.HasIntegerKey` | src/core/table.cpp:265-278 | True exactly for the integer keys of the map between 1 and the i32 maximum. |
| `LuaTable.BisectArray` | src/core/table.cpp:280-294 | The bisection ends at a nil array slot whose predecessor, if any, is not nil. |
| `LuaTable.Table.UnboundSearch` | src/core/table.cpp:301-320 | The search ends exactly where the doubling gives up, or where the bisection of the last interval ends, at a key or 0 with nothing behind it that fits an i32. |
| `LuaTable.Table.SearchBetween` | src/core/table.cpp:311-320 | The bisection ends at a key, or 0, whose successor is no key unless the i32 range ends there. |
| `LuaTable.Table.NextLiveHashNode` | src/core/table.cpp:560-567 | The first Live node from an index on, or the end. |
| `LuaTable.Table.Next` | src/core/table.cpp:416-483 | The first entry behind the place where the key resumes, the end, or an invalid key exactly if the key is not nil, no index of the array part, and carried by no node, Live or Dead. |
| `LuaTable.Table.RemoveWeakEntries` | src/core/table.cpp:362-397 | An entry stays if and only if neither its key is weak and dead nor its value is; entries that stay keep their values; no entry moves, so a traversal may go on; no key becomes hidden. |
| `LuaTable.Table.SweepNodes` | src/core/table.cpp:375-392 | A Live node dies if and only if its weak key or its weak value is dead; every other node stays as it is, with the live count exact. |
| `TableRuns.Perform` | src/core/table.cpp:93-254 | Every operation, cached metamethod lookups and collections included, does to the table what it does to the map, and reports what the map says; a range is refused exactly beyond the array limit, a value for a key only if the key is no key or is new and the map has as many entries as nodes are allowed. |
| `TableRuns.RunTable` | src/core/table.cpp:93-254 | Every sequence of operations on a table is explained, observation by observation, refusals included, by the same sequence on a finite map with the limits of the table. |
| `Traversal.FirstFromIs` | src/core/table.cpp:416-483 | A position that is occupied, with nothing occupied in between, is the one the scan finds. |
| `TraversalTheorems.ResumesBehind` | src/core/table.cpp:443-479 | On an unmodified table the key of any entry resumes the scan right behind that entry, with stale Dead nodes and with integer keys in the hash part. |
| `TraversalTheorems.PositionsAreKeys` | src/core/table.cpp:416-483 | Positions of a table and keys of its map correspond one to one, with the right values. |
| `TraversalTheorems.StepGoesOn` | src/core/table.cpp:443-479 | In a resumable table, whatever has been cleared or reassigned since, the next call reports the first remaining entry behind the current one. |
| `TraversalTheorems.StaysResumable` | src/core/table.cpp:154-171 | Clearing and assigning existing entries in place keeps a table resumable. |
| `TraversalTheorems.TraversalUnderModification` | src/core/table.cpp:416-483 | A traversal with in-place changes of existing entries in between, collections included, from a resumable table, goes strictly forward, reports only present entries, and misses none that survives. |
| `TraversalTheorems.TrapLosesEntry` | src/core/table.cpp:443-479 | For every table with an array entry whose old node lies beyond another entry there is a traversal that clears the former and never reports the latter. |
| `TraversalTheorems.NothingMissedIffResumable` | src/core/table.cpp:443-479 | Traversals with in-place changes and clearing miss nothing if and only if the table they start on is resumable. |
| `Migration.MigratedIsTable` | src/core/table.cpp:246-250 | Moving a key from its node to its slot, growing the array part by one if needed, gives a valid table with one assignment made. |
| `Migration.ShiftedEntry` | src/core/table.cpp:246-250 | Every other entry is found at its shifted position after the move. |
| `Migration.ResumeShifted` | src/core/table.cpp:443-479 | Every other key resumes the scan at the shifted position after the move. |
| `Migration.MigrationIsHarmlessIff` | src/core/table.cpp:416-483 | While an entry is current, moving a key leaves the rest of the traversal as it was if and only if the key moves within what is ahead, or was already behind, or is the current one with nothing between its new slot and its node. |
| `Assignments.CallStaysOnTrack` | src/core/table.cpp:416-483 | A call of next reports the next unreported entry, so that exactly the entries before the scan have been reported. |
| `Assignments.InPlaceStaysOnTrack` | src/core/table.cpp:154-171 | An in-place change keeps that, and the table steady. |
| `Assignments.MoveStaysOnTrack` | src/core/table.cpp:246-250 | So does the move of a key to the array part. |
| `Assignments.SteadyIsFaithful` | src/core/table.cpp:416-483 | Over every traversal of a steady table with assignments to existing fields in between, exactly the entries before the scan have been reported. |
| `AssignmentTraps.ClearingLoses` | src/core/table.cpp:443-479 | If clearing a current entry can make the scan jump past another one, some traversal loses that one. |
| `AssignmentTraps.MovingLoses` | src/core/table.cpp:246-250 | If an entry lies between the new slot of a key and its node, some traversal loses the key. |
| `AssignmentTraps.ClearingAndMovingLose` | src/core/table.cpp:443-479 | If a key can move and an earlier array entry has a stale node, some traversal loses the key. |
| `AssignmentTraps.SuccessorLoses` | src/core/table.cpp:513-527 | If the next key could move after this one, some traversal loses it. |
| `AssignmentTraps.FaithfulIffSteady` | src/core/table.cpp:416-483 | Every traversal with assignments to existing fields reports no key twice and misses none that stays, if and only if the table is steady at the start. |
| `AssignmentTraps.NoIntegerNodesIsSteady` | src/core/table.cpp:416-483 | A table without integer keys among its nodes is steady. |
| `TraversalExamples.SetTwoOneTwoThree` | src/core/table.cpp:113-137 | Setting 2, 1, 2, 3 on a new table yields one on which clearing 2 loses 3. |
| `TraversalExamples.SetTwoOneField` | src/core/table.cpp:113-137 | Setting 2, 1 and a field on a new table, which succeeds if two entries fit, yields one on which assigning 2 loses 2, if the field is ahead of it. |
| `TraversalExamples.LoseTwo` | src/core/table.cpp:113-137 | With a hash that sends 2 to slot 1 and all else to slot 0, the field is ahead, so assigning 2 loses 2. |
| `Pairs.CollectPairs` | src/api/lapi.cpp:1715-1737 | The pairs loop over an unmodified table ends and collects exactly the entries of the map, each once. |
| `Pairs.MakeMove` | src/api/lapi.cpp:1715-1737 | One call of next, assignment to an existing field or collection in such a loop does what it does to the map and keeps the traversal on track. |
| `Pairs.TraverseAssigning` | src/api/lapi.cpp:1715-1737 | A loop over a steady table with any script of calls, assignments and collections reports one distinct field per call, ends with the map the assignments give, and at the end has reported every key that is there. |
| `Borders.HiddenKeyMisleadsLength` | src/core/table.cpp:264-321 | Every hidden key can be made to mislead length: with the slots below filled and those above emptied, the result is no border. |
| `Borders.HiddenKeysMatterIff` | src/core/table.cpp:264-294 | As long as the last slot is nil, length finds a border whatever is assigned inside the array part, if and only if no key is hidden. |
| `References.FreeListKept` | src/api/lapi.cpp:1955-1966 | Assigning a slot that is not on the free list leaves the list. |
| `References.TakeFree` | src/api/lapi.cpp:1955-1966 | Recycling the first free slot keeps the list and hands out a reference that was not in use. |
| `References.Unlink` | src/api/lapi.cpp:1955-1957 | After the first of the two writes the list is one shorter; if the second fails only the free slot is lost. |
| `References.PutBack` | src/api/lapi.cpp:1969-1980 | Releasing a positive number that is not free puts its slot in front of the free list and leaves all other references. |
| `References.InUseIfHeld` | src/api/lapi.cpp:1958-1966 | With no free slot, a slot is in use exactly if it holds something. |
| `References.StoreBehind` | src/api/lapi.cpp:1958-1966 | With no free slot, storing a value in any slot makes that slot the reference of the value and keeps everything sound. |
| `References.ReleasingFreeMakesCycle` | src/api/lapi.cpp:1969-1980 | Releasing slot 0 or a slot that is free leaves no list that ends. |
| `References.ReleaseKeepsListIff` | src/api/lapi.cpp:1969-1980 | A release leaves a free list if and only if it releases a positive number that is not free. |
| `References.TwiceReleasedIsTwiceHandedOut` | src/api/lapi.cpp:1942-1980 | After two releases of a reference the next two acquisitions both find it. |
| `References.DenseAcquire` | src/api/lapi.cpp:1942-1967 | References in use and free slots together are 1 to top; with no free slot the new one is exactly top + 1. |
| `References.DenseIsNotHuge` | src/api/lapi.cpp:1958-1964 | Under the table limits such a table stays clear of the keys at which length gives up. |
| `References.ReferenceTable.Ref` | src/api/lapi.cpp:1942-1967 | nil gives the nil reference; any other value a positive reference, the first free one if there is one, which is new if and only if there is a free slot or length finds a border; a failure leaves the references in use alone and happens only at a limit. |
| `References.ReferenceTable.Unref` | src/api/lapi.cpp:1969-1980 | For every number: a negative one is ignored; a positive one that is not free is released and becomes the first free one; for any other the two writes are made; a failure happens only at a limit and frees nothing. |
| `References.RunReferences` | src/api/lapi.cpp:1942-1980 | The log of every run of acquisitions and releases explains the references held: each acquisition gave a positive number not held at that moment, each release removed one; every one held reads back its own value; references and free slots are packed; the run ends early only at a refused call, at a limit. |
| `Metatable.MarkAbsent` | src/core/metatable.cpp:63-66 | Setting the bit of an absent event keeps every set bit truthful. |
| `Metatable.GetMetamethod` | src/core/metatable.cpp:38-69 | The cached lookup returns what a direct lookup would; the bit of an event is set exactly when it was or the event is found absent; the contents stay. |
| `Metatable.FastMetamethod` | src/core/metatable.cpp:123-130 | The same for the cached events; an error for the others, and the bit set exactly on absence. |
| `Metatable.GetComparisonTM` | src/core/metatable.cpp:238-269 | One metatable gives its handler; two give the handler they have in common, and nil if their handlers are not equal; the same in either order. |
| `StringPool.Pool.PointerEqualityIsContentEquality` | src/core/string_pool.cpp:30-65 | Two live strings are one object if and only if their contents are equal. |
| `StringPool.Pool.Intern` | src/core/string_pool.cpp:30-65 | The one object of a content, old or new, also if the content is interned while the object is made; every failure leaves pool and objects as they were. |
| `StringPool.Pool.Find` | src/core/string_pool.cpp:70-77 | The object of the content, or none exactly if no live string has it. |
| `StringPool.Pool.Remove` | src/core/string_pool.cpp:82-96 | Drops the entry of exactly this object, never of another one with the same content. |
| `ConstantPool.Proto.AddConstant` | src/core/function.cpp:48-108 | The index holds an equal constant, the first one; nil, a boolean, a string, or a number equal to itself is stored only if it is not there yet; a NaN is stored each time; a failed insertion changes nothing. |
| `ConstantPool.Proto.AppendConstantSlot` | src/core/function.cpp:110-133 | The constant goes to the next position; no existing first occurrence changes; a failure changes nothing. |
| `ConstantPool.Proto.GetConstant` | src/core/function.cpp:135-148 | The constant at the index, or an error exactly beyond the end. |
| `ConstantPool.Proto.LoadThenAdd` | src/core/function.cpp:48-133 | Loading a list slot by slot keeps every position, and adding one of its constants gives its first position. |
| `ConstantPool.Proto.AddTwice` | src/core/function.cpp:48-108 | Adding nil, a boolean, a string, or a number equal to itself twice gives one index twice, and one constant more at most. |
| `ConstantPool.FindableIff` | src/core/function.hpp:60-87 | The constants that can be found again are exactly nil, booleans, numbers and strings that equal themselves. |
| `ConstantPool.GetLocalVarInfo` | src/core/function.cpp:226-238 | The record found starts at or before pc and ends behind it, and is number localNumber among those that do; none is found if and only if there are fewer among the records up to the first that starts later; where number 1 is not found, all of those end at or before pc. |
| `ConstantPool.SortedRecordsAllCount` | src/core/function.cpp:226-238 | With records in the order of their starts those are all active records. |
| `ConstantPool.UnsortedRecordOutOfReach` | src/core/function.cpp:226-238 | Two records out of order of which the active one is not counted. |
| `Coroutine.WhereStatusIs` | src/core/thread.cpp:151-166 | Only the head of the chain is Running, Normal threads are on it, all others are off it and have no caller. |
| `Scheduler.ResumeRestores` | src/core/thread.cpp:151-166 | A resume that returns, by yield, return or error, leaves every Running, Normal and Dead coroutine as it was, the same one running, and all others Suspended or Dead. |
| `Scheduler.ActionsRestore` | src/core/thread.cpp:392-394 | So does any sequence of creations and resumes. |
| `Scheduler.RunsUntouched` | src/core/thread.cpp:225-230 | Nothing a running coroutine does changes its own status. |
| `Scheduler.WithoutNestedResumes` | src/core/thread.cpp:225-230 | A coroutine that resumes nothing is tangled if and only if it was Normal when resumed. |
| `Scheduler.AncestorsLeftAlone` | src/core/thread.cpp:225-230 | A script in which no coroutine names one that waits for it tangles nothing, whatever the statuses. |
| `Coroutine.Runtime.CreateThread` | src/core/thread.cpp:38-41 | A new thread is Suspended, off the chain, and leaves the chain valid. |
| `Coroutine.Runtime.Enter` | src/core/thread.cpp:371-381 | The link step extends the chain by the target if it was Suspended; if it was Normal the caller links are no chain afterwards. |
| `Coroutine.Runtime.Restore` | src/core/thread.cpp:151-166 | Undoes the link step: the caller is Running again and the chain is the old one. |
| `Coroutine.Runtime.AbortResume` | src/core/thread.cpp:462-501 | The coroutine is Dead without a caller, off the chain if it headed it, and the rest is a valid chain; if it was a Normal one the links are no chain any more. |
| `Coroutine.Runtime.Execute` | src/core/thread.cpp:392-394 | Any sequence of creations and nested resumes ends with the statuses the schedule computes and the chain as before, or tangled if and only if the schedule says so; Dead threads stay Dead. |
| `Coroutine.Runtime.Activate` | src/core/thread.cpp:371-427 | Linking, running and unlinking a Suspended target restores the chain and the running thread, with all statuses as the schedule computes them, or is tangled if and only if its script is. |
| `Coroutine.Runtime.Resume` | src/core/thread.cpp:222-460 | For every target and script: the links are tangled if and only if the schedule, computed from the statuses before the call, comes upon a Normal target past the argument check; otherwise the running thread and the whole chain are restored and every status is as computed. It succeeds if and only if a Suspended target could run and yielded or returned; a target that ran is Suspended after a yield and Dead otherwise, one that could not is Dead, one refused is unchanged, and Dead threads stay Dead. |
| `Coroutine.RunMain` | src/core/thread.cpp:222-460 | From no coroutines on, a main thread that does anything ends up running again with no chain and the statuses computed, or tangled if and only if the schedule says so. |
| `Coroutine.Runtime.DenotesOrderly` | src/core/thread.cpp:371-381 | In every valid state the running coroutine is the one that is Running. |
| `Coroutine.Runtime.DenotesOne` | src/core/thread.cpp:151-166 | The statuses and the running coroutine of a runtime determine its schedule. |
| `ResumeFrame.CoroutineStack.FirstFrame` | src/core/thread.cpp:258-309 | For any argument count, parameter count, frame size and vararg flag: with nothing above the arguments, each parameter is its argument or nil; without varargs it is the slot that was there or nil; every register behind the parameters is nil; and exactly what the registers, the varargs below base and the untouched slots hold, whatever lies above the arguments. |
| `ResumeFrame.FixedFrameRightIff` | src/core/thread.cpp:284-290 | Without varargs the parameters are right if and only if every slot left above the arguments that becomes a missing parameter is nil. |
| `ResumeFrame.StaleValueBecomesParameter` | src/core/thread.cpp:284-290 | A value left above a function called without arguments is its first parameter. |
| `ResumeFrame.VarargFrameRightIff` | src/core/thread.cpp:269-283 | Under varargs, for each argument count, the parameters are right for all arguments if and only if there are none, or nothing lies above the arguments, or there are no arguments and the slots read instead are nil. |
| `ResumeFrame.FirstParameterLost` | src/core/thread.cpp:269-283 | Under varargs, with at least one argument and anything above the arguments, the first parameter is not the first argument but a slot from above. |
| `ResumeFrame.CoroutineStack.MoveArguments` | src/core/thread.cpp:322-330 | The copy is right for any overlap of source and target, and fails exactly if the target does not fit. |
| `ResumeFrame.CoroutineStack.PadResults` | src/core/thread.cpp:332-337 | Missing results become nil, nothing else changes, and it fails exactly if they do not fit. |
| `ResumeFrame.CoroutineStack.ClearOutside` | src/core/thread.cpp:345-349 | Exactly the argument slots outside the results become nil. |
| `ResumeFrame.CoroutineStack.ResumeFromYield` | src/core/thread.cpp:311-363 | Result k is argument k, or nil beyond the last, up to the wanted count; argument slots, old and new, outside the results are nil; all other slots are unchanged, whatever the overlap; it fails exactly if they do not fit. |
| `Opcode.OpcodeDecodes` | src/compiler/opcode.hpp:204-249 | The opcode survives encoding with any operands in range. |
| `Opcode.ADecodes` | src/compiler/opcode.hpp:211-249 | Operand A survives encoding with any other operands in range. |
| `Opcode.BDecodes` | src/compiler/opcode.hpp:218-249 | Operand B survives encoding with any other operands in range. |
| `Opcode.CDecodes` | src/compiler/opcode.hpp:225-249 | Operand C survives encoding with any other operands in range. |
| `Opcode.EveryWordIsABC` | src/compiler/opcode.hpp:204-264 | Decoding and encoding again gives back every 32-bit word, in all three formats. |
| `Opcode.BxDecodes` | src/compiler/opcode.hpp:232-257 | Bx decodes to its low 18 bits. |
| `Opcode.BxLeavesOpcodeAndA` | src/compiler/opcode.hpp:254-264 | No Bx, in range or not, disturbs opcode or A. |
| `Opcode.SBxRoundTrips` | src/compiler/opcode.hpp:239-264 | sBx survives encoding if and only if it lies in [-131071, 131072]. |
| `Opcode.SetASetsOnlyA` | src/compiler/opcode.hpp:269-271 | Setting A gives the word with that A and all other fields as before. |
| `Opcode.SetBSetsOnlyB` | src/compiler/opcode.hpp:276-278 | Setting B gives the word with that B and all other fields as before. |
| `Opcode.SetCSetsOnlyC` | src/compiler/opcode.hpp:283-285 | Setting C gives the word with that C and all other fields as before. |
| `Opcode.SetSBxSetsOnlySBx` | src/compiler/opcode.hpp:290-293 | Setting sBx gives the word with that sBx and opcode and A as before. |
| `Opcode.RkRoundTrip` | src/compiler/opcode.hpp:302-318 | An encoded constant index reads as a constant, and survives if and only if it had no constant bit. |
| `Opcode.FieldsAreDigits` | src/compiler/opcode.hpp:197-264 | An ABC word is the opcode plus 64 times A, 16384 times C and 8388608 times B. |
| `Opcode.BxIsDigit` | src/compiler/opcode.hpp:197-264 | An ABx word is the opcode plus 64 times A and 16384 times Bx. |
| `Opcode.ConstantsFromHalfOn` | src/compiler/opcode.hpp:302-318 | Of the RK operands that fit, those from 256 on are constants, 256 above their index. |
| `Decoder.JumpLandsWhereAimed` | src/bytecode/bytecode_printer.cpp:362-364 | An encoded jump, once decoded, goes to pc + 1 + offset if and only if the offset is one the format can hold. |
| `Decoder.PatchedJump` | src/compiler/opcode.hpp:290-293 | Patching the offset of an instruction word changes where it jumps to exactly that offset, and not its opcode. |
| `Decoder.BlockNumberReadsAsJump` | src/compiler/codegen/expression_emitter.cpp:904-912 | The raw block number 534 decodes to a jump by -131071. |
| `Decoder.LargeConstructorIsNotCovered` | src/compiler/codegen/expression_emitter.cpp:904-912 | A SETLIST followed by that word goes on to the next instruction, which no edge covers, although tests are paired and nothing leads to the word. |
| `ControlFlow.CollectCfgLeaders` | src/bytecode/bytecode_printer.cpp:376-430 | The leaders are pc 0 and exactly the instructions some instruction makes one. |
| `ControlFlow.AddLeadersFrom` | src/bytecode/bytecode_printer.cpp:382-427 | One round of the loop adds exactly the leaders its instruction makes, out-of-range ones ignored. |
| `ControlFlowTheorems.LeadersHaveReasons` | src/bytecode/bytecode_printer.cpp:376-430 | Whatever the code, an instruction but the first is a leader if and only if the one before it is a control instruction, or control can go to it from somewhere other than the word right before it. |
| `ControlFlow.BuildCfgBlocks` | src/bytecode/bytecode_printer.cpp:432-457 | The blocks cut the code in order and without gaps, at the leaders and nowhere else. |
| `ControlFlow.BuildPcToBlock` | src/bytecode/bytecode_printer.cpp:459-467 | Every pc is mapped to the block that contains it. |
| `ControlFlow.BuildCfgEdges` | src/bytecode/bytecode_printer.cpp:481-542 | The edges are those of the blocks' last instructions, in order. |
| `ControlFlow.EdgesLeaving` | src/bytecode/bytecode_printer.cpp:481-542 | An edge leaves a block for a target if and only if the block's last instruction gives it one. |
| `ControlFlow.BuildCfgGraph` | src/bytecode/bytecode_printer.cpp:544-556 | For every code the graph has the right blocks, pc map and edges. |
| `ControlFlowTheorems.StraightCodeIsOneBlock` | src/bytecode/bytecode_printer.cpp:432-457 | Code that diverts control nowhere but behind its last instruction has one block in its graph. |
| `ControlFlowTheorems.EdgesHaveReasons` | src/bytecode/bytecode_printer.cpp:481-542 | Every edge of the graph is a step of its block's last instruction, or of the test before its companion jump; the one exception goes on to a data word. |
| `ControlFlowTheorems.LabelsSayWhere` | src/bytecode/bytecode_printer.cpp:481-542 | The label of an edge tells its target: out of the code, the next instruction, the one after, or where the block's last instruction jumps to. |
| `ControlFlowTheorems.StepIsCoveredIff` | src/vm/vm_handlers/vm_handlers_branch.cpp:49-83 | Instruction by instruction, for every code: all its steps but returns from tail calls stay in their block or follow an edge, if and only if it is drawn: its companion jump has no other way in, or the ways over a missing one or over its data words show. |
| `ControlFlowTheorems.CoveredIff` | src/bytecode/bytecode_printer.cpp:481-542 | The graph covers a step if and only if no leader lies between, or the instruction that ends the block goes there. |
| `ControlFlowTheorems.PairedIff` | src/bytecode/bytecode_printer.cpp:388-392 | The steps of a test with its jump are covered if and only if nothing else leads to the jump. |
| `ControlFlowTheorems.DataDrawnIff` | src/vm/vm_handlers/vm_handlers_table.cpp:103-110 | The way over whole data words shows if and only if the last one, read as an instruction, does not jump away, return or skip. |
| `ControlFlowTheorems.TailCallReturnIsNotCovered` | src/vm/vm_handlers/vm_handlers_call.cpp:94-126 | A tail call of a C function that comes back takes a step no edge covers. |
| `ControlFlowTheorems.UnpairedTestIsNotCovered` | src/bytecode/bytecode_printer.cpp:473-479 | If something else leads to a companion jump, skipping it is covered by no edge. |
| `ControlFlowTheorems.CoverageIffTestsArePaired` | src/bytecode/bytecode_printer.cpp:376-542 | With companion jumps present and data words whole and passing on, the graph covers every step but returns from tail calls if and only if companion jumps are reached only through their tests. |
| `ControlFlowTheorems.EdgeTargetsAreLeaders` | src/bytecode/bytecode_printer.cpp:481-542 | Every edge inside the code goes to the first instruction of a block. |
| `ControlFlowTheorems.RunsArePaths` | src/bytecode/bytecode_printer.cpp:616-628 | Every run from pc 0 over drawn instructions, without a returning tail call, projects to a path in the drawn graph that ends at the node of the run's last pc. |
| `StringBuffer.ConcatText` | src/vm/vm_ops.cpp:348-389 | Concatenating from the top down gives the pieces in order. |
| `StringBuffer.MergeTop` | src/api/lauxlib.cpp:158-159 | Replacing the top pieces by their concatenation changes neither what all pieces spell nor what lies below. |
| `StringBuffer.LuaStack.InsertBelowTop` | src/api/lauxlib.cpp:501-503 | The top slot goes under the one below it; no other slot changes. |
| `StringBuffer.Buffer.constructor` | src/api/lauxlib.cpp:455-459 | A new buffer is empty and its stack untouched. |
| `StringBuffer.Buffer.EmptyBuffer` | src/api/lauxlib.cpp:128-137 | What the buffer holds, if anything, becomes one more piece on the stack. |
| `StringBuffer.PiecesToMerge` | src/api/lauxlib.cpp:145-156 | The least number of top pieces whose merge leaves fewer than ten and is no longer than the piece below it. |
| `StringBuffer.TakesOneMoreIff` | src/api/lauxlib.cpp:145-156 | One more piece is merged exactly while ten or more would be left, or the merged text is longer than the piece below it. |
| `StringBuffer.Buffer.AdjustStack` | src/api/lauxlib.cpp:139-160 | Contents and the slots below stay, and fewer than ten pieces remain. |
| `StringBuffer.Buffer.PrepBuffer` | src/api/lauxlib.cpp:461-466 | The whole buffer is free again and the contents are unchanged. |
| `StringBuffer.Buffer.AddLString` | src/api/lauxlib.cpp:468-480 | The contents grow by exactly the text, of any length, and the piece count stays bounded. |
| `StringBuffer.Buffer.AddChar` | src/lauxlib.h:80-81 | The contents grow by exactly the character. |
| `StringBuffer.Buffer.AddValue` | src/api/lauxlib.cpp:487-505 | A string or number on top of the stack moves to the end of the contents, whether it fits or not; anything else is an error that changes nothing. |
| `StringBuffer.Buffer.PushResult` | src/api/lauxlib.cpp:507-511 | Exactly one string, all that was added, on top of what the stack held before. |
| `StringBuffer.BuildString` | src/api/lauxlib.cpp:455-511 | After any sequence of additions the result is their concatenation. |
| `Substitution.StrStr` | src/api/lauxlib.cpp:445 | The first occurrence, if there is one. |
| `Substitution.ReplacedFillsTheCut` | src/api/lauxlib.cpp:445-449 | Every text has a leftmost cut at the pattern, and replacing puts the replacement between its gaps. |
| `Substitution.CutIsUnique` | src/api/lauxlib.cpp:445-449 | There is only one leftmost cut. |
| `Substitution.ReplacingByItself` | src/api/lauxlib.cpp:431-453 | Replacing a pattern by itself gives back the text. |
| `Substitution.ReplacingBack` | src/api/lauxlib.cpp:431-453 | A replacement beginning with a character foreign to the text is undone by the opposite replacement. |
| `Substitution.GSub` | src/api/lauxlib.cpp:431-453 | For every source, pattern, replacement and buffer size: one string, with every leftmost occurrence replaced, or the source itself for an empty pattern. |

## Left out

- `Coroutine.Runtime.Resume`: once a Normal coroutine has been resumed and the links are tangled, the run is not followed any further.
- `Coroutine.Runtime.Execute`: the virtual machine is an arbitrary script of actions; hooks, debugger stops, status codes, error messages and the results published on the caller's stack are not modelled.
- `ResumeFrame.CoroutineStack.FirstFrame`: takes the entry function and the pushed arguments as given, and has no stack limit. `ResumeFrame.FixedFrameRightIff` and `ResumeFrame.VarargFrameRightIff` are about arguments that lie right above the function.
- `ConstantPool.Proto.AddConstant`: a NaN constant is never found again and is stored each time, as in the source.
- `References.RunReferences`: a release of a number that is not held is not made, and the run ends at the first refused call; `References.ReferenceTable.Unref` and `References.ReleaseKeepsListIff` say what such a release does.
- `LuaTable.Table.RemoveWeakEntries`: the collector's decision is a pair of predicates, with numbers never dead.
- `ControlFlowTheorems.RunsArePaths`: leaves out the return of a tail-called C function, which is proved uncovered, and instructions that are not drawn, whose steps are.
- `ControlFlowTheorems.CoverageIffTestsArePaired`: the whole-code corollary, for code whose tests have a companion jump; `ControlFlowTheorems.StepIsCoveredIff` is for every code.
- `Table::getArray`, table size queries, metatable links and the marking of table contents: one-line readers, or part of the collector.
- Memory accounting, write barriers and exhausted memory inside the table: barriers are taken to do nothing, allocation to succeed.
- The garbage collector, the parser, the code generator, the bytecode handlers beyond their effect on the program counter, and the rest of the C API.
- Text rendering of the graph, the bytecode printer's other output, command line and tools: input and output only.
- Floating-point arithmetic beyond equality, and stack indexes given as negative or pseudo indexes by C callers.
- `luaL_addsize` and characters the caller writes into the prepared buffer space itself.
