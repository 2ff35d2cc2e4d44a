/**
 * The control-flow graph against the bytecode it is drawn for: what the handlers in
 * src/vm/vm_handlers do with the program counter is covered by the graph's edges.
 */
module ControlFlowTheorems {
  import opened ControlFlow

  /** How many upvalue words follow a CLOSURE, by the index of its prototype. */
  type Upvalues = int -> nat

  /** How many data words the instruction at pc reads behind itself. */
  function DataWords(code: Code, ups: Upvalues, pc: nat): nat
    requires pc < |code|
  {
    if code[pc].op == CLOSURE then ups(code[pc].bx)
    else if code[pc].op == SETLIST && code[pc].c == 0 then 1
    else 0
  }

  /** The program counter may go from pc to q; leaving the function is going to |code|. A
      test skips its companion jump, or takes it, at once or as an instruction of its own. */
  predicate Steps(code: Code, ups: Upvalues, pc: nat, q: int)
    requires pc < |code|
  {
    var inst := code[pc];
    match inst.op
    case JMP | FORPREP => q == JumpTarget(pc, inst)
    case FORLOOP => q == JumpTarget(pc, inst) || q == pc + 1
    case EQ | LT | LE => q == pc + 1 || q == pc + 2
    case TEST | TESTSET | TFORLOOP =>
      q == pc + 1 || q == pc + 2 || (pc + 1 < |code| && q == JumpTarget(pc + 1, code[pc + 1]))
    case LOADBOOL => q == if inst.c != 0 then pc + 2 else pc + 1
    case RETURN => q == |code|
    case TAILCALL => q == |code| || q == pc + 1
    case _ => q == pc + 1 + DataWords(code, ups, pc)
  }

  /** The one step the graph leaves out: a tail call of a C function comes back. */
  predicate ReturnsFromTailCall(code: Code, pc: nat, q: int)
    requires pc < |code|
  {
    code[pc].op == TAILCALL && q == pc + 1 < |code|
  }

  /** The step stays in its block, moving on, or follows an edge of the block. */
  predicate Covered(g: CfgGraph, pc: nat, q: int)
    requires pc < |g.pcToBlock|
  {
    (pc < q < |g.pcToBlock| && g.pcToBlock[q] == g.pcToBlock[pc]) || HasEdge(g, g.pcToBlock[pc], q)
  }

  /** Every test is followed by a jump that only the test leads to. */
  ghost predicate TestsArePaired(code: Code) {
    forall pc | 0 <= pc < |code| :: TestIsPaired(code, pc)
  }

  ghost predicate TestIsPaired(code: Code, pc: nat)
    requires pc < |code|
  {
    IsCompanionJumpConsumer(code[pc].op) ==> HasCompanionJump(code, pc) && !IsLeader(code, pc + 1)
  }

  // ----------------------------------------------------------- facts on blocks

  /** The block of pc, and that it goes on to pc + 1 unless pc + 1 is a leader or the end. */
  lemma BlockOf(code: Code, g: CfgGraph, pc: nat) returns (b: nat)
    requires GraphOf(code, g) && pc < |code|
    ensures b < |g.blocks| && g.pcToBlock[pc] == b && g.blocks[b].startPc <= pc <= g.blocks[b].endPc < |code|
    ensures pc == g.blocks[b].endPc <==> pc + 1 == |code| || IsLeader(code, pc + 1)
    ensures pc < g.blocks[b].endPc ==> pc + 1 < |code| && g.pcToBlock[pc + 1] == b
  {
    b := g.pcToBlock[pc];
    assert InBlock(g.blocks, b, pc);
    WhereBlockEnds(code, g.blocks, b);
    if pc < g.blocks[b].endPc {
      SameBlock(code, g.blocks, g.pcToBlock, b, pc + 1);
    }
  }

  lemma WhereBlockEnds(code: Code, blocks: seq<CfgBlock>, b: nat)
    requires BlocksOf(code, blocks) && b < |blocks|
    ensures blocks[b].endPc < |code|
    ensures forall pc | blocks[b].startPc < pc <= blocks[b].endPc :: !IsLeader(code, pc)
    ensures blocks[b].endPc + 1 == |code| || IsLeader(code, blocks[b].endPc + 1)
  {
    assert BlockOk(code, blocks, b);
    if b + 1 < |blocks| {
      assert BlockOk(code, blocks, b + 1);
    }
  }

  lemma SameBlock(code: Code, blocks: seq<CfgBlock>, pcToBlock: seq<int>, b: nat, pc: nat)
    requires BlocksOf(code, blocks) && PcMapOf(code, blocks, pcToBlock)
    requires b < |blocks| && blocks[b].startPc <= pc <= blocks[b].endPc
    ensures pc < |code| && pcToBlock[pc] == b
  {
    WhereBlockEnds(code, blocks, b);
    var c := pcToBlock[pc];
    assert InBlock(blocks, c, pc);
    if c < b {
      BlocksAscend(code, blocks, c, b);
    } else if b < c {
      BlocksAscend(code, blocks, b, c);
    }
  }

  lemma {:induction false} BlocksAscend(code: Code, blocks: seq<CfgBlock>, a: nat, b: nat)
    requires BlocksOf(code, blocks) && a < b < |blocks|
    ensures blocks[a].endPc < blocks[b].startPc
    decreases b
  {
    assert BlockOk(code, blocks, b - 1);
    if a < b - 1 {
      BlocksAscend(code, blocks, a, b - 1);
    }
  }

  /** Words pc+1 to pc+n that are no leaders belong to the block of pc. */
  lemma {:induction false} RunOn(code: Code, g: CfgGraph, pc: nat, n: nat)
    requires GraphOf(code, g) && pc + n < |code|
    requires forall d | pc < d <= pc + n :: !IsLeader(code, d)
    ensures g.pcToBlock[pc + n] == g.pcToBlock[pc]
    decreases n
  {
    if n > 0 {
      RunOn(code, g, pc, n - 1);
      var b := BlockOf(code, g, pc + n - 1);
    }
  }

  // ------------------------------------------------------------------ theorems

  ghost predicate LeadsTo(code: Code, block: CfgBlock, q: int) {
    exists e | e in BlockEdges(code, block) :: e.targetPc == q
  }

  lemma EdgeAt(code: Code, block: CfgBlock, k: nat)
    requires block.endPc < |code| && k < |BlockEdges(code, block)|
    ensures LeadsTo(code, block, BlockEdges(code, block)[k].targetPc)
  {
    assert BlockEdges(code, block)[k] in BlockEdges(code, block);
  }

  /** The targets of a block's edges, one by one. */
  predicate IsTarget(code: Code, block: CfgBlock, q: int)
    requires block.endPc < |code|
  {
    var end, inst := block.endPc, code[block.endPc];
    if BlockEndsWithCompanionJump(code, block) then q == JumpTarget(end, inst) || q == end + 1
    else match inst.op
      case EQ | LT | LE => q == end + 1 || q == end + 2
      case JMP | FORPREP => q == JumpTarget(end, inst)
      case FORLOOP => q == JumpTarget(end, inst) || q == end + 1
      case LOADBOOL => q == if inst.c != 0 then end + 2 else end + 1
      case RETURN | TAILCALL => q == |code|
      case _ => q == end + 1
  }

  lemma LeadsToIff(code: Code, block: CfgBlock, q: int)
    requires block.endPc < |code|
    ensures LeadsTo(code, block, q) <==> IsTarget(code, block, q)
  {
    EdgeAt(code, block, 0);
    if |BlockEdges(code, block)| > 1 {
      EdgeAt(code, block, 1);
    }
    if LeadsTo(code, block, q) {
      var k :| 0 <= k < |BlockEdges(code, block)| && BlockEdges(code, block)[k].targetPc == q;
      EdgeIsTarget(code, block, k);
    }
  }

  lemma EdgeIsTarget(code: Code, block: CfgBlock, k: nat)
    requires block.endPc < |code| && k < |BlockEdges(code, block)|
    ensures IsTarget(code, block, BlockEdges(code, block)[k].targetPc)
  {
  }

  predicate IsControl(inst: Instr) {
    inst.op in {JMP, FORPREP, FORLOOP, EQ, LT, LE, RETURN, TAILCALL} || (inst.op == LOADBOOL && inst.c != 0)
  }

  // --------------------------------------------- leaders and edges have reasons

  /** Control goes from p to q otherwise than to the next word, as the code around p says. */
  predicate Diverts(code: Code, ups: Upvalues, p: nat, q: int)
    requires p < |code|
  {
    && q != p + 1 && Steps(code, ups, p, q)
    && (IsControl(code[p]) || (IsCompanionJumpConsumer(code[p].op) && HasCompanionJump(code, p)))
  }

  /** An instruction but the first is a leader if and only if control can be diverted right
      before it, or is diverted to it. */
  lemma LeadersHaveReasons(code: Code, ups: Upvalues, q: nat)
    requires 0 < q < |code|
    ensures IsLeader(code, q)
            <==> IsControl(code[q - 1]) || exists p | 0 <= p < |code| :: Diverts(code, ups, p, q)
  {
    if IsLeader(code, q) {
      var p :| 0 <= p < |code| && MakesLeader(code, p, q);
      if !(IsControl(code[p]) && p == q - 1) {
        var p' := if q == p + 1 then q else p;
        assert Diverts(code, ups, p', q);
      }
    }
    if IsControl(code[q - 1]) {
      assert MakesLeader(code, q - 1, q);
    }
    forall p | 0 <= p < |code| && Diverts(code, ups, p, q) ensures IsLeader(code, q) {
      assert MakesLeader(code, p, q);
    }
  }

  /** Code that diverts control nowhere but behind its last instruction is one block. */
  lemma StraightCodeIsOneBlock(code: Code, ups: Upvalues, g: CfgGraph)
    requires GraphOf(code, g) && code != []
    requires forall p | 0 <= p < |code| - 1 :: !IsControl(code[p])
    requires forall p, q | 0 <= p < |code| && 0 <= q < |code| :: !Diverts(code, ups, p, q)
    ensures |g.blocks| == 1 && g.blocks[0] == CfgBlock(0, 0, |code| - 1)
  {
    assert BlockOk(code, g.blocks, 0);
    if |g.blocks| > 1 {
      assert BlockOk(code, g.blocks, 1);
      LeadersHaveReasons(code, ups, g.blocks[1].startPc);
    }
  }

  /** Where an edge may go: a step of the last instruction, or of the test before its companion
      jump, or on to a data word that is read as an instruction. */
  predicate EdgeHasReason(code: Code, ups: Upvalues, block: CfgBlock, q: int)
    requires block.endPc < |code|
  {
    || Steps(code, ups, block.endPc, q)
    || (block.startPc < block.endPc && IsCompanionJumpConsumer(code[block.endPc - 1].op)
        && HasCompanionJump(code, block.endPc - 1) && Steps(code, ups, block.endPc - 1, q))
    || (DataWords(code, ups, block.endPc) > 0 && q == block.endPc + 1)
  }

  /** The graph invents nothing: every edge is a step. */
  lemma EdgesHaveReasons(code: Code, ups: Upvalues, g: CfgGraph, e: CfgEdge)
    requires GraphOf(code, g) && e in g.edges
    ensures e.fromBlock < |g.blocks| && g.blocks[e.fromBlock].endPc < |code|
    ensures EdgeHasReason(code, ups, g.blocks[e.fromBlock], e.targetPc)
  {
    assert EdgeOk(code, g.blocks, g.edges, e);
    var block := g.blocks[e.fromBlock];
    WhereBlockEnds(code, g.blocks, e.fromBlock);
    assert LeadsTo(code, block, e.targetPc);
    LeadsToIff(code, block, e.targetPc);
  }

  /** What the label of an edge says about its target: out of the code, to the next instruction,
      over it, or where the last instruction jumps to. */
  predicate LabelFits(code: Code, end: nat, e: CfgEdge)
    requires end < |code|
  {
    e.targetPc ==
      if e.edgeLabel == "return" then |code|
      else if e.edgeLabel in {"fallthrough", "exit", "iterator done", "test fallthrough", "compare next"} then end + 1
      else if e.edgeLabel in {"skip", "compare skip"} then end + 2
      else end + 1 + code[end].sbx
  }

  lemma LabelsOfBlock(code: Code, block: CfgBlock, k: nat)
    requires block.endPc < |code| && k < |BlockEdges(code, block)|
    ensures LabelFits(code, block.endPc, BlockEdges(code, block)[k])
  {
    if !BlockEndsWithCompanionJump(code, block) {
      match code[block.endPc].op
      case EQ | LT | LE =>
      case FORLOOP =>
      case _ =>
    }
  }

  lemma LabelsSayWhere(code: Code, g: CfgGraph, e: CfgEdge)
    requires GraphOf(code, g) && e in g.edges
    ensures e.fromBlock < |g.blocks| && g.blocks[e.fromBlock].endPc < |code|
    ensures LabelFits(code, g.blocks[e.fromBlock].endPc, e)
  {
    assert EdgeOk(code, g.blocks, g.edges, e);
    WhereBlockEnds(code, g.blocks, e.fromBlock);
    var edges := BlockEdges(code, g.blocks[e.fromBlock]);
    var k :| 0 <= k < |edges| && edges[k] == e;
    LabelsOfBlock(code, g.blocks[e.fromBlock], k);
  }

  // ------------------------------------------------ coverage, read off the code

  /** The block of pc, by its leaders alone. */
  ghost predicate IsBlockOf(code: Code, block: CfgBlock, pc: nat) {
    && block.startPc <= pc <= block.endPc < |code|
    && IsLeader(code, block.startPc)
    && (forall d | block.startPc < d <= block.endPc :: !IsLeader(code, d))
    && (block.endPc + 1 == |code| || IsLeader(code, block.endPc + 1))
  }

  ghost predicate NoLeaderUpTo(code: Code, pc: nat, q: int) {
    forall d | pc < d <= q :: !IsLeader(code, d)
  }

  /** Control can be seen to go from pc to q: no leader lies between, or the instruction that
      ends the block of pc goes to q. */
  ghost predicate GoesTo(code: Code, pc: nat, q: int) {
    || (pc < q < |code| && NoLeaderUpTo(code, pc, q))
    || exists block :: IsBlockOf(code, block, pc) && IsTarget(code, block, q)
  }

  lemma OneBlock(code: Code, a: CfgBlock, b: CfgBlock, pc: nat)
    requires IsBlockOf(code, a, pc) && IsBlockOf(code, b, pc)
    ensures a.startPc == b.startPc && a.endPc == b.endPc
  {
  }

  lemma SameBlockIff(code: Code, g: CfgGraph, pc: nat, q: nat)
    requires GraphOf(code, g) && pc < q < |code|
    ensures g.pcToBlock[q] == g.pcToBlock[pc] <==> NoLeaderUpTo(code, pc, q)
  {
    if NoLeaderUpTo(code, pc, q) {
      RunOn(code, g, pc, q - pc);
    } else {
      NotInBlockOf(code, g, pc, q);
    }
  }

  lemma EdgeFromIff(code: Code, g: CfgGraph, pc: nat, q: int)
    requires GraphOf(code, g) && pc < |code|
    ensures HasEdge(g, g.pcToBlock[pc], q) <==> exists block :: IsBlockOf(code, block, pc) && IsTarget(code, block, q)
  {
    var b := BlockOf(code, g, pc);
    var block := g.blocks[b];
    assert BlockOk(code, g.blocks, b);
    WhereBlockEnds(code, g.blocks, b);
    assert IsBlockOf(code, block, pc);
    EdgesLeaving(code, g, b, q);
    LeadsToIff(code, block, q);
    forall other | IsBlockOf(code, other, pc) && IsTarget(code, other, q) ensures IsTarget(code, block, q) {
      OneBlock(code, other, block, pc);
    }
  }

  /** The graph covers exactly what can be read off the code. */
  lemma CoveredIff(code: Code, g: CfgGraph, pc: nat, q: int)
    requires GraphOf(code, g) && pc < |code|
    ensures Covered(g, pc, q) <==> GoesTo(code, pc, q)
  {
    EdgeFromIff(code, g, pc, q);
    if pc < q < |code| {
      SameBlockIff(code, g, pc, q);
    }
  }

  /** The exact condition for one instruction. A test: its companion jump has no other way in;
      if it has none, that both ways over it show. An instruction with data words: the way
      over them shows. All others need none. */
  ghost predicate IsDrawn(code: Code, ups: Upvalues, pc: nat)
    requires pc < |code|
  {
    if IsCompanionJumpConsumer(code[pc].op) then
      if HasCompanionJump(code, pc) then !IsLeader(code, pc + 1)
      else GoesTo(code, pc, pc + 2) && (pc + 1 < |code| ==> GoesTo(code, pc, JumpTarget(pc + 1, code[pc + 1])))
    else if IsControl(code[pc]) || DataWords(code, ups, pc) == 0 then true
    else GoesTo(code, pc, pc + 1 + DataWords(code, ups, pc))
  }

  ghost predicate StepsCovered(code: Code, ups: Upvalues, g: CfgGraph, pc: nat)
    requires pc < |code| == |g.pcToBlock|
  {
    forall q | Steps(code, ups, pc, q) && !ReturnsFromTailCall(code, pc, q) :: Covered(g, pc, q)
  }

  /** Soundness and completeness of the graph, instruction by instruction: every way on from
      it but the return of a tail call is covered if and only if it is drawn. */
  lemma StepIsCoveredIff(code: Code, ups: Upvalues, g: CfgGraph, pc: nat)
    requires GraphOf(code, g) && pc < |code|
    ensures StepsCovered(code, ups, g, pc) <==> IsDrawn(code, ups, pc)
  {
    if IsCompanionJumpConsumer(code[pc].op) {
      if HasCompanionJump(code, pc) {
        PairedIff(code, ups, g, pc);
      } else {
        BareTestIff(code, ups, g, pc);
      }
    } else if IsControl(code[pc]) {
      forall q | Steps(code, ups, pc, q) && !ReturnsFromTailCall(code, pc, q) ensures Covered(g, pc, q) {
        ControlIsCovered(code, ups, g, pc, q);
      }
    } else {
      FallThroughIff(code, ups, g, pc);
    }
  }

  lemma ControlIsCovered(code: Code, ups: Upvalues, g: CfgGraph, pc: nat, q: int)
    requires GraphOf(code, g) && pc < |code| && IsControl(code[pc])
    requires Steps(code, ups, pc, q) && !ReturnsFromTailCall(code, pc, q)
    ensures Covered(g, pc, q)
  {
    var b := BlockOf(code, g, pc);
    assert MakesLeader(code, pc, pc + 1);
    LeadsToIff(code, g.blocks[b], q);
    EdgesLeaving(code, g, b, q);
  }

  lemma PairedIff(code: Code, ups: Upvalues, g: CfgGraph, pc: nat)
    requires GraphOf(code, g) && pc < |code| && IsCompanionJumpConsumer(code[pc].op) && HasCompanionJump(code, pc)
    ensures StepsCovered(code, ups, g, pc) <==> !IsLeader(code, pc + 1)
  {
    if IsLeader(code, pc + 1) {
      UnpairedTestIsNotCovered(code, g, pc);
      assert Steps(code, ups, pc, pc + 2);
    } else {
      forall q | Steps(code, ups, pc, q) ensures Covered(g, pc, q) {
        TestIsCovered(code, ups, g, pc, q);
      }
    }
  }

  lemma TestIsCovered(code: Code, ups: Upvalues, g: CfgGraph, pc: nat, q: int)
    requires GraphOf(code, g) && pc < |code| && IsCompanionJumpConsumer(code[pc].op)
    requires HasCompanionJump(code, pc) && !IsLeader(code, pc + 1) && Steps(code, ups, pc, q)
    ensures Covered(g, pc, q)
  {
    assert MakesLeader(code, pc, pc + 2);
    var b := BlockOf(code, g, pc);
    var c := BlockOf(code, g, pc + 1);
    if q != pc + 1 {
      LeadsToIff(code, g.blocks[b], q);
      EdgesLeaving(code, g, b, q);
    }
  }

  /** The next instruction is always covered, but behind a control instruction. */
  lemma NextIsCovered(code: Code, g: CfgGraph, pc: nat)
    requires GraphOf(code, g) && pc < |code| && !IsControl(code[pc])
    ensures Covered(g, pc, pc + 1)
  {
    var b := BlockOf(code, g, pc);
    if pc == g.blocks[b].endPc {
      LeadsToIff(code, g.blocks[b], pc + 1);
      EdgesLeaving(code, g, b, pc + 1);
    }
  }

  lemma BareTestIff(code: Code, ups: Upvalues, g: CfgGraph, pc: nat)
    requires GraphOf(code, g) && pc < |code| && IsCompanionJumpConsumer(code[pc].op) && !HasCompanionJump(code, pc)
    ensures StepsCovered(code, ups, g, pc) <==> IsDrawn(code, ups, pc)
  {
    NextIsCovered(code, g, pc);
    assert Steps(code, ups, pc, pc + 2);
    CoveredIff(code, g, pc, pc + 2);
    if pc + 1 < |code| {
      assert Steps(code, ups, pc, JumpTarget(pc + 1, code[pc + 1]));
      CoveredIff(code, g, pc, JumpTarget(pc + 1, code[pc + 1]));
    }
  }

  lemma FallThroughIff(code: Code, ups: Upvalues, g: CfgGraph, pc: nat)
    requires GraphOf(code, g) && pc < |code|
    requires !IsCompanionJumpConsumer(code[pc].op) && !IsControl(code[pc])
    ensures StepsCovered(code, ups, g, pc) <==> IsDrawn(code, ups, pc)
  {
    var q := pc + 1 + DataWords(code, ups, pc);
    assert Steps(code, ups, pc, q);
    CoveredIff(code, g, pc, q);
    NextIsCovered(code, g, pc);
  }

  // ------------------------------------------------------------------ data words

  /** The data words exist and none is a leader. */
  ghost predicate DataIsWhole(code: Code, ups: Upvalues, pc: nat)
    requires pc < |code|
  {
    pc + DataWords(code, ups, pc) < |code| && NoLeaderUpTo(code, pc, pc + DataWords(code, ups, pc))
  }

  /** Read as an instruction, the word at d lets control go on to d + 1. */
  predicate PassesOn(code: Code, d: nat)
    requires 0 < d < |code|
  {
    var inst := code[d];
    match inst.op
    case JMP => IsCompanionJumpConsumer(code[d - 1].op) || JumpTarget(d, inst) == d + 1
    case FORPREP => JumpTarget(d, inst) == d + 1
    case RETURN | TAILCALL => d + 1 == |code|
    case LOADBOOL => inst.c == 0
    case _ => true
  }

  /** The way over whole data words shows if and only if the last one passes on: no jump away,
      no return, no skip. */
  lemma DataDrawnIff(code: Code, ups: Upvalues, pc: nat, g: CfgGraph)
    requires GraphOf(code, g) && pc < |code| && DataWords(code, ups, pc) > 0 && DataIsWhole(code, ups, pc)
    ensures IsDrawn(code, ups, pc) <==> PassesOn(code, pc + DataWords(code, ups, pc))
  {
    var last := pc + DataWords(code, ups, pc);
    CoveredIff(code, g, pc, last + 1);
    WayOverData(code, g, pc, last);
  }

  lemma WayOverData(code: Code, g: CfgGraph, pc: nat, last: nat)
    requires GraphOf(code, g) && pc < last < |code| && NoLeaderUpTo(code, pc, last)
    ensures Covered(g, pc, last + 1) <==> PassesOn(code, last)
  {
    var b := BlockOf(code, g, last);
    RunOn(code, g, pc, last - pc);
    if IsControl(code[last]) {
      assert MakesLeader(code, last, last + 1);
      EdgesLeaving(code, g, b, last + 1);
      assert g.blocks[b].startPc < last by {
        var c := BlockOf(code, g, pc);
      }
      LastWordLeads(code, g.blocks[b]);
      if last + 1 < |code| {
        NotInBlockOf(code, g, pc, last + 1);
      }
    } else {
      NextIsCovered(code, g, last);
    }
  }

  lemma LastWordLeads(code: Code, block: CfgBlock)
    requires block.startPc < block.endPc < |code| && IsControl(code[block.endPc])
    ensures LeadsTo(code, block, block.endPc + 1) <==> PassesOn(code, block.endPc)
  {
    LeadsToIff(code, block, block.endPc + 1);
  }

  // -------------------------------------------------------- what is not covered

  /** A tail call of a C function that comes back goes where no edge goes. */
  lemma TailCallReturnIsNotCovered(code: Code, g: CfgGraph, pc: nat, q: int)
    requires GraphOf(code, g) && pc < |code| && ReturnsFromTailCall(code, pc, q)
    ensures !Covered(g, pc, q)
  {
    var b := BlockOf(code, g, pc);
    assert MakesLeader(code, pc, pc + 1);
    LeadsToIff(code, g.blocks[b], q);
    EdgesLeaving(code, g, b, q);
    NotInBlockOf(code, g, pc, q);
  }

  /** A leader starts another block than the one before it. */
  lemma NotInBlockOf(code: Code, g: CfgGraph, pc: nat, q: nat)
    requires GraphOf(code, g) && pc < q < |code|
    requires exists l | pc < l <= q :: IsLeader(code, l)
    ensures g.pcToBlock[q] != g.pcToBlock[pc]
  {
    var b := g.pcToBlock[pc];
    assert InBlock(g.blocks, b, pc) && InBlock(g.blocks, g.pcToBlock[q], q);
    WhereBlockEnds(code, g.blocks, b);
  }

  /** If something else jumps to the companion jump, skipping it goes where no edge goes. */
  lemma UnpairedTestIsNotCovered(code: Code, g: CfgGraph, pc: nat)
    requires GraphOf(code, g) && pc < |code| && IsCompanionJumpConsumer(code[pc].op)
    requires HasCompanionJump(code, pc) && IsLeader(code, pc + 1)
    ensures !Covered(g, pc, pc + 2)
  {
    var b := BlockOf(code, g, pc);
    LeadsToIff(code, g.blocks[b], pc + 2);
    EdgesLeaving(code, g, b, pc + 2);
    if pc + 2 < |code| {
      NotInBlockOf(code, g, pc, pc + 2);
    }
  }

  /** For code whose tests have companion jumps and whose data words are whole and pass on:
      the graph covers every step but returns from tail calls exactly if no companion jump is
      reached in any other way than through its test. */
  lemma CoverageIffTestsArePaired(code: Code, ups: Upvalues, g: CfgGraph)
    requires GraphOf(code, g)
    requires forall pc | 0 <= pc < |code| :: IsCompanionJumpConsumer(code[pc].op) ==> HasCompanionJump(code, pc)
    requires forall pc | 0 <= pc < |code| && DataWords(code, ups, pc) > 0 ::
               DataIsWhole(code, ups, pc) && PassesOn(code, pc + DataWords(code, ups, pc))
    ensures TestsArePaired(code) <==> forall pc | 0 <= pc < |code| :: StepsCovered(code, ups, g, pc)
  {
    forall pc | 0 <= pc < |code| ensures StepsCovered(code, ups, g, pc) <==> TestIsPaired(code, pc) {
      StepIsCoveredIff(code, ups, g, pc);
      if DataWords(code, ups, pc) > 0 {
        DataDrawnIff(code, ups, pc, g);
      }
    }
  }

  /** Every edge goes to the start of a block or out of the function. */
  lemma EdgeTargetsAreLeaders(code: Code, g: CfgGraph, e: CfgEdge)
    requires GraphOf(code, g) && e in g.edges && 0 <= e.targetPc < |code|
    ensures IsLeader(code, e.targetPc)
  {
    assert EdgeOk(code, g.blocks, g.edges, e);
    var b := e.fromBlock;
    WhereBlockEnds(code, g.blocks, b);
    assert LeadsTo(code, g.blocks[b], e.targetPc);
    LeadsToIff(code, g.blocks[b], e.targetPc);
    TargetIsMade(code, g.blocks[b], e.targetPc);
  }

  lemma TargetIsMade(code: Code, block: CfgBlock, q: int)
    requires block.endPc < |code| && IsTarget(code, block, q)
    ensures q == block.endPc + 1 || q == |code| || MakesLeader(code, block.endPc, q)
  {
  }

  // -------------------------------------------------------------------- runs

  datatype Node = Block(id: int) | Exit

  /** The target lookup of `printCfgEdge`: a block, or the exit node. */
  function TargetNode(g: CfgGraph, pc: int): Node {
    if 0 <= pc < |g.pcToBlock| && g.pcToBlock[pc] >= 0 then Block(g.pcToBlock[pc]) else Exit
  }

  /** A run of the function from its first instruction in which no tail call comes back;
      the last pc may lie outside the code. */
  ghost predicate IsRun(code: Code, ups: Upvalues, run: seq<int>) {
    |run| > 0 && run[0] == 0 && forall i | 0 < i < |run| :: RunStep(code, ups, run, i)
  }

  ghost predicate RunStep(code: Code, ups: Upvalues, run: seq<int>, i: nat)
    requires 0 < i < |run|
  {
    var pc, q := run[i - 1], run[i];
    0 <= pc < |code| && Steps(code, ups, pc, q) && !ReturnsFromTailCall(code, pc, q)
  }

  ghost predicate IsArc(g: CfgGraph, from: Node, to: Node) {
    exists e | e in g.edges :: from == Block(e.fromBlock) && to == TargetNode(g, e.targetPc)
  }

  /** The nodes a run passes through, one for each time it enters one. */
  ghost function Projection(g: CfgGraph, run: seq<int>): seq<Node>
    requires |run| > 0
  {
    if |run| == 1 then [TargetNode(g, run[0])]
    else
      var before := Projection(g, run[..|run| - 1]);
      var pc, q := run[|run| - 2], run[|run| - 1];
      if pc < q && TargetNode(g, q) == TargetNode(g, pc) then before
      else before + [TargetNode(g, q)]
  }

  ghost predicate IsPath(g: CfgGraph, nodes: seq<Node>) {
    && |nodes| > 0 && nodes[0] == TargetNode(g, 0)
    && forall i | 0 < i < |nodes| :: PathStep(g, nodes, i)
  }

  ghost predicate PathStep(g: CfgGraph, nodes: seq<Node>, i: nat)
    requires 0 < i < |nodes|
  {
    IsArc(g, nodes[i - 1], nodes[i])
  }

  /** All instructions the run passes are drawn. */
  ghost predicate AllDrawn(code: Code, ups: Upvalues, run: seq<int>) {
    forall i | 0 <= i < |run| - 1 :: 0 <= run[i] < |code| && IsDrawn(code, ups, run[i])
  }

  lemma LastStep(code: Code, ups: Upvalues, g: CfgGraph, run: seq<int>)
    requires GraphOf(code, g) && IsRun(code, ups, run) && AllDrawn(code, ups, run) && |run| > 1
    ensures var n := |run| - 1;
            && IsRun(code, ups, run[..n]) && AllDrawn(code, ups, run[..n])
            && 0 <= run[n - 1] < |g.pcToBlock| && g.pcToBlock[run[n - 1]] >= 0 && Covered(g, run[n - 1], run[n])
  {
    var n := |run| - 1;
    assert RunStep(code, ups, run, n);
    StepIsCoveredIff(code, ups, g, run[n - 1]);
    var b := BlockOf(code, g, run[n - 1]);
    forall i | 0 < i < n ensures RunStep(code, ups, run[..n], i) {
      assert RunStep(code, ups, run, i);
    }
  }

  /** The projection is a path in the graph, and ends where the run does. */
  ghost predicate ProjectsToPath(g: CfgGraph, run: seq<int>)
    requires |run| > 0
  {
    var nodes := Projection(g, run);
    IsPath(g, nodes) && nodes[|nodes| - 1] == TargetNode(g, run[|run| - 1])
  }

  /** Simulation: every run over drawn instructions without a returning tail call is a path in
      the drawn graph. */
  lemma {:induction false} RunsArePaths(code: Code, ups: Upvalues, g: CfgGraph, run: seq<int>)
    requires GraphOf(code, g) && IsRun(code, ups, run) && AllDrawn(code, ups, run)
    ensures ProjectsToPath(g, run)
    decreases |run|
  {
    if |run| > 1 {
      LastStep(code, ups, g, run);
      RunsArePaths(code, ups, g, run[..|run| - 1]);
      LastStepProjects(g, run);
    }
  }

  lemma LastStepProjects(g: CfgGraph, run: seq<int>)
    requires |run| > 1 && ProjectsToPath(g, run[..|run| - 1])
    requires 0 <= run[|run| - 2] < |g.pcToBlock| && g.pcToBlock[run[|run| - 2]] >= 0
    requires Covered(g, run[|run| - 2], run[|run| - 1])
    ensures ProjectsToPath(g, run)
  {
    var n := |run| - 1;
    assert run[..n][n - 1] == run[n - 1];
    StepExtendsPath(g, Projection(g, run[..n]), run[n - 1], run[n]);
  }

  lemma StepExtendsPath(g: CfgGraph, before: seq<Node>, pc: nat, q: int)
    requires pc < |g.pcToBlock| && g.pcToBlock[pc] >= 0 && Covered(g, pc, q)
    requires IsPath(g, before) && before[|before| - 1] == TargetNode(g, pc)
    ensures (pc < q && TargetNode(g, q) == TargetNode(g, pc)) || IsPath(g, before + [TargetNode(g, q)])
  {
    if !(pc < q && TargetNode(g, q) == TargetNode(g, pc)) {
      var e :| e in g.edges && e.fromBlock == g.pcToBlock[pc] && e.targetPc == q;
      assert IsArc(g, TargetNode(g, pc), TargetNode(g, q));
      forall i | 0 < i < |before| + 1 ensures PathStep(g, before + [TargetNode(g, q)], i) {
        assert i < |before| ==> PathStep(g, before, i);
      }
    }
  }
}
