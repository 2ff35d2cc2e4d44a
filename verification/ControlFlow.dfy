/**
 * The control-flow graph of a bytecode function, src/bytecode/bytecode_printer.cpp:326-556,
 * on decoded instructions.
 */
module ControlFlow {

  /** The opcodes control flow depends on; all others are `Plain`. */
  datatype OpCode =
    | LOADBOOL | JMP | EQ | LT | LE | TEST | TESTSET | TAILCALL | RETURN
    | FORLOOP | FORPREP | TFORLOOP | SETLIST | CLOSURE | Plain(code: int)

  datatype Instr = Instr(op: OpCode, c: int, bx: int, sbx: int)

  type Code = seq<Instr>

  datatype CfgBlock = CfgBlock(id: nat, startPc: nat, endPc: nat)

  datatype CfgEdge = CfgEdge(fromBlock: nat, targetPc: int, edgeLabel: string)

  datatype CfgGraph = CfgGraph(blocks: seq<CfgBlock>, edges: seq<CfgEdge>, pcToBlock: seq<int>)

  predicate IsCompanionJumpConsumer(op: OpCode) {
    op == TEST || op == TESTSET || op == TFORLOOP
  }

  predicate IsComparisonOpcode(op: OpCode) {
    op == EQ || op == LT || op == LE
  }

  function JumpTarget(pc: nat, inst: Instr): int {
    pc + 1 + inst.sbx
  }

  predicate HasCompanionJump(code: Code, pc: nat) {
    pc + 1 < |code| && code[pc + 1].op == JMP
  }

  // ------------------------------------------------------------------ leaders

  /** The leaders that the instruction at pc makes. */
  function LeadersFrom(code: Code, pc: nat): set<int>
    requires pc < |code|
  {
    var inst := code[pc];
    if IsCompanionJumpConsumer(inst.op) && HasCompanionJump(code, pc) then
      {JumpTarget(pc + 1, code[pc + 1]), pc + 2}
    else if IsComparisonOpcode(inst.op) then {pc + 1, pc + 2}
    else match inst.op
      case JMP | FORPREP | FORLOOP => {JumpTarget(pc, inst), pc + 1}
      case LOADBOOL => if inst.c != 0 then {pc + 1, pc + 2} else {}
      case RETURN | TAILCALL => {pc + 1}
      case _ => {}
  }

  ghost predicate IsLeader(code: Code, pc: int) {
    0 <= pc < |code| && (pc == 0 || exists p | 0 <= p < |code| :: MakesLeader(code, p, pc))
  }

  predicate MakesLeader(code: Code, p: nat, pc: int)
    requires p < |code|
  {
    pc in LeadersFrom(code, p)
  }

  method AddLeader(leaders: seq<bool>, pc: int) returns (r: seq<bool>)
    ensures |r| == |leaders| && forall i | 0 <= i < |leaders| :: r[i] == (leaders[i] || i == pc)
  {
    r := if 0 <= pc < |leaders| then leaders[pc := true] else leaders;
  }

  method AddTwoLeaders(leaders: seq<bool>, pc0: int, pc1: int) returns (r: seq<bool>)
    ensures |r| == |leaders| && forall i | 0 <= i < |leaders| :: r[i] == (leaders[i] || i == pc0 || i == pc1)
  {
    r := AddLeader(leaders, pc0);
    r := AddLeader(r, pc1);
  }

  /** One round of the leader loop. */
  method AddLeadersFrom(code: Code, pc: nat, leaders: seq<bool>) returns (r: seq<bool>)
    requires pc < |code|
    ensures |r| == |leaders|
    ensures forall i | 0 <= i < |leaders| :: r[i] == (leaders[i] || MakesLeader(code, pc, i))
  {
    r := leaders;
    var inst := code[pc];
    if IsCompanionJumpConsumer(inst.op) && HasCompanionJump(code, pc) {
      r := AddTwoLeaders(r, JumpTarget(pc + 1, code[pc + 1]), pc + 2);
      return;
    }
    if IsComparisonOpcode(inst.op) {
      r := AddTwoLeaders(r, pc + 1, pc + 2);
      return;
    }
    match inst.op {
      case JMP | FORPREP | FORLOOP =>
        r := AddTwoLeaders(r, JumpTarget(pc, inst), pc + 1);
      case LOADBOOL =>
        if inst.c != 0 {
          r := AddTwoLeaders(r, pc + 1, pc + 2);
        }
      case RETURN | TAILCALL =>
        r := AddLeader(r, pc + 1);
      case _ =>
    }
  }

  method CollectCfgLeaders(code: Code) returns (leaders: seq<bool>)
    ensures |leaders| == |code|
    ensures forall pc | 0 <= pc < |code| :: leaders[pc] <==> IsLeader(code, pc)
  {
    leaders := seq(|code|, _ => false);
    if |code| == 0 {
      return;
    }
    leaders := leaders[0 := true];
    for pc := 0 to |code|
      invariant |leaders| == |code|
      invariant forall i | 0 <= i < |code| ::
                  leaders[i] <==> i == 0 || exists p | 0 <= p < pc :: MakesLeader(code, p, i)
    {
      leaders := AddLeadersFrom(code, pc, leaders);
    }
  }

  // ------------------------------------------------------------------- blocks

  /** The blocks cut the code, in order and without gaps, at the leaders and nowhere else. */
  ghost predicate BlocksOf(code: Code, blocks: seq<CfgBlock>) {
    && (code == [] <==> |blocks| == 0)
    && (blocks != [] ==> blocks[0].startPc == 0 && blocks[|blocks| - 1].endPc == |code| - 1)
    && (forall b | 0 <= b < |blocks| :: BlockOk(code, blocks, b))
  }

  ghost predicate BlockOk(code: Code, blocks: seq<CfgBlock>, b: nat)
    requires b < |blocks|
  {
    var block := blocks[b];
    && block.id == b && block.startPc <= block.endPc < |code|
    && IsLeader(code, block.startPc)
    && (forall pc | block.startPc < pc <= block.endPc :: !IsLeader(code, pc))
    && (b + 1 < |blocks| ==> blocks[b + 1].startPc == block.endPc + 1)
  }

  method LeaderPcs(code: Code, leaders: seq<bool>) returns (leaderPcs: seq<nat>)
    requires |leaders| == |code| && forall pc | 0 <= pc < |code| :: leaders[pc] <==> IsLeader(code, pc)
    ensures LeadersBefore(code, leaderPcs, |code|)
  {
    leaderPcs := [];
    for pc := 0 to |leaders|
      invariant LeadersBefore(code, leaderPcs, pc)
    {
      if leaders[pc] {
        leaderPcs := leaderPcs + [pc];
      }
    }
  }

  method BuildCfgBlocks(code: Code, leaders: seq<bool>) returns (blocks: seq<CfgBlock>)
    requires |leaders| == |code| && forall pc | 0 <= pc < |code| :: leaders[pc] <==> IsLeader(code, pc)
    ensures BlocksOf(code, blocks)
  {
    var leaderPcs := LeaderPcs(code, leaders);
    blocks := [];
    for i := 0 to |leaderPcs|
      invariant |blocks| == i
      invariant forall b | 0 <= b < i :: blocks[b] == BlockAt(code, leaderPcs, b)
    {
      var start := leaderPcs[i];
      var nextLeader := if i + 1 < |leaderPcs| then leaderPcs[i + 1] else |code|;
      assert start < nextLeader;
      if start >= |code| || nextLeader == 0 || nextLeader <= start {
        continue;
      }
      blocks := blocks + [CfgBlock(|blocks|, start, nextLeader - 1)];
    }
    BlocksFromLeaders(code, leaderPcs, blocks);
  }

  ghost predicate LeadersBefore(code: Code, leaderPcs: seq<nat>, pc: nat) {
    && (forall i | 0 <= i < |leaderPcs| :: leaderPcs[i] < pc && IsLeader(code, leaderPcs[i]))
    && (forall i, j | 0 <= i < j < |leaderPcs| :: leaderPcs[i] < leaderPcs[j])
    && (forall p | 0 <= p < pc && IsLeader(code, p) :: p in leaderPcs)
  }

  ghost function BlockAt(code: Code, leaderPcs: seq<nat>, b: nat): CfgBlock
    requires b < |leaderPcs| && LeadersBefore(code, leaderPcs, |code|)
  {
    var next := if b + 1 < |leaderPcs| then leaderPcs[b + 1] else |code|;
    assert leaderPcs[b] < next;
    CfgBlock(b, leaderPcs[b], next - 1)
  }

  lemma BlocksFromLeaders(code: Code, leaderPcs: seq<nat>, blocks: seq<CfgBlock>)
    requires LeadersBefore(code, leaderPcs, |code|) && |blocks| == |leaderPcs|
    requires forall b | 0 <= b < |blocks| :: blocks[b] == BlockAt(code, leaderPcs, b)
    ensures BlocksOf(code, blocks)
  {
    if code != [] {
      assert IsLeader(code, 0);
      assert 0 in leaderPcs;
    }
    if |leaderPcs| > 0 {
      assert leaderPcs[0] < |code|;
    }
    forall b | 0 <= b < |blocks| ensures BlockOk(code, blocks, b) {
      var block := blocks[b];
      forall pc | block.startPc < pc <= block.endPc ensures !IsLeader(code, pc) {
        forall i | 0 <= i < |leaderPcs| ensures leaderPcs[i] != pc {
          assert i <= b || i >= b + 1;
        }
      }
    }
  }

  /** `pcToBlock[pc]` is the block that contains pc. */
  ghost predicate PcMapOf(code: Code, blocks: seq<CfgBlock>, pcToBlock: seq<int>) {
    && |pcToBlock| == |code|
    && (forall pc | 0 <= pc < |code| :: InBlock(blocks, pcToBlock[pc], pc))
  }

  predicate InBlock(blocks: seq<CfgBlock>, b: int, pc: int) {
    0 <= b < |blocks| && blocks[b].startPc <= pc <= blocks[b].endPc
  }

  method BuildPcToBlock(code: Code, blocks: seq<CfgBlock>) returns (pcToBlock: seq<int>)
    requires BlocksOf(code, blocks)
    ensures PcMapOf(code, blocks, pcToBlock)
  {
    pcToBlock := seq(|code|, _ => -1);
    for b := 0 to |blocks|
      invariant |pcToBlock| == |code|
      invariant forall pc | 0 <= pc < |code| && (b == |blocks| || pc < blocks[b].startPc) ::
                  InBlock(blocks, pcToBlock[pc], pc)
    {
      assert BlockOk(code, blocks, b);
      var block := blocks[b];
      var pc := block.startPc;
      while pc <= block.endPc && pc < |pcToBlock|
        invariant block.startPc <= pc <= block.endPc + 1 && |pcToBlock| == |code|
        invariant forall p | 0 <= p < pc :: InBlock(blocks, pcToBlock[p], p)
      {
        pcToBlock := pcToBlock[pc := block.id];
        pc := pc + 1;
      }
    }
  }

  // -------------------------------------------------------------------- edges

  predicate BlockEndsWithCompanionJump(code: Code, block: CfgBlock) {
    && block.startPc < block.endPc < |code|
    && IsCompanionJumpConsumer(code[block.endPc - 1].op) && code[block.endPc].op == JMP
  }

  /** The edges that leave a block, one for each place control can go from its end. */
  function BlockEdges(code: Code, block: CfgBlock): (r: seq<CfgEdge>)
    ensures forall e | e in r :: e.fromBlock == block.id
  {
    var id, end := block.id, block.endPc;
    if end >= |code| then []
    else
      var inst := code[end];
      if BlockEndsWithCompanionJump(code, block) then
        if code[end - 1].op == TFORLOOP then
          [CfgEdge(id, JumpTarget(end, inst), "iterator next"), CfgEdge(id, end + 1, "iterator done")]
        else [CfgEdge(id, JumpTarget(end, inst), "test jump"), CfgEdge(id, end + 1, "test fallthrough")]
      else if IsComparisonOpcode(inst.op) then
        [CfgEdge(id, end + 1, "compare next"), CfgEdge(id, end + 2, "compare skip")]
      else match inst.op
        case JMP => [CfgEdge(id, JumpTarget(end, inst), "jump")]
        case LOADBOOL => if inst.c != 0 then [CfgEdge(id, end + 2, "skip")] else [CfgEdge(id, end + 1, "fallthrough")]
        case RETURN | TAILCALL => [CfgEdge(id, |code|, "return")]
        case FORPREP => [CfgEdge(id, JumpTarget(end, inst), "prepare")]
        case FORLOOP => [CfgEdge(id, JumpTarget(end, inst), "loop"), CfgEdge(id, end + 1, "exit")]
        case _ => [CfgEdge(id, end + 1, "fallthrough")]
  }

  ghost function Concat(parts: seq<seq<CfgEdge>>): seq<CfgEdge> {
    if parts == [] then [] else Concat(parts[..|parts| - 1]) + parts[|parts| - 1]
  }

  ghost function EdgeLists(code: Code, blocks: seq<CfgBlock>): (r: seq<seq<CfgEdge>>)
    ensures |r| == |blocks| && forall b | 0 <= b < |blocks| :: r[b] == BlockEdges(code, blocks[b])
  {
    seq(|blocks|, b requires 0 <= b < |blocks| => BlockEdges(code, blocks[b]))
  }

  ghost function AllEdges(code: Code, blocks: seq<CfgBlock>): seq<CfgEdge> {
    Concat(EdgeLists(code, blocks))
  }

  method AddBlockEdges(code: Code, block: CfgBlock, before: seq<CfgEdge>) returns (edges: seq<CfgEdge>)
    ensures edges == before + BlockEdges(code, block)
  {
    edges := before;
    var end := block.endPc;
    if end >= |code| {
      return;
    }
    var next: int, afterNext: int := end + 1, end + 2;
    if BlockEndsWithCompanionJump(code, block) {
      var jump, fallthrough := JumpTarget(end, code[end]), next;
      if code[end - 1].op == TFORLOOP {
        return edges + [CfgEdge(block.id, jump, "iterator next"), CfgEdge(block.id, fallthrough, "iterator done")];
      }
      return edges + [CfgEdge(block.id, jump, "test jump"), CfgEdge(block.id, fallthrough, "test fallthrough")];
    }
    var inst := code[end];
    if IsComparisonOpcode(inst.op) {
      return edges + [CfgEdge(block.id, next, "compare next"), CfgEdge(block.id, afterNext, "compare skip")];
    }
    match inst.op {
      case JMP =>
        edges := edges + [CfgEdge(block.id, JumpTarget(end, inst), "jump")];
      case LOADBOOL =>
        if inst.c != 0 {
          edges := edges + [CfgEdge(block.id, afterNext, "skip")];
        } else {
          edges := edges + [CfgEdge(block.id, next, "fallthrough")];
        }
      case RETURN | TAILCALL =>
        edges := edges + [CfgEdge(block.id, |code|, "return")];
      case FORPREP =>
        edges := edges + [CfgEdge(block.id, JumpTarget(end, inst), "prepare")];
      case FORLOOP =>
        edges := edges + [CfgEdge(block.id, JumpTarget(end, inst), "loop"), CfgEdge(block.id, next, "exit")];
      case _ =>
        edges := edges + [CfgEdge(block.id, next, "fallthrough")];
    }
  }

  method BuildCfgEdges(code: Code, blocks: seq<CfgBlock>) returns (edges: seq<CfgEdge>)
    ensures edges == AllEdges(code, blocks)
  {
    edges := [];
    ghost var parts := EdgeLists(code, blocks);
    for b := 0 to |blocks|
      invariant edges == Concat(parts[..b])
    {
      assert parts[..b + 1][..b] == parts[..b];
      edges := AddBlockEdges(code, blocks[b], edges);
    }
    assert parts[..|blocks|] == parts;
  }

  lemma {:induction false} InConcat(parts: seq<seq<CfgEdge>>, e: CfgEdge)
    ensures e in Concat(parts) <==> exists b | 0 <= b < |parts| :: e in parts[b]
  {
    if parts != [] {
      InConcat(parts[..|parts| - 1], e);
    }
  }

  ghost predicate EdgeOk(code: Code, blocks: seq<CfgBlock>, edges: seq<CfgEdge>, e: CfgEdge) {
    e in edges <==> e.fromBlock < |blocks| && e in BlockEdges(code, blocks[e.fromBlock])
  }

  lemma EdgesOfBlocks(code: Code, blocks: seq<CfgBlock>, e: CfgEdge)
    requires BlocksOf(code, blocks)
    ensures EdgeOk(code, blocks, AllEdges(code, blocks), e)
  {
    var parts := EdgeLists(code, blocks);
    InConcat(parts, e);
    if e in AllEdges(code, blocks) {
      var b :| 0 <= b < |parts| && e in parts[b];
      assert BlockOk(code, blocks, b) && e.fromBlock == b;
    } else if e.fromBlock < |blocks| {
      assert e !in parts[e.fromBlock];
    }
  }

  /** The graph of the code: its blocks, the block of every pc, and exactly the edges of the blocks. */
  ghost predicate GraphOf(code: Code, g: CfgGraph) {
    && BlocksOf(code, g.blocks)
    && PcMapOf(code, g.blocks, g.pcToBlock)
    && (forall e :: EdgeOk(code, g.blocks, g.edges, e))
  }

  method BuildCfgGraph(code: Code) returns (g: CfgGraph)
    ensures GraphOf(code, g)
  {
    var leaders := CollectCfgLeaders(code);
    var blocks := BuildCfgBlocks(code, leaders);
    var pcToBlock := BuildPcToBlock(code, blocks);
    var edges := BuildCfgEdges(code, blocks);
    forall e ensures EdgeOk(code, blocks, edges, e) {
      EdgesOfBlocks(code, blocks, e);
    }
    return CfgGraph(blocks, edges, pcToBlock);
  }

  predicate HasEdge(g: CfgGraph, from: int, targetPc: int) {
    exists e | e in g.edges :: e.fromBlock == from && e.targetPc == targetPc
  }

  /** The edges that leave a block in the graph are those of its last instruction. */
  lemma EdgesLeaving(code: Code, g: CfgGraph, b: nat, target: int)
    requires GraphOf(code, g) && b < |g.blocks|
    ensures HasEdge(g, b, target) <==> exists e | e in BlockEdges(code, g.blocks[b]) :: e.targetPc == target
  {
    assert BlockOk(code, g.blocks, b);
    forall e: CfgEdge | e.fromBlock == b ensures e in g.edges <==> e in BlockEdges(code, g.blocks[b]) {
      assert EdgeOk(code, g.blocks, g.edges, e);
    }
  }
}
