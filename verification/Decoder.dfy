/**
 * From instruction words to the instructions control flow is computed on: the opcode numbers
 * of src/compiler/opcode.hpp:78-117 and the operands that matter for the program counter.
 */
module Decoder {
  import opened Opcode
  import opened ControlFlow
  import opened ControlFlowTheorems

  function OpOf(word: Instruction): OpCode {
    var number := GetOpcode(word);
    if number == 2 then LOADBOOL
    else if number == 22 then JMP
    else if number == 23 then EQ
    else if number == 24 then LT
    else if number == 25 then LE
    else if number == 26 then TEST
    else if number == 27 then TESTSET
    else if number == 29 then TAILCALL
    else if number == 30 then RETURN
    else if number == 31 then FORLOOP
    else if number == 32 then FORPREP
    else if number == 33 then TFORLOOP
    else if number == 34 then SETLIST
    else if number == 36 then CLOSURE
    else Plain(number as int)
  }

  function Decode(word: Instruction): Instr {
    Instr(OpOf(word), GetArgC(word) as int, GetArgBx(word) as int, Signed(GetArgsBx(word)))
  }

  /** A jump written at pc to any place the format can reach lands there once decoded, and
      one to any other place lands elsewhere. */
  lemma JumpLandsWhereAimed(pc: nat, a: Operand, offset: Operand)
    requires a <= MAXARG_A
    ensures var inst := Decode(CreateAsBx(22, a, offset));
            && inst.op == JMP
            && (JumpTarget(pc, inst) == pc + 1 + Signed(offset) <==> -131071 <= Signed(offset) <= 131072)
  {
    BxLeavesOpcodeAndA(22, a, offset + MAXARG_sBx);
    SBxRoundTrips(22, a, offset);
    SignedIsOneToOne(GetArgsBx(CreateAsBx(22, a, offset)), offset);
  }

  lemma SignedIsOneToOne(x: Operand, y: Operand)
    ensures Signed(x) == Signed(y) <==> x == y
  {
    if Signed(x) == Signed(y) {
      NegativeIsNegative(x);
      NegativeIsNegative(y);
      var negative := x >= 0x8000_0000;
      if negative {
        SameNegative(x, y);
      } else {
        ValueIsOneToOne(x, y);
      }
    }
  }

  lemma SameNegative(x: Operand, y: Operand)
    requires ((-x) as int) == ((-y) as int)
    ensures x == y
  {
    ValueIsOneToOne(-x, -y);
    NegationIsOneToOne(x, y);
  }

  lemma NegativeIsNegative(x: Operand)
    ensures Signed(x) < 0 <==> x >= 0x8000_0000
  {
    ValueIsOneToOne(-x, 0);
    NegationIsOneToOne(x, 0);
  }

  lemma ValueIsOneToOne(x: bv32, y: bv32)
    ensures (x as int) == (y as int) <==> x == y
  {
    if (x as int) == (y as int) {
      assert (x as int) as bv32 == (y as int) as bv32;
    }
  }

  lemma NegationIsOneToOne(x: Operand, y: Operand)
    ensures -x == -y <==> x == y
  {
  }

  /** Patching the offset of a jump, as the code generator does for forward jumps, changes
      where it goes and nothing else about it. */
  lemma PatchedJump(word: Instruction, pc: nat, offset: Operand)
    requires -131071 <= Signed(offset) <= 131072
    ensures var patched := Decode(SetArgsBx(word, offset));
            patched.op == Decode(word).op && JumpTarget(pc, patched) == pc + 1 + Signed(offset)
  {
    SignedRange(offset);
    BiasedRange(offset);
    SetSBxSetsOnlySBx(word, offset);
    OpcodeFits(word);
    BxLeavesOpcodeAndA(GetOpcode(word), GetArgA(word), offset + MAXARG_sBx);
    SBxRoundTrips(GetOpcode(word), GetArgA(word), offset);
  }

  lemma OpcodeFits(word: Instruction)
    ensures GetOpcode(word) <= MAX_OP && GetArgA(word) <= MAXARG_A
  {
  }

  // ------------------------------------------------------- a large constructor

  /** The block number 534, which follows a SETLIST as a raw word in a constructor of 26651
      items or more, reads as a jump out of the code. */
  lemma BlockNumberReadsAsJump()
    ensures Decode(534).op == JMP && Decode(534).sbx == -131071
  {
    assert GetOpcode(534) == 22;
    assert GetArgsBx(534) == 0 - 131071 && -(0 - 131071 as bv32) == 131071;
  }

  function LargeConstructor(): Code {
    [Instr(SETLIST, 0, 0, 0), Decode(534), Instr(RETURN, 0, 0, 0)]
  }

  /** So the graph has no way on from that SETLIST, although every test is paired, the data
      word is there, and nothing jumps to it. */
  lemma LargeConstructorIsNotCovered(ups: Upvalues, g: CfgGraph)
    requires GraphOf(LargeConstructor(), g)
    ensures var code := LargeConstructor();
            && Steps(code, ups, 0, 2) && TestsArePaired(code) && DataIsWhole(code, ups, 0)
            && !PassesOn(code, 1) && !IsDrawn(code, ups, 0) && !Covered(g, 0, 2)
  {
    var code := LargeConstructor();
    BlockNumberReadsAsJump();
    assert code[1] == Decode(534);
    forall p | 0 <= p < |code| ensures !MakesLeader(code, p, 1) {
    }
    DataDrawnIff(code, ups, 0, g);
    CoveredIff(code, g, 0, 2);
  }
}
