/**
 * The 32-bit instruction format, src/compiler/opcode.hpp:49-68 and 194-318. An i32 operand is
 * its bit pattern, so that the casts between i32 and u32 change nothing.
 */
module Opcode {

  type Instruction = bv32
  type Operand = bv32

  const SIZE_C: bv32 := 9
  const SIZE_B: bv32 := 9
  const SIZE_Bx: bv32 := 18
  const SIZE_A: bv32 := 8
  const SIZE_OP: bv32 := 6

  const POS_OP: bv32 := 0
  const POS_A: bv32 := 6
  const POS_C: bv32 := 14
  const POS_B: bv32 := 23
  const POS_Bx: bv32 := 14

  const MAXARG_Bx: bv32 := 262143
  const MAXARG_sBx: bv32 := 131071
  const MAXARG_A: bv32 := 255
  const MAXARG_B: bv32 := 511
  const MAXARG_C: bv32 := 511
  const BITRK: bv32 := 256
  const MAX_OP: bv32 := 63

  function Mask1(n: bv32, p: bv32): bv32
    requires n <= 32 && p <= 32
  {
    (!((!(0 as bv32)) << n)) << p
  }

  function GetOpcode(i: Instruction): bv32 { (i >> POS_OP) & Mask1(SIZE_OP, 0) }
  function GetArgA(i: Instruction): Operand { (i >> POS_A) & Mask1(SIZE_A, 0) }
  function GetArgB(i: Instruction): Operand { (i >> POS_B) & Mask1(SIZE_B, 0) }
  function GetArgC(i: Instruction): Operand { (i >> POS_C) & Mask1(SIZE_C, 0) }
  function GetArgBx(i: Instruction): Operand { (i >> POS_Bx) & Mask1(SIZE_Bx, 0) }
  function GetArgsBx(i: Instruction): Operand { GetArgBx(i) - MAXARG_sBx }

  function CreateABC(o: bv32, a: Operand, b: Operand, c: Operand): Instruction {
    (o << POS_OP) | (a << POS_A) | (b << POS_B) | (c << POS_C)
  }

  function CreateABx(o: bv32, a: Operand, bx: Operand): Instruction {
    (o << POS_OP) | (a << POS_A) | (bx << POS_Bx)
  }

  function CreateAsBx(o: bv32, a: Operand, sbx: Operand): Instruction {
    CreateABx(o, a, sbx + MAXARG_sBx)
  }

  /** `SETARG_A`, `SETARG_B` and `SETARG_C`, which write through a reference. */
  function SetField(i: Instruction, size: bv32, pos: bv32, v: Operand): Instruction
    requires size <= 32 && pos <= 32
  {
    (i & !Mask1(size, pos)) | ((v << pos) & Mask1(size, pos))
  }

  function SetArgA(i: Instruction, a: Operand): Instruction { SetField(i, SIZE_A, POS_A, a) }
  function SetArgB(i: Instruction, b: Operand): Instruction { SetField(i, SIZE_B, POS_B, b) }
  function SetArgC(i: Instruction, c: Operand): Instruction { SetField(i, SIZE_C, POS_C, c) }
  function SetArgsBx(i: Instruction, sbx: Operand): Instruction { SetField(i, SIZE_Bx, POS_Bx, sbx + MAXARG_sBx) }

  function IsK(x: Operand): bool { x & BITRK != 0 }
  function IndexK(r: Operand): Operand { r & !BITRK }
  function RkAsK(x: Operand): Operand { x | BITRK }

  // --------------------------------------------------------------- round trips

  predicate FieldsFit(o: bv32, a: Operand, b: Operand, c: Operand) {
    o <= MAX_OP && a <= MAXARG_A && b <= MAXARG_B && c <= MAXARG_C
  }

  lemma OpcodeDecodes(o: bv32, a: Operand, b: Operand, c: Operand)
    requires FieldsFit(o, a, b, c)
    ensures GetOpcode(CreateABC(o, a, b, c)) == o
  {
  }

  lemma ADecodes(o: bv32, a: Operand, b: Operand, c: Operand)
    requires FieldsFit(o, a, b, c)
    ensures GetArgA(CreateABC(o, a, b, c)) == a
  {
  }

  lemma BDecodes(o: bv32, a: Operand, b: Operand, c: Operand)
    requires FieldsFit(o, a, b, c)
    ensures GetArgB(CreateABC(o, a, b, c)) == b
  {
  }

  lemma CDecodes(o: bv32, a: Operand, b: Operand, c: Operand)
    requires FieldsFit(o, a, b, c)
    ensures GetArgC(CreateABC(o, a, b, c)) == c
  {
  }

  lemma EveryWordIsABC(i: Instruction)
    ensures CreateABC(GetOpcode(i), GetArgA(i), GetArgB(i), GetArgC(i)) == i
    ensures CreateABx(GetOpcode(i), GetArgA(i), GetArgBx(i)) == i
    ensures CreateAsBx(GetOpcode(i), GetArgA(i), GetArgsBx(i)) == i
  {
  }

  lemma BxDecodes(o: bv32, a: Operand, bx: Operand)
    requires o <= MAX_OP && a <= MAXARG_A
    ensures GetArgBx(CreateABx(o, a, bx)) == bx & MAXARG_Bx
  {
  }

  lemma BxLeavesOpcodeAndA(o: bv32, a: Operand, bx: Operand)
    requires o <= MAX_OP && a <= MAXARG_A
    ensures GetOpcode(CreateABx(o, a, bx)) == o && GetArgA(CreateABx(o, a, bx)) == a
  {
  }

  lemma BiasedRange(x: Operand)
    ensures x + MAXARG_sBx <= MAXARG_Bx <==> x <= 131072 || -x <= 131071
  {
  }

  /** As an i32, in two's complement. */
  function Signed(x: Operand): int {
    if x < 0x8000_0000 then x as int else -((-x) as int)
  }

  lemma SmallRange(x: bv32)
    ensures x <= 131072 <==> (x as int) <= 131072
    ensures x <= 131071 <==> (x as int) <= 131071
  {
  }

  lemma SignsExclude(x: Operand)
    ensures x < 0x8000_0000 ==> -x > 131071 || x == 0
    ensures x >= 0x8000_0000 ==> x > 131072
  {
  }

  lemma SignedRange(x: Operand)
    ensures -131071 <= Signed(x) <= 131072 <==> x <= 131072 || -x <= 131071
  {
    SmallRange(x);
    SmallRange(-x);
    SignsExclude(x);
  }

  /** sBx round-trips on exactly [-131071, 131072]. */
  lemma SBxRoundTrips(o: bv32, a: Operand, sbx: Operand)
    requires o <= MAX_OP && a <= MAXARG_A
    ensures GetArgsBx(CreateAsBx(o, a, sbx)) == sbx <==> -131071 <= Signed(sbx) <= 131072
  {
    SBxFitsIff(o, a, sbx);
    BiasedRange(sbx);
    SignedRange(sbx);
  }

  lemma SBxFitsIff(o: bv32, a: Operand, sbx: Operand)
    requires o <= MAX_OP && a <= MAXARG_A
    ensures GetArgsBx(CreateAsBx(o, a, sbx)) == sbx <==> sbx + MAXARG_sBx <= MAXARG_Bx
  {
    DecodedSBx(o, a, sbx);
    OffsetFits(sbx);
  }

  lemma OffsetFits(x: bv32)
    ensures ((x + MAXARG_sBx) & MAXARG_Bx) - MAXARG_sBx == x <==> x + MAXARG_sBx <= MAXARG_Bx
  {
    var y := x + MAXARG_sBx;
    if y <= MAXARG_Bx {
      MaskKeeps(y);
      Unbias(x, y);
    } else {
      MaskChanges(y);
      BiasIsOneToOne(y & MAXARG_Bx, y);
      Unbias(x, y);
    }
  }

  lemma MaskKeeps(y: bv32)
    requires y <= MAXARG_Bx
    ensures y & MAXARG_Bx == y
  {
  }

  lemma MaskChanges(y: bv32)
    requires y > MAXARG_Bx
    ensures y & MAXARG_Bx != y
  {
  }

  lemma Unbias(x: bv32, y: bv32)
    requires y == x + MAXARG_sBx
    ensures y - MAXARG_sBx == x
  {
  }

  lemma BiasIsOneToOne(a: bv32, b: bv32)
    requires a != b
    ensures a - MAXARG_sBx != b - MAXARG_sBx
  {
  }

  lemma DecodedSBx(o: bv32, a: Operand, sbx: Operand)
    requires o <= MAX_OP && a <= MAXARG_A
    ensures GetArgsBx(CreateAsBx(o, a, sbx)) == ((sbx + MAXARG_sBx) & MAXARG_Bx) - MAXARG_sBx
  {
    BxDecodes(o, a, sbx + MAXARG_sBx);
  }

  // ------------------------------------------------------------ field updates

  lemma SetASetsOnlyA(i: Instruction, v: Operand)
    requires v <= MAXARG_A
    ensures SetArgA(i, v) == CreateABC(GetOpcode(i), v, GetArgB(i), GetArgC(i))
  {
  }

  lemma SetBSetsOnlyB(i: Instruction, v: Operand)
    requires v <= MAXARG_B
    ensures SetArgB(i, v) == CreateABC(GetOpcode(i), GetArgA(i), v, GetArgC(i))
  {
  }

  lemma SetCSetsOnlyC(i: Instruction, v: Operand)
    requires v <= MAXARG_C
    ensures SetArgC(i, v) == CreateABC(GetOpcode(i), GetArgA(i), GetArgB(i), v)
  {
  }

  lemma SetSBxSetsOnlySBx(i: Instruction, v: Operand)
    requires v + MAXARG_sBx <= MAXARG_Bx
    ensures SetArgsBx(i, v) == CreateAsBx(GetOpcode(i), GetArgA(i), v)
  {
  }

  // -------------------------------------------------------------- the layout

  /** Where the fields lie: the opcode in the lowest six bits, above it A, C and B. */
  lemma FieldsAreDigits(o: bv32, a: Operand, b: Operand, c: Operand)
    requires FieldsFit(o, a, b, c)
    ensures CreateABC(o, a, b, c) == o + 64 * a + 16384 * c + 8388608 * b
  {
  }

  lemma BxIsDigit(o: bv32, a: Operand, bx: Operand)
    requires o <= MAX_OP && a <= MAXARG_A && bx <= MAXARG_Bx
    ensures CreateABx(o, a, bx) == o + 64 * a + 16384 * bx
  {
  }

  /** The constant bit is the highest of nine. */
  lemma ConstantsFromHalfOn(x: Operand)
    requires x <= MAXARG_B
    ensures IsK(x) <==> x >= 256
    ensures IsK(x) ==> IndexK(x) == x - 256
    ensures !IsK(x) ==> IndexK(x) == x && RkAsK(x) == x + 256
  {
  }

  /** Constant indexes up to 255 survive the RK encoding. */
  lemma RkRoundTrip(x: Operand)
    ensures IsK(RkAsK(x))
    ensures IndexK(RkAsK(x)) == x <==> !IsK(x)
  {
  }
}
