/**
 The instructions of the virtual machine that the ahead-of-time compiler handles
 itself: their operands, the arithmetic of the interpreter, and the arithmetic of the
 code the compiler emits for them.
 */
module Isa {
  import opened Prelude

  type Word = bv64

  datatype AluOp = Add | Sub | Mul | Div | Mod | Addi | And | Or | Xor | Not | Shl | Shr | Sar
                 | Lt | Gt | Eq | Slt | Sgt

  datatype Condition = IfEqual | IfNotEqual | IfBelow | IfNotBelow

  type Reg = r: nat | r < 16

  /** The raw 18-bit immediate field. */
  type Imm = i: nat | i < 0x4_0000

  /**
   Decoded instructions. `Unsupported` stands for the opcodes both machines refuse;
   calls, storage, logs and the delegated opcodes are not part of this model.
   */
  datatype Instr =
    | Alu(op: AluOp, rd: Reg, rs1: Reg, imm: Imm)
    | Load(rd: Reg, rs1: Reg, imm: Imm)
    | Store(rd: Reg, rs1: Reg, imm: Imm)
    | Push(rd: Reg)
    | Pop(rd: Reg)
    | Assert(rs1: Reg)
    | Jmp(imm: Imm)
    | Branch(cond: Condition, rd: Reg, rs1: Reg, imm: Imm)
    | Halt
    | Revert
    | Unsupported

  /** The 18-bit field as a two's complement number. */
  function SignExtend(imm: Imm): int
  {
    if imm < 0x2_0000 then imm else imm - 0x4_0000
  }

  /** The signed offset of a memory operand: the upper 16 bits of the field. */
  function MemOffset(imm: Imm): int
  {
    var bits := imm / 4;
    if bits < 0x8000 then bits else bits - 0x1_0000
  }

  function MemWidth(imm: Imm): nat
  {
    imm % 4
  }

  function IsTerminator(i: Instr): bool
  {
    i.Jmp? || i.Branch? || i.Halt? || i.Revert?
  }

  function HasBranchTarget(i: Instr): bool
  {
    i.Jmp? || i.Branch?
  }

  function IsMemory(i: Instr): bool
  {
    i.Load? || i.Store? || i.Push? || i.Pop?
  }

  function Taken(cond: Condition, a: Word, b: Word): bool
  {
    match cond
    case IfEqual => a == b
    case IfNotEqual => a != b
    case IfBelow => a < b
    case IfNotBelow => a >= b
  }

  // ---------- Shifts ----------

  datatype ShiftOp = Left | Right | RightSigned

  const SIGN_BIT: Word := 0x8000_0000_0000_0000

  function ShiftLeft(a: Word, b: bv7): Word
    requires b < 64
  {
    a << b
  }

  function ShiftRight(a: Word, b: bv7): Word
    requires b < 64
  {
    a >> b
  }

  /** Arithmetic right shift. */
  function SignedShift(a: Word, b: bv7): Word
    requires b < 64
  {
    if a & SIGN_BIT == 0 then a >> b else !(!a >> b)
  }

  /** A shift as the interpreter computes it: large amounts shift everything out. */
  function InterpretedShift(op: ShiftOp, a: Word, b: Word): Word
  {
    match op
    case Left => if b >= 64 then 0 else ShiftLeft(a, b as bv7)
    case Right => if b >= 64 then 0 else ShiftRight(a, b as bv7)
    case RightSigned =>
      if b >= 64 then (if a & SIGN_BIT != 0 then 0xFFFF_FFFF_FFFF_FFFF else 0) else SignedShift(a, b as bv7)
  }

  /** The hardware's shifts use only the low six bits of the amount. */
  function Masked(b: Word): (s: bv7)
    ensures s < 64
  {
    (b & 63) as bv7
  }

  /** The emitted code shifts by the masked amount and selects a fill value for large amounts. */
  function EmittedShift(op: ShiftOp, a: Word, b: Word): Word
  {
    var oversize := b >= 64;
    match op
    case Left => var shifted := ShiftLeft(a, Masked(b)); if oversize then 0 else shifted
    case Right => var shifted := ShiftRight(a, Masked(b)); if oversize then 0 else shifted
    case RightSigned =>
      var shifted, signFill := SignedShift(a, Masked(b)), SignedShift(a, 63);
      if oversize then signFill else shifted
  }

  lemma {:induction false} MaskedIsAmount(b: Word)
    requires b < 64
    ensures Masked(b) == b as bv7
  {
    assert b & 63 == b;
  }

  lemma {:induction false} SignFill(a: Word)
    ensures SignedShift(a, 63) == if a & SIGN_BIT != 0 then 0xFFFF_FFFF_FFFF_FFFF else 0
  {
  }

  /** Emitted shifts agree with the interpreter's for every amount. */
  lemma {:induction false} ShiftsAgree(op: ShiftOp, a: Word, b: Word)
    ensures EmittedShift(op, a, b) == InterpretedShift(op, a, b)
  {
    if b < 64 {
      MaskedIsAmount(b);
    } else {
      SignFill(a);
    }
  }

  // ---------- The arithmetic of the two machines ----------

  predicate IsChecked(op: AluOp)
  {
    op == Add || op == Sub || op == Mul || op == Div || op == Mod
  }

  predicate IsShift(op: AluOp)
  {
    op == Shl || op == Shr || op == Sar
  }

  function ShiftOf(op: AluOp): ShiftOp
    requires IsShift(op)
  {
    if op == Shl then Left else if op == Shr then Right else RightSigned
  }

  function Product(a: Word, b: Word): Option<Word>
  {
    if a as int * b as int < U64 then Some(a * b) else None
  }

  function Quotient(a: Word, b: Word): Option<Word>
  {
    if b == 0 then None else Some(a / b)
  }

  function Remainder(a: Word, b: Word): Option<Word>
  {
    if b == 0 then None else Some(a % b)
  }

  /** Arithmetic that traps: on overflow, on a negative difference, on a zero divisor. */
  function Checked(op: AluOp, a: Word, b: Word): Option<Word>
    requires IsChecked(op)
  {
    match op
    case Add => if a as int + b as int < U64 then Some(a + b) else None
    case Sub => if b <= a then Some(a - b) else None
    case Mul => Product(a, b)
    case Div => Quotient(a, b)
    case Mod => Remainder(a, b)
  }

  /** `a < b` as two's complement numbers. */
  predicate SignedBelow(a: Word, b: Word)
  {
    a ^ SIGN_BIT < b ^ SIGN_BIT
  }

  function Flag(condition: bool): Word
  {
    if condition then 1 else 0
  }

  /** Arithmetic both machines do with the same instruction. */
  function Plain(op: AluOp, a: Word, b: Word): Word
    requires !IsChecked(op) && !IsShift(op)
  {
    match op
    case Addi => a + b
    case And => a & b
    case Or => a | b
    case Xor => a ^ b
    case Not => !a
    case Lt => Flag(a < b)
    case Gt => Flag(b < a)
    case Eq => Flag(a == b)
    case Slt => Flag(SignedBelow(a, b))
    case Sgt => Flag(SignedBelow(b, a))
  }

  /** The interpreter's arithmetic; None traps. */
  function Interpreted(op: AluOp, a: Word, b: Word): Option<Word>
  {
    if IsChecked(op) then Checked(op, a, b)
    else if IsShift(op) then Some(InterpretedShift(ShiftOf(op), a, b))
    else Some(Plain(op, a, b))
  }

  /** A host call reports a value, zero on a trap, and writes a trap flag, on which the emitted code traps. */
  function ThroughHost(result: Option<Word>): Option<Word>
  {
    var (value, trap) := if result.Some? then (result.value, false) else (0, true);
    if trap then None else Some(value)
  }

  /** The emitted arithmetic; None traps. */
  function Emitted(op: AluOp, a: Word, b: Word): Option<Word>
  {
    if IsChecked(op) then ThroughHost(Checked(op, a, b))
    else if IsShift(op) then Some(EmittedShift(ShiftOf(op), a, b))
    else Some(Plain(op, a, b))
  }

  /** Every operation means the same to the interpreter and to the emitted code. */
  lemma {:induction false} ArithmeticAgrees(op: AluOp, a: Word, b: Word)
    ensures Emitted(op, a, b) == Interpreted(op, a, b)
  {
    if IsShift(op) {
      ShiftsAgree(ShiftOf(op), a, b);
    }
  }
}
