/**
 Gas metering per block against gas metering per instruction. The reference machine is
 the interpreter: it charges every instruction before executing it. The compiled machine
 charges the static gas of a whole block at its entry and drains page gas after each
 memory operation, in 64-bit arithmetic that wraps.
 */
module Metering {
  import opened Prelude
  import opened ModArith
  import opened Isa
  import opened BasicBlocks

  /** The memory behind the host calls. */
  type Memory(!new)

  type Regs = s: seq<Word> | |s| == 16 witness seq(16, i => 0)

  datatype MemOp = LoadOp(addr: u32, width: nat) | StoreOp(addr: u32, width: nat, value: Word)
                 | PushOp(value: Word) | PopOp

  /** What a memory operation yields: a value, or none on a fault, and the page gas it incurred. */
  datatype Access = Access(value: Option<Word>, mem: Memory, pages: nat)

  datatype Machine = Machine(code: seq<Instr>, cost: Instr -> nat, access: (Memory, MemOp) -> Access, limit: u64)

  function Read(regs: Regs, r: Reg): Word
  {
    if r == 0 then 0 else regs[r]
  }

  function Write(regs: Regs, r: Reg, v: Word): Regs
  {
    if r == 0 then regs else regs[r := v]
  }

  // ---------- Plain instructions ----------

  datatype Effect = Done(regs: Regs, mem: Memory, pages: nat) | Fault(pages: nat) | BadAddress | Refused

  function Operand(regs: Regs, op: AluOp, imm: Imm): Word
  {
    if op == Addi then (SignExtend(imm) % U64) as Word else Read(regs, imm % 16)
  }

  function Finish(a: Access, regs: Regs, rd: Reg): Effect
  {
    if a.value.None? then Fault(a.pages) else Done(Write(regs, rd, a.value.value), a.mem, a.pages)
  }

  function EffectiveAddress(regs: Regs, rs1: Reg, imm: Imm): int
  {
    Read(regs, rs1) as int + MemOffset(imm)
  }

  /** A memory instruction with its effective address resolved. */
  function AccessMemory(m: Machine, i: Instr, regs: Regs, mem: Memory, addr: u32): Effect
    requires i.Load? || i.Store?
  {
    if i.Load? then Finish(m.access(mem, LoadOp(addr, MemWidth(i.imm))), regs, i.rd)
    else Finish(m.access(mem, StoreOp(addr, MemWidth(i.imm), Read(regs, i.rd))), regs, 0)
  }

  /** An arithmetic instruction with its result computed. */
  function Computed(v: Option<Word>, regs: Regs, mem: Memory, rd: Reg): Effect
  {
    if v.None? then Fault(0) else Done(Write(regs, rd, v.value), mem, 0)
  }

  /** The instructions that involve neither arithmetic nor an address. */
  function Direct(m: Machine, i: Instr, regs: Regs, mem: Memory): Effect
  {
    match i
    case Push(rd) => Finish(m.access(mem, PushOp(Read(regs, rd))), regs, 0)
    case Pop(rd) => Finish(m.access(mem, PopOp), regs, rd)
    case Assert(rs1) => if Read(regs, rs1) == 0 then Refused else Done(regs, mem, 0)
    case _ => Fault(0)
  }

  /** The interpreter refuses addresses outside 32 bits. */
  function Interpret(m: Machine, i: Instr, regs: Regs, mem: Memory): Effect
  {
    if i.Alu? then Computed(Interpreted(i.op, Read(regs, i.rs1), Operand(regs, i.op, i.imm)), regs, mem, i.rd)
    else if i.Load? || i.Store? then
      var addr := EffectiveAddress(regs, i.rs1, i.imm);
      if 0 <= addr < U32 then AccessMemory(m, i, regs, mem, addr) else BadAddress
    else Direct(m, i, regs, mem)
  }

  /** The compiled code adds in 64 bits and the host truncates to 32. */
  function Execute(m: Machine, i: Instr, regs: Regs, mem: Memory): Effect
  {
    if i.Alu? then Computed(Emitted(i.op, Read(regs, i.rs1), Operand(regs, i.op, i.imm)), regs, mem, i.rd)
    else if i.Load? || i.Store? then
      AccessMemory(m, i, regs, mem, EffectiveAddress(regs, i.rs1, i.imm) % U64 % U32)
    else Direct(m, i, regs, mem)
  }

  /** The address an instruction accesses lies in 32 bits. */
  predicate InRange(i: Instr, regs: Regs)
  {
    i.Load? || i.Store? ==> 0 <= EffectiveAddress(regs, i.rs1, i.imm) < U32
  }

  /** The emitted code does what the interpreter does, exactly on addresses of 32 bits. */
  lemma {:induction false} SameEffect(m: Machine, i: Instr, regs: Regs, mem: Memory)
    ensures Execute(m, i, regs, mem) == Interpret(m, i, regs, mem) <==> InRange(i, regs)
    ensures Interpret(m, i, regs, mem) == BadAddress <==> !InRange(i, regs)
  {
    if i.Alu? {
      ArithmeticAgrees(i.op, Read(regs, i.rs1), Operand(regs, i.op, i.imm));
    } else if (i.Load? || i.Store?) && InRange(i, regs) {
      TruncationKeeps(EffectiveAddress(regs, i.rs1, i.imm));
    }
  }

  lemma {:induction false} TruncationKeeps(addr: int)
    requires 0 <= addr < U32
    ensures addr % U64 % U32 == addr
  {
  }

  // ---------- The two machines ----------

  datatype Outcome = Success(regs: Regs, mem: Memory, gas: nat) | RanOff(regs: Regs, mem: Memory, gas: nat)
                   | Reverted(gas: nat) | OutOfGas | Trapped | UnsafeAddress

  /** One instruction's result: the end of the run, or where it goes on; `entry` when a block is entered. */
  datatype Flow = Stop(out: Outcome) | Go(at: nat, entry: bool, regs: Regs, mem: Memory, gas: nat)

  predicate Over(m: Machine, gas: nat)
  {
    m.limit > 0 && gas > m.limit
  }

  /** Where a jump or branch at `i` leads; None traps. */
  function NextAfterBranch(code: seq<Instr>, i: nat, regs: Regs): Option<nat>
    requires i < |code| && HasBranchTarget(code[i])
  {
    match code[i]
    case Jmp(_) => Target(code, i)
    case Branch(cond, rd, rs1, _) =>
      if Taken(cond, Read(regs, rd), Read(regs, rs1)) then Target(code, i)
      else if i + 1 < |code| then Some(i + 1) else None
  }

  ghost function ReferenceStep(m: Machine, i: nat, regs: Regs, mem: Memory, gas: nat): Flow
    requires i < |m.code|
  {
    var instr := m.code[i];
    var g := gas + m.cost(instr);
    if g >= U64 || Over(m, g) then Stop(OutOfGas)
    else if instr.Halt? then Stop(Success(regs, mem, g))
    else if instr.Revert? then Stop(Reverted(g))
    else if HasBranchTarget(instr) then
      match NextAfterBranch(m.code, i, regs)
      case None => Stop(Trapped)
      case Some(j) => Go(j, true, regs, mem, g)
    else
      match Interpret(m, instr, regs, mem)
      case BadAddress => Stop(UnsafeAddress)
      case Fault(_) => Stop(Trapped)
      case Refused => Stop(Reverted(g))
      case Done(regs', mem', pages) =>
        var g' := g + pages;
        if pages > 0 && (g' >= U64 || Over(m, g')) then Stop(OutOfGas)
        else if i + 1 == |m.code| then Stop(RanOff(regs', mem', g'))
        else Go(i + 1, IsStart(m.code, i + 1), regs', mem', g')
  }

  /** The gas counter after the block prologue; None is out of gas. */
  ghost function Prologue(m: Machine, i: nat, entry: bool, gas: nat): Option<nat>
    requires i < |m.code|
  {
    var blockGas := Suffix(m.code, m.cost, i);
    if entry && blockGas > 0 then
      var g := (gas + blockGas) % U64;
      if Over(m, g) then None else Some(g)
    else Some(gas)
  }

  /** The gas counter after draining page gas; None is out of gas. */
  function Drain(m: Machine, i: Instr, gas: nat, pages: nat): Option<nat>
  {
    if IsMemory(i) then
      var g := (gas + pages) % U64;
      if Over(m, g) then None else Some(g)
    else Some(gas)
  }

  /** The compiled body of one instruction: no static charge. */
  ghost function Body(m: Machine, i: nat, regs: Regs, mem: Memory, g: nat): Flow
    requires i < |m.code|
  {
    var instr := m.code[i];
    if instr.Halt? then Stop(Success(regs, mem, g))
    else if instr.Revert? then Stop(Reverted(g))
    else if HasBranchTarget(instr) then
      match NextAfterBranch(m.code, i, regs)
      case None => Stop(Trapped)
      case Some(j) => if IsStart(m.code, j) then Go(j, true, regs, mem, g) else Stop(Trapped)
    else
      match Execute(m, instr, regs, mem)
      case BadAddress => Stop(Trapped)
      case Refused => Stop(Reverted(g))
      case Fault(pages) =>
        (match Drain(m, instr, g, pages)
         case None => Stop(OutOfGas)
         case Some(_) => Stop(Trapped))
      case Done(regs', mem', pages) =>
        match Drain(m, instr, g, pages)
        case None => Stop(OutOfGas)
        case Some(g') =>
          if i + 1 == |m.code| then Stop(Success(regs', mem', g'))
          else Go(i + 1, IsStart(m.code, i + 1), regs', mem', g')
  }

  ghost function CompiledStep(m: Machine, i: nat, entry: bool, regs: Regs, mem: Memory, gas: nat): Flow
    requires i < |m.code|
  {
    match Prologue(m, i, entry, gas)
    case None => Stop(OutOfGas)
    case Some(g) => Body(m, i, regs, mem, g)
  }

  /** The reference run of at most `fuel` instructions; None while it is still going. */
  ghost function RunReference(m: Machine, i: nat, regs: Regs, mem: Memory, gas: nat, fuel: nat): Option<Outcome>
    requires i < |m.code|
    decreases fuel
  {
    if fuel == 0 then None
    else
      match ReferenceStep(m, i, regs, mem, gas)
      case Stop(out) => Some(out)
      case Go(j, _, regs', mem', gas') => RunReference(m, j, regs', mem', gas', fuel - 1)
  }

  ghost function RunCompiled(m: Machine, i: nat, entry: bool, regs: Regs, mem: Memory, gas: nat, fuel: nat)
    : Option<Outcome>
    requires i < |m.code|
    decreases fuel
  {
    if fuel == 0 then None
    else
      match CompiledStep(m, i, entry, regs, mem, gas)
      case Stop(out) => Some(out)
      case Go(j, entry', regs', mem', gas') => RunCompiled(m, j, entry', regs', mem', gas', fuel - 1)
  }
}
