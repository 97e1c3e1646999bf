/**
 The code generator's output as it is laid out: a list of analysed blocks, each with a
 prologue that charges its static gas, joined by a map from byte offsets to blocks. It
 runs like the compiled machine that is metered by position in the program.
 */
module CompiledBlocks {
  import opened Prelude
  import opened Isa
  import opened BasicBlocks
  import opened Metering
  import opened Simulation

  /** The block that starts at byte `pc`; a later one would replace an earlier one in the map. */
  function BlockAt(blocks: seq<Block>, pc: nat): (k: Option<nat>)
    ensures k.Some? ==> k.value < |blocks| && blocks[k.value].startPc == pc
    ensures k.None? ==> forall l :: 0 <= l < |blocks| ==> blocks[l].startPc != pc
  {
    if blocks == [] then None
    else if blocks[|blocks| - 1].startPc == pc then Some(|blocks| - 1)
    else BlockAt(blocks[..|blocks| - 1], pc)
  }

  /** One instruction's result: the end of the run, or instruction `at` of block `block`. */
  datatype BlockFlow = BlockStop(out: Outcome) | BlockGo(block: nat, at: nat, regs: Regs, mem: Memory, gas: nat)

  /** Entering the block at `pc`, or ending when there is none. */
  ghost function Enter(blocks: seq<Block>, pc: nat, regs: Regs, mem: Memory, gas: nat, otherwise: Outcome): BlockFlow
  {
    match BlockAt(blocks, pc)
    case Some(k) => BlockGo(k, 0, regs, mem, gas)
    case None => BlockStop(otherwise)
  }

  /** What the code emitted for a plain instruction does once its effect is known. */
  ghost function AfterEffect(m: Machine, blocks: seq<Block>, k: nat, at: nat, effect: Effect, g: nat): BlockFlow
    requires k < |blocks| && at < |blocks[k].instrs|
  {
    match effect
    case BadAddress => BlockStop(Trapped)
    case Refused => BlockStop(Reverted(g))
    case Fault(pages) =>
      (match Drain(m, blocks[k].instrs[at], g, pages)
       case None => BlockStop(OutOfGas)
       case Some(_) => BlockStop(Trapped))
    case Done(regs, mem, pages) =>
      match Drain(m, blocks[k].instrs[at], g, pages)
      case None => BlockStop(OutOfGas)
      case Some(g') =>
        if at + 1 < |blocks[k].instrs| then BlockGo(k, at + 1, regs, mem, g')
        else Enter(blocks, blocks[k].startPc + 4 * at + 4, regs, mem, g', Success(regs, mem, g'))
  }

  /** The code emitted for instruction `at` of a block, after the prologue. */
  ghost function EmittedBody(m: Machine, blocks: seq<Block>, k: nat, at: nat, regs: Regs, mem: Memory, g: nat): BlockFlow
    requires k < |blocks| && at < |blocks[k].instrs|
  {
    var instr := blocks[k].instrs[at];
    var pc := blocks[k].startPc + 4 * at;
    if instr.Halt? then BlockStop(Success(regs, mem, g))
    else if instr.Revert? then BlockStop(Reverted(g))
    else if instr.Jmp? || (instr.Branch? && Taken(instr.cond, Read(regs, instr.rd), Read(regs, instr.rs1))) then
      Enter(blocks, (pc + SignExtend(instr.imm)) % U32, regs, mem, g, Trapped)
    else if instr.Branch? then Enter(blocks, pc + 4, regs, mem, g, Trapped)
    else AfterEffect(m, blocks, k, at, Execute(m, instr, regs, mem), g)
  }

  ghost function BlockPrologue(m: Machine, b: Block, at: nat, gas: nat): Option<nat>
  {
    if at == 0 && b.gas > 0 then
      var g := (gas + b.gas) % U64;
      if Over(m, g) then None else Some(g)
    else Some(gas)
  }

  ghost function EmittedStep(m: Machine, blocks: seq<Block>, k: nat, at: nat, regs: Regs, mem: Memory, gas: nat): BlockFlow
    requires k < |blocks| && at < |blocks[k].instrs|
  {
    match BlockPrologue(m, blocks[k], at, gas)
    case None => BlockStop(OutOfGas)
    case Some(g) => EmittedBody(m, blocks, k, at, regs, mem, g)
  }

  /** The blocks analysis yields for the machine's code. */
  ghost predicate Laid(m: Machine, blocks: seq<Block>)
  {
    4 * |m.code| < U32 && IsPartition(m.code, m.cost, blocks)
  }

  lemma {:induction false} LaidNonEmpty(m: Machine, blocks: seq<Block>)
    requires Laid(m, blocks)
    ensures NonEmpty(blocks)
  {
    forall k: nat | k < |blocks|
      ensures blocks[k].instrs != []
    {
      assert Lookup(k);
    }
  }

  /** No block is empty, so a block that is entered has an instruction. */
  ghost predicate NonEmpty(blocks: seq<Block>)
  {
    forall k :: 0 <= k < |blocks| ==> blocks[k].instrs != []
  }

  ghost function RunBlocks(m: Machine, blocks: seq<Block>, k: nat, at: nat, regs: Regs, mem: Memory, gas: nat, fuel: nat)
    : Option<Outcome>
    requires NonEmpty(blocks) && k < |blocks| && at < |blocks[k].instrs|
    decreases fuel
  {
    if fuel == 0 then None
    else
      match EmittedStep(m, blocks, k, at, regs, mem, gas)
      case BlockStop(out) => Some(out)
      case BlockGo(k', at', regs', mem', gas') => RunBlocks(m, blocks, k', at', regs', mem', gas', fuel - 1)
  }

  // ---------- Layout does not matter ----------

  /** Place `at` of block `k` holds instruction `i`, and the block ends where the next one starts. */
  ghost predicate Placed(m: Machine, blocks: seq<Block>, k: nat, at: nat, i: nat)
  {
    && k < |blocks| && at < |blocks[k].instrs| && i < |m.code|
    && blocks[k].startPc + 4 * at == 4 * i && blocks[k].instrs[at] == m.code[i]
    && (at == 0 ==> blocks[k].gas == Suffix(m.code, m.cost, i))
    && if at + 1 < |blocks[k].instrs| then i + 1 < |m.code| && !IsStart(m.code, i + 1)
       else i + 1 == |m.code| || IsStart(m.code, i + 1)
  }

  lemma {:induction false} Places(m: Machine, blocks: seq<Block>, k: nat, at: nat)
    requires Laid(m, blocks) && k < |blocks| && at < |blocks[k].instrs|
    ensures Placed(m, blocks, k, at, blocks[k].startPc / 4 + at)
  {
    assert Lookup(k);
  }

  /** Looking up `pc` finds a block exactly when a block starts there. */
  ghost predicate Enters(m: Machine, blocks: seq<Block>, pc: nat)
  {
    BlockAt(blocks, pc).Some? <==> pc % 4 == 0 && IsStart(m.code, pc / 4)
  }

  lemma {:induction false} LookupsAreExact(m: Machine, blocks: seq<Block>, pc: nat)
    requires Laid(m, blocks)
    ensures Enters(m, blocks, pc)
  {
    assert Lookup(pc / 4);
    if BlockAt(blocks, pc).Some? {
      assert Lookup(BlockAt(blocks, pc).value);
    }
  }

  ghost predicate SameFlow(m: Machine, blocks: seq<Block>, b: BlockFlow, f: Flow)
  {
    match b
    case BlockStop(out) => f == Stop(out)
    case BlockGo(k, at, regs, mem, gas) =>
      && k < |blocks| && at < |blocks[k].instrs| && blocks[k].startPc % 4 == 0
      && f == Go(blocks[k].startPc / 4 + at, at == 0, regs, mem, gas)
  }

  lemma {:induction false} BranchesAgree(m: Machine, blocks: seq<Block>, k: nat, at: nat, i: nat, regs: Regs, mem: Memory,
                                         g: nat)
    requires NonEmpty(blocks) && Placed(m, blocks, k, at, i) && 4 * |m.code| < U32 && HasBranchTarget(m.code[i])
    requires Enters(m, blocks, TargetByte(m.code, i)) && Enters(m, blocks, 4 * (i + 1))
    ensures SameFlow(m, blocks, EmittedBody(m, blocks, k, at, regs, mem, g), Body(m, i, regs, mem, g))
  {
    if Target(m.code, i).Some? {
      assert JumpedTo(m.code, |m.code|, Target(m.code, i).value);
    }
    assert i + 1 < |m.code| ==> IsStart(m.code, i + 1);
    assert 4 * (i + 1) / 4 == i + 1;
  }

  lemma {:induction false} PlainAgrees(m: Machine, blocks: seq<Block>, k: nat, at: nat, i: nat, regs: Regs, mem: Memory,
                                       g: nat)
    requires NonEmpty(blocks) && Placed(m, blocks, k, at, i) && !HasBranchTarget(m.code[i])
    requires Enters(m, blocks, 4 * (i + 1)) && blocks[k].startPc % 4 == 0
    ensures SameFlow(m, blocks, EmittedBody(m, blocks, k, at, regs, mem, g), Body(m, i, regs, mem, g))
  {
    assert 4 * (i + 1) / 4 == i + 1;
  }

  lemma {:induction false} ProloguesAgree(m: Machine, blocks: seq<Block>, k: nat, at: nat, i: nat, gas: nat)
    requires Placed(m, blocks, k, at, i)
    ensures BlockPrologue(m, blocks[k], at, gas) == Prologue(m, i, at == 0, gas)
  {
  }

  lemma {:induction false} BodiesAgree(m: Machine, blocks: seq<Block>, k: nat, at: nat, i: nat, regs: Regs, mem: Memory,
                                       g: nat)
    requires Laid(m, blocks) && NonEmpty(blocks) && Placed(m, blocks, k, at, i) && blocks[k].startPc % 4 == 0
    ensures SameFlow(m, blocks, EmittedBody(m, blocks, k, at, regs, mem, g), Body(m, i, regs, mem, g))
  {
    LookupsAreExact(m, blocks, 4 * (i + 1));
    if HasBranchTarget(m.code[i]) {
      LookupsAreExact(m, blocks, TargetByte(m.code, i));
      BranchesAgree(m, blocks, k, at, i, regs, mem, g);
    } else {
      PlainAgrees(m, blocks, k, at, i, regs, mem, g);
    }
  }

  lemma {:induction false} StepsAgree(m: Machine, blocks: seq<Block>, k: nat, at: nat, i: nat, regs: Regs, mem: Memory,
                                      gas: nat)
    requires Laid(m, blocks) && NonEmpty(blocks) && Placed(m, blocks, k, at, i) && blocks[k].startPc % 4 == 0
    ensures SameFlow(m, blocks, EmittedStep(m, blocks, k, at, regs, mem, gas),
                     CompiledStep(m, i, at == 0, regs, mem, gas))
  {
    ProloguesAgree(m, blocks, k, at, i, gas);
    var g := Prologue(m, i, at == 0, gas);
    if g.Some? {
      BodiesAgree(m, blocks, k, at, i, regs, mem, g.value);
    }
  }

  lemma {:induction false} NextPlace(m: Machine, blocks: seq<Block>, k: nat, at: nat, i: nat, regs: Regs, mem: Memory,
                                     gas: nat) returns (flow: BlockFlow, next: nat)
    requires Laid(m, blocks) && NonEmpty(blocks) && Placed(m, blocks, k, at, i) && blocks[k].startPc % 4 == 0
    ensures flow == EmittedStep(m, blocks, k, at, regs, mem, gas)
    ensures flow.BlockStop? ==> CompiledStep(m, i, at == 0, regs, mem, gas) == Stop(flow.out)
    ensures flow.BlockGo? ==>
              && Placed(m, blocks, flow.block, flow.at, next) && blocks[flow.block].startPc % 4 == 0
              && CompiledStep(m, i, at == 0, regs, mem, gas) == Go(next, flow.at == 0, flow.regs, flow.mem, flow.gas)
  {
    StepsAgree(m, blocks, k, at, i, regs, mem, gas);
    flow, next := EmittedStep(m, blocks, k, at, regs, mem, gas), 0;
    if flow.BlockGo? {
      Places(m, blocks, flow.block, flow.at);
      next := blocks[flow.block].startPc / 4 + flow.at;
    }
  }

  /** Run from corresponding places, the blocks and the machine metered by position end the same. */
  ghost predicate SameRun(m: Machine, blocks: seq<Block>, k: nat, at: nat, i: nat, regs: Regs, mem: Memory, gas: nat,
                          fuel: nat)
  {
    && NonEmpty(blocks) && k < |blocks| && at < |blocks[k].instrs| && i < |m.code|
    && RunBlocks(m, blocks, k, at, regs, mem, gas, fuel) == RunCompiled(m, i, at == 0, regs, mem, gas, fuel)
  }

  lemma {:induction false} SameStop(m: Machine, blocks: seq<Block>, k: nat, at: nat, i: nat, regs: Regs, mem: Memory,
                                    gas: nat, fuel: nat, out: Outcome)
    requires NonEmpty(blocks) && k < |blocks| && at < |blocks[k].instrs| && i < |m.code| && fuel > 0
    requires EmittedStep(m, blocks, k, at, regs, mem, gas) == BlockStop(out)
    requires CompiledStep(m, i, at == 0, regs, mem, gas) == Stop(out)
    ensures SameRun(m, blocks, k, at, i, regs, mem, gas, fuel)
  {
  }

  lemma {:induction false} SameGo(m: Machine, blocks: seq<Block>, k: nat, at: nat, i: nat, regs: Regs, mem: Memory,
                                  gas: nat, fuel: nat, flow: BlockFlow, next: nat)
    requires NonEmpty(blocks) && k < |blocks| && at < |blocks[k].instrs| && i < |m.code| && fuel > 0
    requires flow.BlockGo? && flow == EmittedStep(m, blocks, k, at, regs, mem, gas)
    requires CompiledStep(m, i, at == 0, regs, mem, gas) == Go(next, flow.at == 0, flow.regs, flow.mem, flow.gas)
    ensures SameRun(m, blocks, flow.block, flow.at, next, flow.regs, flow.mem, flow.gas, fuel - 1) ==>
              SameRun(m, blocks, k, at, i, regs, mem, gas, fuel)
  {
  }

  /** The laid-out blocks run exactly like the machine metered by position. */
  lemma {:induction false} BlocksRunCompiled(m: Machine, blocks: seq<Block>, k: nat, at: nat, i: nat, regs: Regs,
                                             mem: Memory, gas: nat, fuel: nat)
    requires Laid(m, blocks) && NonEmpty(blocks) && Placed(m, blocks, k, at, i) && blocks[k].startPc % 4 == 0
    ensures SameRun(m, blocks, k, at, i, regs, mem, gas, fuel)
    decreases fuel
  {
    if fuel > 0 {
      var flow, next := NextPlace(m, blocks, k, at, i, regs, mem, gas);
      if flow.BlockGo? {
        BlocksRunCompiled(m, blocks, flow.block, flow.at, next, flow.regs, flow.mem, flow.gas, fuel - 1);
        SameGo(m, blocks, k, at, i, regs, mem, gas, fuel, flow, next);
      } else {
        SameStop(m, blocks, k, at, i, regs, mem, gas, fuel, flow.out);
      }
    }
  }

  lemma {:induction false} EntryRuns(m: Machine, blocks: seq<Block>, regs: Regs, mem: Memory, fuel: nat)
    requires m.code != [] && Laid(m, blocks) && NonEmpty(blocks)
    ensures RunBlocks(m, blocks, 0, 0, regs, mem, 0, fuel) == RunCompiled(m, 0, true, regs, mem, 0, fuel)
  {
    Places(m, blocks, 0, 0);
    BlocksRunCompiled(m, blocks, 0, 0, 0, regs, mem, 0, fuel);
  }

  /**
   From analysed bytecode to meaning, under any gas limit: run from its entry block, the
   emitted code relates to the interpreter as the compiled machine does.
   */
  lemma {:induction false} EmittedCodeIsCorrect(m: Machine, blocks: seq<Block>, regs: Regs, mem: Memory, fuel: nat)
    requires m.code != [] && 4 * |m.code| < U32 && IsPartition(m.code, m.cost, blocks)
    ensures NonEmpty(blocks)
    ensures MeaningKept(m, RunReference(m, 0, regs, mem, 0, fuel), RunBlocks(m, blocks, 0, 0, regs, mem, 0, fuel),
                        NeverWraps(m, 0, true, regs, mem, 0, fuel), StaysInRange(m, 0, true, regs, mem, 0, fuel))
    ensures RunBlocks(m, blocks, 0, 0, regs, mem, 0, fuel) == RunCompiled(m, 0, true, regs, mem, 0, fuel)
  {
    LaidNonEmpty(m, blocks);
    EntryRuns(m, blocks, regs, mem, fuel);
    MeteringPreservesMeaning(m, regs, mem, fuel);
  }
}
