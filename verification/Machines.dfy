/**
 The two machines as they run: the interpreter steps through its own program counter,
 registers, memory and gas; the emitted code jumps between blocks found in a map from
 byte offsets and updates a gas counter. Runs are cut off after a number of instructions.
 */
module Machines {
  import opened Prelude
  import opened Isa
  import opened BasicBlocks
  import opened Metering
  import opened Simulation
  import opened CompiledBlocks
  import opened Divergence

  class Vm {
    const m: Machine
    var at: nat
    var regs: Regs
    var mem: Memory
    var gas: nat

    constructor (m: Machine, regs: Regs, mem: Memory)
      ensures this.m == m && at == 0 && this.regs == regs && this.mem == mem && gas == 0
    {
      this.m, at, this.regs, this.mem, gas := m, 0, regs, mem, 0;
    }

    method Charge(amount: nat) returns (enough: bool)
      modifies this`gas
      ensures gas == old(gas) + amount
      ensures enough <==> gas < U64 && !Over(m, gas)
    {
      gas := gas + amount;
      enough := gas < U64 && !(m.limit > 0 && gas > m.limit);
    }

    /** A jump or branch sets the program counter or traps. */
    method TakeBranch() returns (ok: bool)
      requires at < |m.code| && HasBranchTarget(m.code[at])
      modifies this`at
      ensures match NextAfterBranch(m.code, old(at), regs)
              case None => !ok
              case Some(j) => ok && at == j
    {
      var instr := m.code[at];
      if instr.Jmp? || Taken(instr.cond, Read(regs, instr.rd), Read(regs, instr.rs1)) {
        var target := Target(m.code, at);
        if target.None? {
          return false;
        }
        at := target.value;
      } else {
        if at + 1 == |m.code| {
          return false;
        }
        at := at + 1;
      }
      ok := true;
    }

    /** One instruction: charge it, execute it, charge the pages it touched. */
    method Step() returns (done: Option<Outcome>)
      requires at < |m.code|
      modifies this
      ensures match ReferenceStep(m, old(at), old(regs), old(mem), old(gas))
              case Stop(out) => done == Some(out)
              case Go(j, _, regs', mem', gas') =>
                done == None && at == j && regs == regs' && mem == mem' && gas == gas' && at < |m.code|
    {
      var instr := m.code[at];
      var enough := Charge(m.cost(instr));
      if !enough {
        return Some(OutOfGas);
      }
      if instr.Halt? {
        return Some(Success(regs, mem, gas));
      }
      if instr.Revert? {
        return Some(Reverted(gas));
      }
      if HasBranchTarget(instr) {
        var ok := TakeBranch();
        return if ok then None else Some(Trapped);
      }
      match Interpret(m, instr, regs, mem) {
        case BadAddress => return Some(UnsafeAddress);
        case Fault(_) => return Some(Trapped);
        case Refused => return Some(Reverted(gas));
        case Done(regs', mem', pages) =>
          regs, mem := regs', mem';
          if pages > 0 {
            enough := Charge(pages);
            if !enough {
              return Some(OutOfGas);
            }
          }
          if at + 1 == |m.code| {
            return Some(RanOff(regs, mem, gas));
          }
          at := at + 1;
          return None;
      }
    }

    /** Steps until the program ends or the instructions are used up. */
    method Run(fuel: nat) returns (out: Option<Outcome>)
      requires at < |m.code|
      modifies this
      ensures out == RunReference(m, old(at), old(regs), old(mem), old(gas), fuel)
    {
      var left: nat := fuel;
      while left > 0
        invariant at < |m.code| && left <= fuel
        invariant RunReference(m, old(at), old(regs), old(mem), old(gas), fuel)
               == RunReference(m, at, regs, mem, gas, left)
      {
        ReferenceUnfolds(m, at, regs, mem, gas, left);
        out := Step();
        if out.Some? {
          return;
        }
        left := left - 1;
      }
      out := None;
    }
  }

  // ---------- Emitted code ----------

  /** The map the code generator resolves jump targets with. */
  ghost predicate Indexes(index: map<nat, nat>, blocks: seq<Block>)
  {
    forall pc: nat :: BlockAt(blocks, pc) == if pc in index then Some(index[pc]) else None
  }

  method IndexBlocks(blocks: seq<Block>) returns (index: map<nat, nat>)
    ensures Indexes(index, blocks)
  {
    index := map[];
    for k := 0 to |blocks|
      invariant Indexes(index, blocks[..k])
    {
      assert blocks[..k + 1][..k] == blocks[..k];
      index := index[blocks[k].startPc := k];
    }
    assert blocks[..|blocks|] == blocks;
  }

  method EnterBlock(blocks: seq<Block>, index: map<nat, nat>, pc: nat, regs: Regs, mem: Memory, gas: nat, otherwise: Outcome)
    returns (flow: BlockFlow)
    requires Indexes(index, blocks)
    ensures flow == Enter(blocks, pc, regs, mem, gas, otherwise)
  {
    assert BlockAt(blocks, pc) == if pc in index then Some(index[pc]) else None;
    flow := if pc in index then BlockGo(index[pc], 0, regs, mem, gas) else BlockStop(otherwise);
  }

  /** The code emitted for one instruction, with the block's prologue in front of its first. */
  method StepEmitted(m: Machine, blocks: seq<Block>, index: map<nat, nat>, k: nat, at: nat, regs: Regs, mem: Memory, gas: nat)
    returns (flow: BlockFlow)
    requires k < |blocks| && at < |blocks[k].instrs| && Indexes(index, blocks)
    ensures flow == EmittedStep(m, blocks, k, at, regs, mem, gas)
  {
    var gasUsed := gas;
    if at == 0 && blocks[k].gas > 0 {
      gasUsed := (gasUsed + blocks[k].gas) % U64;
      if m.limit != 0 && gasUsed > m.limit {
        return BlockStop(OutOfGas);
      }
    }
    flow := BodyEmitted(m, blocks, index, k, at, regs, mem, gasUsed);
  }

  method BodyEmitted(m: Machine, blocks: seq<Block>, index: map<nat, nat>, k: nat, at: nat, regs: Regs, mem: Memory, g: nat)
    returns (flow: BlockFlow)
    requires k < |blocks| && at < |blocks[k].instrs| && Indexes(index, blocks)
    ensures flow == EmittedBody(m, blocks, k, at, regs, mem, g)
  {
    var instr := blocks[k].instrs[at];
    var pc := blocks[k].startPc + 4 * at;
    if instr.Halt? {
      return BlockStop(Success(regs, mem, g));
    }
    if instr.Revert? {
      return BlockStop(Reverted(g));
    }
    if instr.Jmp? || (instr.Branch? && Taken(instr.cond, Read(regs, instr.rd), Read(regs, instr.rs1))) {
      flow := EnterBlock(blocks, index, (pc + SignExtend(instr.imm)) % U32, regs, mem, g, Trapped);
      return;
    }
    if instr.Branch? {
      flow := EnterBlock(blocks, index, pc + 4, regs, mem, g, Trapped);
      return;
    }
    flow := FinishEmitted(m, blocks, index, k, at, Execute(m, instr, regs, mem), g);
  }

  /** Charges the page gas of a memory operation, then traps or goes on to the next instruction or block. */
  method FinishEmitted(m: Machine, blocks: seq<Block>, index: map<nat, nat>, k: nat, at: nat, effect: Effect, g: nat)
    returns (flow: BlockFlow)
    requires k < |blocks| && at < |blocks[k].instrs| && Indexes(index, blocks)
    ensures flow == AfterEffect(m, blocks, k, at, effect, g)
  {
    if effect.BadAddress? {
      return BlockStop(Trapped);
    }
    if effect.Refused? {
      return BlockStop(Reverted(g));
    }
    var gasUsed := g;
    if IsMemory(blocks[k].instrs[at]) {
      gasUsed := (gasUsed + effect.pages) % U64;
      if m.limit != 0 && gasUsed > m.limit {
        return BlockStop(OutOfGas);
      }
    }
    if effect.Fault? {
      return BlockStop(Trapped);
    }
    if at + 1 < |blocks[k].instrs| {
      return BlockGo(k, at + 1, effect.regs, effect.mem, gasUsed);
    }
    flow := EnterBlock(blocks, index, blocks[k].startPc + 4 * at + 4, effect.regs, effect.mem, gasUsed,
                       Success(effect.regs, effect.mem, gasUsed));
  }

  /** The emitted code, run from a place in a block, ends with `out`. */
  ghost predicate Yields(m: Machine, blocks: seq<Block>, k: nat, at: nat, regs: Regs, mem: Memory, gas: nat, fuel: nat,
                         out: Option<Outcome>)
  {
    && NonEmpty(blocks) && k < |blocks| && at < |blocks[k].instrs|
    && out == RunBlocks(m, blocks, k, at, regs, mem, gas, fuel)
  }

  lemma {:induction false} YieldsStop(m: Machine, blocks: seq<Block>, k: nat, at: nat, regs: Regs, mem: Memory, gas: nat,
                                      fuel: nat, out: Outcome)
    requires NonEmpty(blocks) && k < |blocks| && at < |blocks[k].instrs| && fuel > 0
    requires EmittedStep(m, blocks, k, at, regs, mem, gas) == BlockStop(out)
    ensures Yields(m, blocks, k, at, regs, mem, gas, fuel, Some(out))
  {
  }

  lemma {:induction false} YieldsGo(m: Machine, blocks: seq<Block>, k: nat, at: nat, regs: Regs, mem: Memory, gas: nat,
                                    fuel: nat, flow: BlockFlow, out: Option<Outcome>)
    requires NonEmpty(blocks) && k < |blocks| && at < |blocks[k].instrs| && fuel > 0
    requires flow.BlockGo? && flow == EmittedStep(m, blocks, k, at, regs, mem, gas)
    ensures Yields(m, blocks, flow.block, flow.at, flow.regs, flow.mem, flow.gas, fuel - 1, out) ==>
              Yields(m, blocks, k, at, regs, mem, gas, fuel, out)
  {
  }

  lemma {:induction false} GoesToBlock(m: Machine, blocks: seq<Block>, k: nat, at: nat, regs: Regs, mem: Memory, gas: nat)
    requires NonEmpty(blocks) && k < |blocks| && at < |blocks[k].instrs|
    ensures var flow := EmittedStep(m, blocks, k, at, regs, mem, gas);
            flow.BlockGo? ==> flow.block < |blocks| && flow.at < |blocks[flow.block].instrs|
  {
  }

  /** Executes from a place in a block, jumping from instruction to instruction. */
  method RunFrom(m: Machine, blocks: seq<Block>, index: map<nat, nat>, k: nat, at: nat, regs: Regs, mem: Memory, gas: nat,
                 fuel: nat) returns (out: Option<Outcome>)
    requires NonEmpty(blocks) && Indexes(index, blocks) && k < |blocks| && at < |blocks[k].instrs|
    ensures Yields(m, blocks, k, at, regs, mem, gas, fuel, out)
    decreases fuel
  {
    if fuel == 0 {
      return None;
    }
    var flow := StepEmitted(m, blocks, index, k, at, regs, mem, gas);
    GoesToBlock(m, blocks, k, at, regs, mem, gas);
    if flow.BlockStop? {
      YieldsStop(m, blocks, k, at, regs, mem, gas, fuel, flow.out);
      return Some(flow.out);
    }
    out := RunFrom(m, blocks, index, flow.block, flow.at, flow.regs, flow.mem, flow.gas, fuel - 1);
    YieldsGo(m, blocks, k, at, regs, mem, gas, fuel, flow, out);
  }

  /** Runs the emitted code from its entry block. */
  method RunEmitted(m: Machine, blocks: seq<Block>, regs: Regs, mem: Memory, fuel: nat) returns (out: Option<Outcome>)
    requires blocks != [] && NonEmpty(blocks)
    ensures out == RunBlocks(m, blocks, 0, 0, regs, mem, 0, fuel)
  {
    var index := IndexBlocks(blocks);
    out := RunFrom(m, blocks, index, 0, 0, regs, mem, 0, fuel);
  }

  /**
   Compiling and running bytecode means what interpreting it means, under any gas limit.
   With room in the counter nothing wraps, and on terminated code the interpreter succeeds
   exactly when the compiled run does with addresses within range.
   */
  method CompileAndRun(m: Machine, regs: Regs, mem: Memory, fuel: nat, ghost step: nat, ghost maxPages: nat)
    returns (out: Option<Outcome>)
    requires m.code != [] && 4 * |m.code| < U32 && AlignedStarts(m.code)
    ensures MeaningKept(m, RunReference(m, 0, regs, mem, 0, fuel), out, NeverWraps(m, 0, true, regs, mem, 0, fuel),
                        StaysInRange(m, 0, true, regs, mem, 0, fuel))
    ensures LeavesRoom(m, fuel, step, maxPages) ==> NeverWraps(m, 0, true, regs, mem, 0, fuel)
    ensures Terminated(m.code) && LeavesRoom(m, fuel, step, maxPages) ==>
              forall regs', mem', gas ::
                RunReference(m, 0, regs, mem, 0, fuel) == Some(Success(regs', mem', gas)) <==>
                out == Some(Success(regs', mem', gas)) && StaysInRange(m, 0, true, regs, mem, 0, fuel)
  {
    var blocks := CutIntoBlocks(m.code, m.cost);
    PartitionIffAligned(m.code, m.cost, blocks);
    EmittedCodeIsCorrect(m, blocks, regs, mem, fuel);
    if LeavesRoom(m, fuel, step, maxPages) {
      RoomNeverWraps(m, regs, mem, fuel, step, maxPages);
      if Terminated(m.code) {
        SuccessIsSuccess(m, regs, mem, fuel, step, maxPages);
      }
    }
    out := RunEmitted(m, blocks, regs, mem, fuel);
  }
}
