/**
 Where the compiled machine departs from the interpreter: a counter that wraps when no
 limit stops it, an address truncated to 32 bits, and running off the end of the code.
 For each there is a program on which the two differ and a condition under which they do
 not.
 */
module Divergence {
  import opened Prelude
  import opened ModArith
  import opened Isa
  import opened BasicBlocks
  import opened Metering
  import opened Simulation

  // ---------- Unlimited gas ----------

  /** Both machines end alike, whatever gas a revert reports; a machine that runs on ends alike with one that does too. */
  ghost predicate SameEnd(ref: Option<Outcome>, out: Option<Outcome>)
  {
    if Finished(ref) then SameResult(ref, out)
    else if ref.Some? && ref.value.Reverted? then out.Some? && out.value.Reverted?
    else ref == out
  }

  /** Without a limit the wrapped counter is the unwrapped one modulo 2^64. */
  ghost predicate WrapsTo(m: Machine, i: nat, entry: bool, gas: nat, counter: nat)
    requires i < |m.code|
  {
    gas < U64 && counter == (gas + Ahead(m, i, entry)) % U64
  }

  lemma {:induction false} WrappedCharge(m: Machine, i: nat, entry: bool, gas: nat, counter: nat)
    requires i < |m.code| && Uncapped(m) && WrapsTo(m, i, entry, gas, counter)
    ensures Prologue(m, i, entry, counter) == Some((gas + Suffix(m.code, m.cost, i)) % U64)
  {
  }

  ghost predicate EndsAlike(m: Machine, ref: Flow, flow: Flow)
  {
    match ref
    case Stop(out) => flow.Stop? && SameEnd(Some(out), Some(flow.out))
    case Go(j, entry, regs, mem, gas) =>
      && flow.Go? && flow.at == j < |m.code| && flow.entry == entry && flow.regs == regs && flow.mem == mem
      && WrapsTo(m, j, entry, gas, flow.gas)
  }

  ghost predicate Regular(out: Option<Outcome>)
  {
    out != Some(OutOfGas) && out != Some(UnsafeAddress)
  }

  lemma {:induction false} TerminatorEndsAlike(m: Machine, i: nat, regs: Regs, mem: Memory, gas: nat)
    requires i < |m.code| && IsTerminator(m.code[i])
    requires ReferenceStep(m, i, regs, mem, gas) != Stop(OutOfGas)
    ensures EndsAlike(m, ReferenceStep(m, i, regs, mem, gas),
                      Body(m, i, regs, mem, (gas + Suffix(m.code, m.cost, i)) % U64))
  {
    TerminatorEndsBlock(m.code, m.cost, i);
    if HasBranchTarget(m.code[i]) && NextAfterBranch(m.code, i, regs).Some? {
      BranchLandsOnStart(m.code, i, regs);
    }
  }

  lemma {:induction false} WrappedDrain(m: Machine, i: nat, regs: Regs, mem: Memory, charged: nat)
    requires i < |m.code| && Uncapped(m)
    ensures Drain(m, m.code[i], charged % U64, Pages(m, i, regs, mem)) == Some((charged + Pages(m, i, regs, mem)) % U64)
  {
  }

  /** After a plain instruction the counter still is the unwrapped one modulo 2^64. */
  lemma {:induction false} StillWrapsTo(m: Machine, i: nat, gas: nat, pages: nat)
    requires i + 1 < |m.code| && !IsTerminator(m.code[i]) && gas + m.cost(m.code[i]) + pages < U64
    ensures WrapsTo(m, i + 1, IsStart(m.code, i + 1), gas + m.cost(m.code[i]) + pages,
                    (gas + Suffix(m.code, m.cost, i) + pages) % U64)
  {
  }

  lemma {:induction false} DoneEndsAlike(m: Machine, i: nat, regs: Regs, mem: Memory, gas: nat)
    requires i < |m.code| && !IsTerminator(m.code[i]) && Uncapped(m)
    requires ReferenceStep(m, i, regs, mem, gas) != Stop(OutOfGas)
    requires Execute(m, m.code[i], regs, mem) == Interpret(m, m.code[i], regs, mem)
    requires Interpret(m, m.code[i], regs, mem).Done?
    ensures EndsAlike(m, ReferenceStep(m, i, regs, mem, gas),
                      Body(m, i, regs, mem, (gas + Suffix(m.code, m.cost, i)) % U64))
  {
    WrappedDrain(m, i, regs, mem, gas + Suffix(m.code, m.cost, i));
    if i + 1 < |m.code| {
      StillWrapsTo(m, i, gas, Pages(m, i, regs, mem));
    }
  }

  lemma {:induction false} PlainEndsAlike(m: Machine, i: nat, regs: Regs, mem: Memory, gas: nat)
    requires i < |m.code| && !IsTerminator(m.code[i]) && Uncapped(m)
    requires ReferenceStep(m, i, regs, mem, gas) != Stop(OutOfGas)
    requires ReferenceStep(m, i, regs, mem, gas) != Stop(UnsafeAddress)
    ensures EndsAlike(m, ReferenceStep(m, i, regs, mem, gas),
                      Body(m, i, regs, mem, (gas + Suffix(m.code, m.cost, i)) % U64))
  {
    SameEffect(m, m.code[i], regs, mem);
    if Interpret(m, m.code[i], regs, mem).Done? {
      DoneEndsAlike(m, i, regs, mem, gas);
    }
  }

  lemma {:induction false} StepEndsAlike(m: Machine, i: nat, entry: bool, regs: Regs, mem: Memory, gas: nat, counter: nat)
    returns (ref: Flow, flow: Flow)
    requires i < |m.code| && Uncapped(m) && WrapsTo(m, i, entry, gas, counter)
    ensures ref == ReferenceStep(m, i, regs, mem, gas) && flow == CompiledStep(m, i, entry, regs, mem, counter)
    ensures ref.Go? || Regular(Some(ref.out)) ==> EndsAlike(m, ref, flow)
  {
    ref, flow := ReferenceStep(m, i, regs, mem, gas), CompiledStep(m, i, entry, regs, mem, counter);
    if ref.Go? || Regular(Some(ref.out)) {
      WrappedCharge(m, i, entry, gas, counter);
      if IsTerminator(m.code[i]) {
        TerminatorEndsAlike(m, i, regs, mem, gas);
      } else {
        PlainEndsAlike(m, i, regs, mem, gas);
      }
    }
  }

  lemma {:induction false} RegularIsInRange(m: Machine, i: nat, regs: Regs, mem: Memory, gas: nat)
    requires i < |m.code| && ReferenceStep(m, i, regs, mem, gas) != Stop(OutOfGas)
    ensures InRange(m.code[i], regs) <==> ReferenceStep(m, i, regs, mem, gas) != Stop(UnsafeAddress)
  {
    UnsafeIffOutOfRange(m, i, regs, mem, gas);
  }

  /** Unless the interpreter runs out of gas, the runs end alike exactly if the compiled addresses stay within range. */
  lemma {:induction false} RunsEndAlike(m: Machine, i: nat, entry: bool, regs: Regs, mem: Memory, gas: nat, counter: nat,
                                        fuel: nat)
    requires i < |m.code| && Uncapped(m) && WrapsTo(m, i, entry, gas, counter)
    requires RunReference(m, i, regs, mem, gas, fuel) != Some(OutOfGas)
    ensures if StaysInRange(m, i, entry, regs, mem, counter, fuel)
            then SameEnd(RunReference(m, i, regs, mem, gas, fuel), RunCompiled(m, i, entry, regs, mem, counter, fuel))
            else RunReference(m, i, regs, mem, gas, fuel) == Some(UnsafeAddress)
    decreases fuel
  {
    if fuel > 0 {
      var ref, flow := StepEndsAlike(m, i, entry, regs, mem, gas, counter);
      WrappedCharge(m, i, entry, gas, counter);
      RegularIsInRange(m, i, regs, mem, gas);
      StaysInRangeNext(m, i, entry, regs, mem, counter, fuel, flow);
      if ref.Go? {
        RunsEndAlike(m, flow.at, flow.entry, flow.regs, flow.mem, ref.gas, flow.gas, fuel - 1);
      }
    }
  }

  /** Emitted code has no check that could report an unsafe address. */
  lemma {:induction false} NeverUnsafe(m: Machine, i: nat, entry: bool, regs: Regs, mem: Memory, counter: nat, fuel: nat)
    requires i < |m.code|
    ensures RunCompiled(m, i, entry, regs, mem, counter, fuel) != Some(UnsafeAddress)
    decreases fuel
  {
    if fuel > 0 {
      var flow := CompiledStep(m, i, entry, regs, mem, counter);
      if flow.Go? {
        NeverUnsafe(m, flow.at, flow.entry, flow.regs, flow.mem, flow.gas, fuel - 1);
      }
    }
  }

  /**
   Without a limit the two machines end alike exactly when the interpreter's own counter does
   not overflow and the addresses of the emitted code stay within 32 bits.
   */
  lemma {:induction false} UnlimitedEndsAlikeIff(m: Machine, regs: Regs, mem: Memory, fuel: nat)
    requires m.code != [] && Uncapped(m)
    ensures SameEnd(RunReference(m, 0, regs, mem, 0, fuel), RunCompiled(m, 0, true, regs, mem, 0, fuel))
       <==> RunReference(m, 0, regs, mem, 0, fuel) != Some(OutOfGas) && StaysInRange(m, 0, true, regs, mem, 0, fuel)
  {
    UncappedNeverRunsOut(m, 0, true, regs, mem, 0, fuel);
    NeverUnsafe(m, 0, true, regs, mem, 0, fuel);
    if RunReference(m, 0, regs, mem, 0, fuel) != Some(OutOfGas) {
      RunsEndAlike(m, 0, true, regs, mem, 0, 0, fuel);
    }
  }

  lemma {:induction false} LoopSteps(m: Machine, regs: Regs, mem: Memory, gas: nat)
    requires m.code == [Jmp(0)] && m.limit == 0 && m.cost(Jmp(0)) == 3
    ensures ReferenceStep(m, 0, regs, mem, gas)
         == if gas + 3 >= U64 then Stop(OutOfGas) else Go(0, true, regs, mem, gas + 3)
    ensures CompiledStep(m, 0, true, regs, mem, gas) == Go(0, true, regs, mem, (gas + 3) % U64)
  {
    assert Target(m.code, 0) == Some(0);
    assert Suffix(m.code, m.cost, 0) == 3;
  }

  lemma {:induction false} LoopRuns(m: Machine, regs: Regs, mem: Memory, gas: nat, counter: nat, fuel: nat)
    requires m.code == [Jmp(0)] && m.limit == 0 && m.cost(Jmp(0)) == 3 && gas < U64
    ensures RunReference(m, 0, regs, mem, gas, fuel) == if gas + 3 * fuel < U64 then None else Some(OutOfGas)
    ensures RunCompiled(m, 0, true, regs, mem, counter, fuel) == None
    decreases fuel
  {
    if fuel > 0 {
      LoopSteps(m, regs, mem, gas);
      LoopSteps(m, regs, mem, counter);
      LoopRuns(m, regs, mem, if gas + 3 < U64 then gas + 3 else 0, (counter + 3) % U64, fuel - 1);
    }
  }

  /**
   A program that jumps to itself, with no limit and the jump at its listed cost of three:
   the interpreter runs out of gas when its counter would pass 2^64, the emitted code never stops.
   */
  lemma {:induction false} UnlimitedLoopDiverges(m: Machine, regs: Regs, mem: Memory, fuel: nat)
    requires m.code == [Jmp(0)] && m.limit == 0 && m.cost(Jmp(0)) == 3
    ensures RunCompiled(m, 0, true, regs, mem, 0, fuel) == None
    ensures RunReference(m, 0, regs, mem, 0, fuel) == if 3 * fuel < U64 then None else Some(OutOfGas)
  {
    LoopRuns(m, regs, mem, 0, 0, fuel);
  }

  // ---------- Addresses ----------

  /** Every access is to a fixed offset from the zero register. */
  predicate FixedAddresses(code: seq<Instr>)
  {
    forall i :: 0 <= i < |code| && (code[i].Load? || code[i].Store?) ==> code[i].rs1 == 0 && MemOffset(code[i].imm) >= 0
  }

  lemma {:induction false} FixedIsInRange(code: seq<Instr>, i: nat, regs: Regs)
    requires FixedAddresses(code) && i < |code|
    ensures InRange(code[i], regs)
  {
  }

  /** One way to stay within range that the code alone shows: accesses to fixed addresses do, however long the run. */
  lemma {:induction false} FixedStaysInRange(m: Machine, i: nat, entry: bool, regs: Regs, mem: Memory, counter: nat,
                                             fuel: nat)
    requires i < |m.code| && FixedAddresses(m.code)
    ensures StaysInRange(m, i, entry, regs, mem, counter, fuel)
    decreases fuel
  {
    if fuel > 0 {
      FixedIsInRange(m.code, i, regs);
      var flow := CompiledStep(m, i, entry, regs, mem, counter);
      StaysInRangeNext(m, i, entry, regs, mem, counter, fuel, flow);
      if flow.Go? {
        FixedStaysInRange(m, flow.at, flow.entry, flow.regs, flow.mem, flow.gas, fuel - 1);
      }
    }
  }

  /** And the interpreter never refuses an address of such code. */
  lemma {:induction false} FixedNeverUnsafe(m: Machine, i: nat, regs: Regs, mem: Memory, gas: nat, fuel: nat)
    requires i < |m.code| && FixedAddresses(m.code)
    ensures RunReference(m, i, regs, mem, gas, fuel) != Some(UnsafeAddress)
    decreases fuel
  {
    if fuel > 0 {
      FixedIsInRange(m.code, i, regs);
      UnsafeIffOutOfRange(m, i, regs, mem, gas);
      ReferenceUnfolds(m, i, regs, mem, gas, fuel);
      var flow := ReferenceStep(m, i, regs, mem, gas);
      if flow.Go? {
        FixedNeverUnsafe(m, flow.at, flow.regs, flow.mem, flow.gas, fuel - 1);
      }
    }
  }

  const HEAP_START: nat := 0x1_0000

  /**
   A load from 2^32 above the start of the heap: the interpreter refuses it, the emitted code
   loads from the start of the heap and succeeds, whatever pages that touches.
   */
  lemma {:induction false} TruncatedAddressDiverges(m: Machine, regs: Regs, mem: Memory, v: Word, mem': Memory, pages: nat)
    requires m.code == [Load(2, 1, 0), Halt] && regs[1] as int == U32 + HEAP_START
    requires m.access(mem, LoadOp(HEAP_START, 0)) == Access(Some(v), mem', pages)
    requires m.limit == 0 && m.cost(Load(2, 1, 0)) + m.cost(Halt) + pages < U64
    ensures RunReference(m, 0, regs, mem, 0, 2) == Some(UnsafeAddress)
    ensures RunCompiled(m, 0, true, regs, mem, 0, 2)
         == Some(Success(regs[2 := v], mem', m.cost(Load(2, 1, 0)) + m.cost(Halt) + pages))
  {
    var total := m.cost(Load(2, 1, 0)) + m.cost(Halt);
    assert !IsStart(m.code, 1);
    assert Suffix(m.code, m.cost, 1) == m.cost(Halt);
    assert Suffix(m.code, m.cost, 0) == total;
    assert EffectiveAddress(regs, 1, 0) == U32 + HEAP_START;
    assert Interpret(m, m.code[0], regs, mem) == BadAddress;
    assert Execute(m, m.code[0], regs, mem) == Done(regs[2 := v], mem', pages);
    assert CompiledStep(m, 0, true, regs, mem, 0) == Go(1, false, regs[2 := v], mem', total + pages);
    assert CompiledStep(m, 1, false, regs[2 := v], mem', total + pages) == Stop(Success(regs[2 := v], mem', total + pages));
  }

  // ---------- Running off the end ----------

  /** The last instruction jumps, branches, halts or reverts. */
  predicate Terminated(code: seq<Instr>)
  {
    code != [] && IsTerminator(code[|code| - 1])
  }

  /** Terminated code is never run off, however long the run. */
  lemma {:induction false} TerminatedNeverRunsOff(m: Machine, i: nat, regs: Regs, mem: Memory, gas: nat, fuel: nat)
    requires i < |m.code| && Terminated(m.code)
    ensures var out := RunReference(m, i, regs, mem, gas, fuel);
            out.Some? ==> !out.value.RanOff?
    decreases fuel
  {
    if fuel > 0 {
      var flow := ReferenceStep(m, i, regs, mem, gas);
      if flow.Go? {
        TerminatedNeverRunsOff(m, flow.at, flow.regs, flow.mem, flow.gas, fuel - 1);
      }
    }
  }

  /** Code that ends in an assertion that holds: the interpreter runs off the end, the emitted code succeeds. */
  lemma {:induction false} RunningOffDiverges(m: Machine, regs: Regs, mem: Memory)
    requires m.code == [Assert(1)] && regs[1] != 0 && m.limit == 0 && m.cost(Assert(1)) < U64
    ensures RunReference(m, 0, regs, mem, 0, 1) == Some(RanOff(regs, mem, m.cost(Assert(1))))
    ensures RunCompiled(m, 0, true, regs, mem, 0, 1) == Some(Success(regs, mem, m.cost(Assert(1))))
  {
    assert Suffix(m.code, m.cost, 0) == m.cost(Assert(1));
  }

  // ---------- No divergence ----------

  /**
   On terminated code, with room in the counter, the interpreter succeeds exactly when the
   emitted code does and its addresses stayed within range, with one result.
   */
  lemma {:induction false} SuccessIsSuccess(m: Machine, regs: Regs, mem: Memory, fuel: nat, step: nat, maxPages: nat)
    requires Terminated(m.code) && LeavesRoom(m, fuel, step, maxPages)
    ensures forall regs', mem', gas ::
              RunReference(m, 0, regs, mem, 0, fuel) == Some(Success(regs', mem', gas)) <==>
              RunCompiled(m, 0, true, regs, mem, 0, fuel) == Some(Success(regs', mem', gas))
              && StaysInRange(m, 0, true, regs, mem, 0, fuel)
  {
    TerminatedNeverRunsOff(m, 0, regs, mem, 0, fuel);
    RoomNeverWraps(m, regs, mem, fuel, step, maxPages);
    MeteringPreservesMeaning(m, regs, mem, fuel);
  }
}
