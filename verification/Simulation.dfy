/**
 Block-entry metering preserves meaning: the compiled machine ends as the reference
 machine does, with the same registers, memory and gas, except that it may run out of
 gas earlier on runs that do not succeed.
 */
module Simulation {
  import opened Prelude
  import opened ModArith
  import opened Isa
  import opened BasicBlocks
  import opened Metering

  // ---------- Blocks and control flow ----------

  lemma {:induction false} BranchLandsOnStart(code: seq<Instr>, i: nat, regs: Regs)
    requires i < |code| && HasBranchTarget(code[i]) && NextAfterBranch(code, i, regs).Some?
    ensures IsStart(code, NextAfterBranch(code, i, regs).value)
  {
    var j := NextAfterBranch(code, i, regs).value;
    if Target(code, i) == Some(j) {
      assert JumpedTo(code, |code|, j);
    }
  }

  lemma {:induction false} TerminatorEndsBlock(code: seq<Instr>, cost: Instr -> nat, i: nat)
    requires i < |code| && IsTerminator(code[i])
    ensures Suffix(code, cost, i) == cost(code[i])
  {
    assert i + 1 < |code| ==> IsStart(code, i + 1);
  }

  // ---------- One instruction ----------

  /** The compiled counter is ahead of the reference by the static gas left in the block. */
  ghost predicate Related(m: Machine, i: nat, entry: bool, gas: nat, counter: nat)
    requires i < |m.code|
  {
    if entry then counter == gas else counter == gas + Suffix(m.code, m.cost, i) && !Over(m, counter)
  }

  /** The page gas the instruction at `i` incurs. */
  ghost function Pages(m: Machine, i: nat, regs: Regs, mem: Memory): nat
    requires i < |m.code|
  {
    match Execute(m, m.code[i], regs, mem)
    case Done(_, _, pages) => pages
    case Fault(pages) => pages
    case _ => 0
  }

  ghost predicate Matches(m: Machine, ref: Outcome, out: Outcome)
  {
    match ref
    case Success(regs, mem, gas) => out == Success(regs, mem, gas)
    case RanOff(regs, mem, gas) => out == Success(regs, mem, gas)
    case Reverted(gas) => out.Reverted? && gas <= out.gas
    case OutOfGas => false
    case Trapped => out == Trapped
    case UnsafeAddress => false
  }

  ghost predicate StepMatches(m: Machine, ref: Flow, flow: Flow)
  {
    match ref
    case Stop(out) => out == UnsafeAddress || (flow.Stop? && Matches(m, out, flow.out))
    case Go(j, entry, regs, mem, gas) =>
      && flow.Go? && flow.at == j < |m.code| && flow.entry == entry && flow.regs == regs && flow.mem == mem
      && Related(m, j, entry, gas, flow.gas)
  }

  /** The compiled step matches, or runs out of gas on a charge over the limit. */
  ghost predicate StepAllowed(m: Machine, ref: Flow, flow: Flow, charge: nat)
  {
    StepMatches(m, ref, flow) || (flow == Stop(OutOfGas) && Over(m, charge))
  }

  lemma {:induction false} PrologueGas(m: Machine, i: nat, entry: bool, gas: nat, counter: nat)
    requires i < |m.code| && Related(m, i, entry, gas, counter) && !Over(m, gas)
    requires gas + Suffix(m.code, m.cost, i) < U64
    ensures Prologue(m, i, entry, counter)
         == if Over(m, gas + Suffix(m.code, m.cost, i)) then None else Some(gas + Suffix(m.code, m.cost, i))
  {
  }

  lemma {:induction false} TerminatorSimulates(m: Machine, i: nat, regs: Regs, mem: Memory, gas: nat, counter: nat)
    requires i < |m.code| && IsTerminator(m.code[i])
    requires counter == gas + Suffix(m.code, m.cost, i) < U64 && !Over(m, counter)
    ensures StepMatches(m, ReferenceStep(m, i, regs, mem, gas), Body(m, i, regs, mem, counter))
  {
    TerminatorEndsBlock(m.code, m.cost, i);
    if HasBranchTarget(m.code[i]) && NextAfterBranch(m.code, i, regs).Some? {
      BranchLandsOnStart(m.code, i, regs);
    }
  }

  /** After a plain instruction the compiled counter stays ahead by what is left of the block. */
  lemma {:induction false} PlainSimulates(m: Machine, i: nat, regs: Regs, mem: Memory, gas: nat, counter: nat)
    requires i < |m.code| && !IsTerminator(m.code[i])
    requires counter == gas + Suffix(m.code, m.cost, i) && !Over(m, counter)
    requires counter + Pages(m, i, regs, mem) < U64
    ensures StepAllowed(m, ReferenceStep(m, i, regs, mem, gas), Body(m, i, regs, mem, counter),
                        counter + Pages(m, i, regs, mem))
  {
    var instr := m.code[i];
    if Interpret(m, instr, regs, mem) != BadAddress {
      SameEffect(m, instr, regs, mem);
      DrainGas(m, i, regs, mem, counter);
    }
  }

  lemma {:induction false} DrainGas(m: Machine, i: nat, regs: Regs, mem: Memory, counter: nat)
    requires i < |m.code| && !Over(m, counter) && counter + Pages(m, i, regs, mem) < U64
    ensures var g := counter + Pages(m, i, regs, mem);
            Drain(m, m.code[i], counter, Pages(m, i, regs, mem)) == if Over(m, g) then None else Some(g)
  {
  }

  lemma {:induction false} BodySimulates(m: Machine, i: nat, regs: Regs, mem: Memory, gas: nat, counter: nat)
    requires i < |m.code| && counter == gas + Suffix(m.code, m.cost, i) && !Over(m, counter)
    requires counter + Pages(m, i, regs, mem) < U64
    ensures StepAllowed(m, ReferenceStep(m, i, regs, mem, gas), Body(m, i, regs, mem, counter),
                        counter + Pages(m, i, regs, mem))
  {
    if IsTerminator(m.code[i]) {
      TerminatorSimulates(m, i, regs, mem, gas, counter);
    } else {
      PlainSimulates(m, i, regs, mem, gas, counter);
    }
  }

  /** The compiled step once the prologue is known to pass or fail. */
  lemma {:induction false} StepIsBody(m: Machine, i: nat, entry: bool, regs: Regs, mem: Memory, gas: nat, counter: nat)
    requires i < |m.code| && Related(m, i, entry, gas, counter) && !Over(m, gas)
    requires gas + Suffix(m.code, m.cost, i) < U64
    ensures CompiledStep(m, i, entry, regs, mem, counter)
         == if Over(m, gas + Suffix(m.code, m.cost, i)) then Stop(OutOfGas)
            else Body(m, i, regs, mem, gas + Suffix(m.code, m.cost, i))
  {
    PrologueGas(m, i, entry, gas, counter);
  }

  /** Unless the compiled machine runs out of gas, a step of both keeps them related. */
  lemma {:induction false} StepSimulates(m: Machine, i: nat, entry: bool, regs: Regs, mem: Memory, gas: nat,
                                         counter: nat)
    requires i < |m.code| && Related(m, i, entry, gas, counter) && !Over(m, gas)
    requires gas + Suffix(m.code, m.cost, i) + Pages(m, i, regs, mem) < U64
    ensures StepAllowed(m, ReferenceStep(m, i, regs, mem, gas), CompiledStep(m, i, entry, regs, mem, counter),
                        gas + Suffix(m.code, m.cost, i) + Pages(m, i, regs, mem))
  {
    var charged := gas + Suffix(m.code, m.cost, i);
    var ref, flow := ReferenceStep(m, i, regs, mem, gas), CompiledStep(m, i, entry, regs, mem, counter);
    var body, pages := Body(m, i, regs, mem, charged), Pages(m, i, regs, mem);
    assert flow == if Over(m, charged) then Stop(OutOfGas) else body by {
      StepIsBody(m, i, entry, regs, mem, gas, counter);
    }
    assert !Over(m, charged) ==> StepAllowed(m, ref, body, charged + pages) by {
      if !Over(m, charged) {
        BodySimulates(m, i, regs, mem, gas, charged);
      }
    }
    AllowedThroughPrologue(m, ref, flow, body, charged, pages);
  }

  lemma {:induction false} AllowedThroughPrologue(m: Machine, ref: Flow, flow: Flow, body: Flow, charged: nat, pages: nat)
    requires flow == if Over(m, charged) then Stop(OutOfGas) else body
    requires !Over(m, charged) ==> StepAllowed(m, ref, body, charged + pages)
    ensures StepAllowed(m, ref, flow, charged + pages)
  {
  }

  // ---------- Whole runs ----------

  ghost predicate Finished(out: Option<Outcome>)
  {
    out.Some? && (out.value.Success? || out.value.RanOff?)
  }

  lemma {:induction false} ReferenceUnfolds(m: Machine, i: nat, regs: Regs, mem: Memory, gas: nat, fuel: nat)
    requires i < |m.code| && fuel > 0
    ensures match ReferenceStep(m, i, regs, mem, gas)
            case Stop(out) => RunReference(m, i, regs, mem, gas, fuel) == Some(out)
            case Go(j, _, regs', mem', gas') =>
              && j < |m.code|
              && RunReference(m, i, regs, mem, gas, fuel) == RunReference(m, j, regs', mem', gas', fuel - 1)
  {
  }

  /** A reference step spends the instruction's static gas and its page gas. */
  lemma {:induction false} StepSpends(m: Machine, i: nat, regs: Regs, mem: Memory, gas: nat)
    requires i < |m.code|
    ensures var charged := gas + Suffix(m.code, m.cost, i) + Pages(m, i, regs, mem);
            match ReferenceStep(m, i, regs, mem, gas)
            case Go(j, entry, _, _, gas') =>
              gas' < U64 && (Over(m, gas) || !Over(m, gas')) && j < |m.code|
              && charged == gas' + if entry then 0 else Suffix(m.code, m.cost, j)
            case Stop(out) => Finished(Some(out)) ==> out.gas == charged < U64 && (Over(m, gas) || !Over(m, out.gas))
  {
    var instr := m.code[i];
    if IsTerminator(instr) {
      TerminatorEndsBlock(m.code, m.cost, i);
    } else if Interpret(m, instr, regs, mem) != BadAddress {
      SameEffect(m, instr, regs, mem);
    }
  }

  /** A run that finishes pays for the rest of the block it is in. */
  lemma {:induction false} FinalGas(m: Machine, i: nat, regs: Regs, mem: Memory, gas: nat, fuel: nat)
    requires i < |m.code| && !Over(m, gas) && Finished(RunReference(m, i, regs, mem, gas, fuel))
    ensures var g := RunReference(m, i, regs, mem, gas, fuel).value.gas;
            gas + Suffix(m.code, m.cost, i) + Pages(m, i, regs, mem) <= g < U64 && !Over(m, g)
    decreases fuel
  {
    StepSpends(m, i, regs, mem, gas);
    match ReferenceStep(m, i, regs, mem, gas)
    case Stop(_) =>
    case Go(j, _, regs', mem', gas') => FinalGas(m, j, regs', mem', gas', fuel - 1);
  }

  /** A step whose whole charge is within the limit neither wraps nor runs out of gas when compiled. */
  lemma {:induction false} AffordableStep(m: Machine, i: nat, entry: bool, regs: Regs, mem: Memory, gas: nat,
                                          counter: nat, final: nat)
    requires i < |m.code| && Related(m, i, entry, gas, counter) && !Over(m, gas)
    requires gas + Suffix(m.code, m.cost, i) + Pages(m, i, regs, mem) <= final < U64 && !Over(m, final)
    ensures StepMatches(m, ReferenceStep(m, i, regs, mem, gas), CompiledStep(m, i, entry, regs, mem, counter))
    ensures ReferenceStep(m, i, regs, mem, gas).Go? ==> !Over(m, ReferenceStep(m, i, regs, mem, gas).gas)
  {
    StepSimulates(m, i, entry, regs, mem, gas, counter);
    StepSpends(m, i, regs, mem, gas);
  }

  /** A reference run that finishes is matched exactly, whatever the limit and the costs. */
  lemma {:induction false} FinishedRunsAgree(m: Machine, i: nat, entry: bool, regs: Regs, mem: Memory, gas: nat,
                                             counter: nat, fuel: nat)
    requires i < |m.code| && Related(m, i, entry, gas, counter) && !Over(m, gas)
    requires Finished(RunReference(m, i, regs, mem, gas, fuel))
    ensures var out := RunReference(m, i, regs, mem, gas, fuel).value;
            RunCompiled(m, i, entry, regs, mem, counter, fuel) == Some(Success(out.regs, out.mem, out.gas))
    decreases fuel
  {
    FinalGas(m, i, regs, mem, gas, fuel);
    AffordableStep(m, i, entry, regs, mem, gas, counter, RunReference(m, i, regs, mem, gas, fuel).value.gas);
    var ref, flow := ReferenceStep(m, i, regs, mem, gas), CompiledStep(m, i, entry, regs, mem, counter);
    if ref.Go? {
      FinishedRunsAgree(m, ref.at, ref.entry, ref.regs, ref.mem, ref.gas, flow.gas, fuel - 1);
    }
  }

  // ---------- When the counter wraps ----------

  /** One compiled step charges its counter without passing 2^64. */
  ghost predicate ChargeFits(m: Machine, i: nat, entry: bool, regs: Regs, mem: Memory, counter: nat)
    requires i < |m.code|
  {
    && (entry ==> counter + Suffix(m.code, m.cost, i) < U64)
    && match Prologue(m, i, entry, counter)
       case None => true
       case Some(g) => g + Pages(m, i, regs, mem) < U64
  }

  /** No charge of the compiled run passes 2^64. */
  ghost predicate NeverWraps(m: Machine, i: nat, entry: bool, regs: Regs, mem: Memory, counter: nat, fuel: nat)
    requires i < |m.code|
    decreases fuel
  {
    fuel > 0 ==>
      && ChargeFits(m, i, entry, regs, mem, counter)
      && match CompiledStep(m, i, entry, regs, mem, counter)
         case Stop(_) => true
         case Go(j, entry', regs', mem', counter') => NeverWraps(m, j, entry', regs', mem', counter', fuel - 1)
  }

  lemma {:induction false} NeverWrapsNext(m: Machine, i: nat, entry: bool, regs: Regs, mem: Memory, counter: nat, fuel: nat,
                                          flow: Flow)
    requires i < |m.code| && fuel > 0 && flow == CompiledStep(m, i, entry, regs, mem, counter)
    ensures flow.Go? ==> flow.at < |m.code|
    ensures flow.Go? && ChargeFits(m, i, entry, regs, mem, counter)
            && NeverWraps(m, flow.at, flow.entry, flow.regs, flow.mem, flow.gas, fuel - 1) ==>
              NeverWraps(m, i, entry, regs, mem, counter, fuel)
    ensures flow.Stop? && ChargeFits(m, i, entry, regs, mem, counter) ==>
              NeverWraps(m, i, entry, regs, mem, counter, fuel)
  {
  }

  /** Every access the compiled run executes is to an address within 32 bits. */
  ghost predicate StaysInRange(m: Machine, i: nat, entry: bool, regs: Regs, mem: Memory, counter: nat, fuel: nat)
    requires i < |m.code|
    decreases fuel
  {
    fuel > 0 ==>
      && (Prologue(m, i, entry, counter).Some? ==> InRange(m.code[i], regs))
      && match CompiledStep(m, i, entry, regs, mem, counter)
         case Stop(_) => true
         case Go(j, entry', regs', mem', counter') => StaysInRange(m, j, entry', regs', mem', counter', fuel - 1)
  }

  lemma {:induction false} StaysInRangeNext(m: Machine, i: nat, entry: bool, regs: Regs, mem: Memory, counter: nat,
                                            fuel: nat, flow: Flow)
    requires i < |m.code| && fuel > 0 && flow == CompiledStep(m, i, entry, regs, mem, counter)
    ensures flow.Go? ==> flow.at < |m.code| && Prologue(m, i, entry, counter).Some?
    ensures flow.Go? && InRange(m.code[i], regs) ==>
              (StaysInRange(m, i, entry, regs, mem, counter, fuel) <==>
               StaysInRange(m, flow.at, flow.entry, flow.regs, flow.mem, flow.gas, fuel - 1))
    ensures flow.Stop? ==>
              (StaysInRange(m, i, entry, regs, mem, counter, fuel) <==>
               (Prologue(m, i, entry, counter).Some? ==> InRange(m.code[i], regs)))
    ensures Prologue(m, i, entry, counter).Some? && !InRange(m.code[i], regs) ==>
              !StaysInRange(m, i, entry, regs, mem, counter, fuel)
  {
  }

  /** The reference machine stops at an unsafe address exactly if the instruction, once affordable, is out of range. */
  lemma {:induction false} UnsafeIffOutOfRange(m: Machine, i: nat, regs: Regs, mem: Memory, gas: nat)
    requires i < |m.code|
    ensures ReferenceStep(m, i, regs, mem, gas) == Stop(UnsafeAddress) ==> !InRange(m.code[i], regs)
    ensures !InRange(m.code[i], regs) && gas + m.cost(m.code[i]) < U64 && !Over(m, gas + m.cost(m.code[i])) ==>
              ReferenceStep(m, i, regs, mem, gas) == Stop(UnsafeAddress)
  {
    SameEffect(m, m.code[i], regs, mem);
  }

  /** Past the prologue the reference machine can afford the instruction. */
  lemma {:induction false} AffordableHere(m: Machine, i: nat, entry: bool, regs: Regs, mem: Memory, gas: nat, counter: nat)
    requires i < |m.code| && Related(m, i, entry, gas, counter) && !Over(m, gas)
    requires ChargeFits(m, i, entry, regs, mem, counter) && Prologue(m, i, entry, counter).Some?
    ensures gas + m.cost(m.code[i]) < U64 && !Over(m, gas + m.cost(m.code[i]))
  {
    PrologueGas(m, i, entry, gas, counter);
  }

  ghost predicate RunAllowed(m: Machine, ref: Option<Outcome>, out: Option<Outcome>)
  {
    || out == Some(OutOfGas)
    || (ref.None? && out.None?)
    || (ref.Some? && out.Some? && Matches(m, ref.value, out.value))
  }

  lemma {:induction false} FittingStep(m: Machine, i: nat, entry: bool, regs: Regs, mem: Memory, gas: nat, counter: nat)
    returns (ref: Flow, flow: Flow)
    requires i < |m.code| && Related(m, i, entry, gas, counter) && !Over(m, gas)
    requires ChargeFits(m, i, entry, regs, mem, counter)
    ensures ref == ReferenceStep(m, i, regs, mem, gas) && flow == CompiledStep(m, i, entry, regs, mem, counter)
    ensures StepMatches(m, ref, flow) || flow == Stop(OutOfGas)
    ensures ref.Go? ==> !Over(m, ref.gas)
  {
    ref, flow := ReferenceStep(m, i, regs, mem, gas), CompiledStep(m, i, entry, regs, mem, counter);
    PrologueGas(m, i, entry, gas, counter);
    if Prologue(m, i, entry, counter).Some? {
      StepSimulates(m, i, entry, regs, mem, gas, counter);
    }
    StepSpends(m, i, regs, mem, gas);
  }

  /** What a run whose counter does not wrap comes to: matched while in range, refused by the reference otherwise. */
  ghost predicate RunDecided(m: Machine, ref: Option<Outcome>, out: Option<Outcome>, inRange: bool)
  {
    if inRange then RunAllowed(m, ref, out) else ref == Some(UnsafeAddress)
  }

  lemma {:induction false} StoppedRun(m: Machine, i: nat, entry: bool, regs: Regs, mem: Memory, gas: nat, counter: nat,
                                      fuel: nat, ref: Flow, flow: Flow)
    requires i < |m.code| && fuel > 0
    requires ref == ReferenceStep(m, i, regs, mem, gas) && flow == CompiledStep(m, i, entry, regs, mem, counter)
    requires StepMatches(m, ref, flow) || flow == Stop(OutOfGas)
    ensures flow == Stop(OutOfGas) ==>
              RunAllowed(m, RunReference(m, i, regs, mem, gas, fuel), RunCompiled(m, i, entry, regs, mem, counter, fuel))
    ensures ref.Stop? && ref != Stop(UnsafeAddress) ==>
              RunAllowed(m, RunReference(m, i, regs, mem, gas, fuel), RunCompiled(m, i, entry, regs, mem, counter, fuel))
    ensures ref == Stop(UnsafeAddress) ==> RunReference(m, i, regs, mem, gas, fuel) == Some(UnsafeAddress)
    ensures ref.Go? && flow.Go? ==>
              && RunReference(m, i, regs, mem, gas, fuel)
              == RunReference(m, flow.at, flow.regs, flow.mem, ref.gas, fuel - 1)
              && RunCompiled(m, i, entry, regs, mem, counter, fuel)
              == RunCompiled(m, flow.at, flow.entry, flow.regs, flow.mem, flow.gas, fuel - 1)
  {
  }

  /**
   While the counter does not wrap and addresses stay within range every run is matched,
   unless the compiled machine runs out of gas first; where they do not, the reference
   machine stops at an unsafe address.
   */
  lemma {:induction false} RunsAgree(m: Machine, i: nat, entry: bool, regs: Regs, mem: Memory, gas: nat, counter: nat,
                                     fuel: nat)
    requires i < |m.code| && Related(m, i, entry, gas, counter) && !Over(m, gas)
    requires NeverWraps(m, i, entry, regs, mem, counter, fuel)
    ensures RunDecided(m, RunReference(m, i, regs, mem, gas, fuel), RunCompiled(m, i, entry, regs, mem, counter, fuel),
                       StaysInRange(m, i, entry, regs, mem, counter, fuel))
    decreases fuel
  {
    if fuel > 0 {
      var ref, flow := FittingStep(m, i, entry, regs, mem, gas, counter);
      StaysInRangeNext(m, i, entry, regs, mem, counter, fuel, flow);
      StoppedRun(m, i, entry, regs, mem, gas, counter, fuel, ref, flow);
      UnsafeIffOutOfRange(m, i, regs, mem, gas);
      if Prologue(m, i, entry, counter).Some? {
        AffordableHere(m, i, entry, regs, mem, gas, counter);
      }
      if ref.Go? && flow.Go? {
        RunsAgree(m, flow.at, flow.entry, flow.regs, flow.mem, ref.gas, flow.gas, fuel - 1);
      }
    }
  }

  lemma {:induction false} AffordableFits(m: Machine, i: nat, entry: bool, regs: Regs, mem: Memory, gas: nat,
                                          counter: nat, final: nat)
    requires i < |m.code| && Related(m, i, entry, gas, counter) && !Over(m, gas)
    requires gas + Suffix(m.code, m.cost, i) + Pages(m, i, regs, mem) <= final < U64
    ensures ChargeFits(m, i, entry, regs, mem, counter)
  {
    PrologueGas(m, i, entry, gas, counter);
  }

  /** A step of a run that finishes: it fits, and where the reference goes on the compiled machine does, related. */
  lemma {:induction false} FinishedStep(m: Machine, i: nat, entry: bool, regs: Regs, mem: Memory, gas: nat, counter: nat,
                                        fuel: nat) returns (flow: Flow, gas': nat)
    requires i < |m.code| && Related(m, i, entry, gas, counter) && !Over(m, gas)
    requires Finished(RunReference(m, i, regs, mem, gas, fuel))
    ensures fuel > 0 && ChargeFits(m, i, entry, regs, mem, counter) && flow == CompiledStep(m, i, entry, regs, mem, counter)
    ensures InRange(m.code[i], regs)
    ensures flow.Go? ==>
              && flow.at < |m.code| && Related(m, flow.at, flow.entry, gas', flow.gas) && !Over(m, gas')
              && Finished(RunReference(m, flow.at, flow.regs, flow.mem, gas', fuel - 1))
  {
    var final := RunReference(m, i, regs, mem, gas, fuel).value.gas;
    FinalGas(m, i, regs, mem, gas, fuel);
    AffordableFits(m, i, entry, regs, mem, gas, counter, final);
    AffordableStep(m, i, entry, regs, mem, gas, counter, final);
    FinishedIsInRange(m, i, regs, mem, gas, fuel, final);
    var ref := ReferenceStep(m, i, regs, mem, gas);
    flow := CompiledStep(m, i, entry, regs, mem, counter);
    gas' := if ref.Go? then ref.gas else 0;
  }

  lemma {:induction false} FinishedIsInRange(m: Machine, i: nat, regs: Regs, mem: Memory, gas: nat, fuel: nat, final: nat)
    requires i < |m.code| && Finished(RunReference(m, i, regs, mem, gas, fuel))
    requires gas + Suffix(m.code, m.cost, i) <= final < U64 && !Over(m, final)
    ensures InRange(m.code[i], regs)
  {
    UnsafeIffOutOfRange(m, i, regs, mem, gas);
  }

  /** On a run the reference machine finishes, the compiled counter never wraps and addresses stay within range. */
  lemma {:induction false} FinishedNeverWraps(m: Machine, i: nat, entry: bool, regs: Regs, mem: Memory, gas: nat,
                                              counter: nat, fuel: nat)
    requires i < |m.code| && Related(m, i, entry, gas, counter) && !Over(m, gas)
    requires Finished(RunReference(m, i, regs, mem, gas, fuel))
    ensures NeverWraps(m, i, entry, regs, mem, counter, fuel) && StaysInRange(m, i, entry, regs, mem, counter, fuel)
    decreases fuel
  {
    var flow, gas' := FinishedStep(m, i, entry, regs, mem, gas, counter, fuel);
    NeverWrapsNext(m, i, entry, regs, mem, counter, fuel, flow);
    StaysInRangeNext(m, i, entry, regs, mem, counter, fuel, flow);
    if flow.Go? {
      FinishedNeverWraps(m, flow.at, flow.entry, flow.regs, flow.mem, gas', flow.gas, fuel - 1);
    }
  }

  // ---------- Bounds that keep the counter from wrapping ----------

  lemma {:induction false} SuffixAtMostTotal(code: seq<Instr>, cost: Instr -> nat, i: nat)
    requires i < |code|
    ensures Suffix(code, cost, i) <= TotalCost(cost, code[i..]) <= TotalCost(cost, code)
    decreases |code| - i
  {
    assert code[i..][1..] == code[i + 1..];
    if i + 1 < |code| {
      SuffixAtMostTotal(code, cost, i + 1);
    }
    TailCost(code, cost, i);
  }

  lemma {:induction false} TailCost(code: seq<Instr>, cost: Instr -> nat, i: nat)
    requires i <= |code|
    ensures TotalCost(cost, code[i..]) <= TotalCost(cost, code)
  {
    if i == 0 {
      assert code[0..] == code;
    } else {
      TailCost(code, cost, i - 1);
      assert code[i - 1..][1..] == code[i..];
    }
  }

  ghost predicate PagesAtMost(m: Machine, maxPages: nat)
  {
    forall mem, op :: m.access(mem, op).pages <= maxPages
  }

  ghost predicate CostsAtMost(m: Machine, step: nat)
  {
    forall i :: 0 <= i < |m.code| ==> m.cost(m.code[i]) <= step
  }

  lemma {:induction false} PagesBounded(m: Machine, i: nat, regs: Regs, mem: Memory, maxPages: nat)
    requires i < |m.code| && PagesAtMost(m, maxPages)
    ensures Pages(m, i, regs, mem) <= maxPages
  {
  }

  /** A limit is set and leaves room above it for the program's static gas and one access. */
  ghost predicate LimitLeavesRoom(m: Machine, maxPages: nat)
  {
    m.limit > 0 && m.limit + TotalCost(m.cost, m.code) + maxPages < U64
  }

  /** `fuel` instructions, costing at most `step` each beside their pages, stay below 2^64; no limit is needed. */
  ghost predicate RunLeavesRoom(m: Machine, fuel: nat, step: nat, maxPages: nat)
  {
    && CostsAtMost(m, step)
    && TotalCost(m.cost, m.code) + maxPages + fuel * (step + maxPages) < U64
  }

  ghost predicate LeavesRoom(m: Machine, fuel: nat, step: nat, maxPages: nat)
  {
    PagesAtMost(m, maxPages) && (LimitLeavesRoom(m, maxPages) || RunLeavesRoom(m, fuel, step, maxPages))
  }

  /** A compiled step that goes on keeps its counter within the limit. */
  lemma {:induction false} StaysWithin(m: Machine, i: nat, entry: bool, regs: Regs, mem: Memory, counter: nat)
    requires i < |m.code| && !Over(m, counter)
    ensures var flow := CompiledStep(m, i, entry, regs, mem, counter);
            flow.Go? ==> !Over(m, flow.gas) && flow.at < |m.code|
  {
  }

  lemma {:induction false} LimitedNeverWraps(m: Machine, i: nat, entry: bool, regs: Regs, mem: Memory, counter: nat,
                                             fuel: nat, maxPages: nat)
    requires i < |m.code| && !Over(m, counter) && LimitLeavesRoom(m, maxPages) && PagesAtMost(m, maxPages)
    ensures NeverWraps(m, i, entry, regs, mem, counter, fuel)
    decreases fuel
  {
    if fuel > 0 {
      SuffixAtMostTotal(m.code, m.cost, i);
      PagesBounded(m, i, regs, mem, maxPages);
      StaysWithin(m, i, entry, regs, mem, counter);
      var flow := CompiledStep(m, i, entry, regs, mem, counter);
      if flow.Go? {
        LimitedNeverWraps(m, flow.at, flow.entry, flow.regs, flow.mem, flow.gas, fuel - 1, maxPages);
      }
    }
  }

  /** What the counter holds for instructions still to come. */
  ghost function Ahead(m: Machine, i: nat, entry: bool): nat
    requires i < |m.code|
  {
    if entry then 0 else Suffix(m.code, m.cost, i)
  }

  lemma {:induction false} RestOfBlock(m: Machine, i: nat, regs: Regs, mem: Memory, g: nat)
    requires i < |m.code| && Body(m, i, regs, mem, g).Go?
    ensures var flow := Body(m, i, regs, mem, g);
            flow.at < |m.code| && Suffix(m.code, m.cost, i) == m.cost(m.code[i]) + Ahead(m, flow.at, flow.entry)
  {
    if IsTerminator(m.code[i]) {
      TerminatorEndsBlock(m.code, m.cost, i);
    }
  }

  lemma {:induction false} BodyDrains(m: Machine, i: nat, regs: Regs, mem: Memory, g: nat)
    requires i < |m.code| && Body(m, i, regs, mem, g).Go? && g + Pages(m, i, regs, mem) < U64
    ensures Body(m, i, regs, mem, g).gas == g + if IsTerminator(m.code[i]) then 0 else Pages(m, i, regs, mem)
  {
  }

  lemma {:induction false} PaidFits(m: Machine, i: nat, entry: bool, regs: Regs, mem: Memory, counter: nat, paid: nat)
    requires i < |m.code| && counter == paid + Ahead(m, i, entry)
    requires paid + Suffix(m.code, m.cost, i) + Pages(m, i, regs, mem) < U64
    ensures ChargeFits(m, i, entry, regs, mem, counter)
    ensures Prologue(m, i, entry, counter).Some? ==>
              Prologue(m, i, entry, counter).value == paid + Suffix(m.code, m.cost, i)
  {
  }

  /** A compiled step pays for one instruction and its pages. */
  lemma {:induction false} StepPays(m: Machine, i: nat, entry: bool, regs: Regs, mem: Memory, counter: nat, paid: nat)
    returns (flow: Flow)
    requires i < |m.code| && counter == paid + Ahead(m, i, entry)
    requires paid + Suffix(m.code, m.cost, i) + Pages(m, i, regs, mem) < U64
    ensures ChargeFits(m, i, entry, regs, mem, counter) && flow == CompiledStep(m, i, entry, regs, mem, counter)
    ensures flow.Go? ==>
              && flow.at < |m.code| && paid + m.cost(m.code[i]) <= flow.gas - Ahead(m, flow.at, flow.entry)
              && flow.gas - Ahead(m, flow.at, flow.entry) <= paid + m.cost(m.code[i]) + Pages(m, i, regs, mem)
  {
    PaidFits(m, i, entry, regs, mem, counter, paid);
    flow := CompiledStep(m, i, entry, regs, mem, counter);
    if flow.Go? {
      RestOfBlock(m, i, regs, mem, paid + Suffix(m.code, m.cost, i));
      BodyDrains(m, i, regs, mem, paid + Suffix(m.code, m.cost, i));
    }
  }

  /** `fuel` times `each`, one instruction at a time. */
  ghost function Budget(fuel: nat, each: nat): nat
  {
    if fuel == 0 then 0 else Budget(fuel - 1, each) + each
  }

  lemma {:induction false} BudgetIsProduct(fuel: nat, each: nat)
    ensures Budget(fuel, each) == fuel * each
  {
    if fuel > 0 {
      BudgetIsProduct(fuel - 1, each);
      assert fuel * each == (fuel - 1) * each + each;
    }
  }

  lemma {:induction false} ShortRunNeverWraps(m: Machine, i: nat, entry: bool, regs: Regs, mem: Memory, counter: nat,
                                              paid: nat, fuel: nat, step: nat, maxPages: nat)
    requires i < |m.code| && counter == paid + Ahead(m, i, entry) && PagesAtMost(m, maxPages) && CostsAtMost(m, step)
    requires paid + TotalCost(m.cost, m.code) + maxPages + Budget(fuel, step + maxPages) < U64
    ensures NeverWraps(m, i, entry, regs, mem, counter, fuel)
    decreases fuel
  {
    if fuel > 0 {
      SuffixAtMostTotal(m.code, m.cost, i);
      PagesBounded(m, i, regs, mem, maxPages);
      var flow := StepPays(m, i, entry, regs, mem, counter, paid);
      if flow.Go? {
        ShortRunNeverWraps(m, flow.at, flow.entry, flow.regs, flow.mem, flow.gas,
                           flow.gas - Ahead(m, flow.at, flow.entry), fuel - 1, step, maxPages);
      }
    }
  }

  /** Two conditions a caller can check before the run. */
  lemma {:induction false} RoomNeverWraps(m: Machine, regs: Regs, mem: Memory, fuel: nat, step: nat, maxPages: nat)
    requires m.code != [] && LeavesRoom(m, fuel, step, maxPages)
    ensures NeverWraps(m, 0, true, regs, mem, 0, fuel)
  {
    if LimitLeavesRoom(m, maxPages) {
      LimitedNeverWraps(m, 0, true, regs, mem, 0, fuel, maxPages);
    } else {
      BudgetIsProduct(fuel, step + maxPages);
      ShortRunNeverWraps(m, 0, true, regs, mem, 0, 0, fuel, step, maxPages);
    }
  }

  // ---------- No limit ----------

  /** No counter value exceeds the limit: none is set, or it is the largest a counter can hold. */
  predicate Uncapped(m: Machine)
  {
    m.limit == 0 || m.limit == U64 - 1
  }

  /** Without a limit the compiled machine never runs out of gas. */
  lemma {:induction false} UncappedNeverRunsOut(m: Machine, i: nat, entry: bool, regs: Regs, mem: Memory, counter: nat,
                                                fuel: nat)
    requires i < |m.code| && Uncapped(m)
    ensures RunCompiled(m, i, entry, regs, mem, counter, fuel) != Some(OutOfGas)
    decreases fuel
  {
    if fuel > 0 {
      var flow := CompiledStep(m, i, entry, regs, mem, counter);
      if flow.Go? {
        UncappedNeverRunsOut(m, flow.at, flow.entry, flow.regs, flow.mem, flow.gas, fuel - 1);
      }
    }
  }

  // ---------- Whole programs ----------

  ghost predicate Succeeded(out: Option<Outcome>)
  {
    out.Some? && out.value.Success?
  }

  /** The compiled run ended as the finished reference run did. */
  ghost predicate SameResult(ref: Option<Outcome>, out: Option<Outcome>)
  {
    Finished(ref) && out == Some(Success(ref.value.regs, ref.value.mem, ref.value.gas))
  }

  /**
   How a compiled run relates to the reference run: `fits` when its counter never wraps,
   `inRange` when its addresses stay within 32 bits.
   */
  ghost predicate MeaningKept(m: Machine, ref: Option<Outcome>, out: Option<Outcome>, fits: bool, inRange: bool)
  {
    && (Finished(ref) ==> fits && inRange && SameResult(ref, out))
    && (Succeeded(out) ==> (SameResult(ref, out) <==> fits && inRange))
    && (fits ==> RunDecided(m, ref, out, inRange))
    && (Uncapped(m) ==> out != Some(OutOfGas))
  }

  /**
   Block metering preserves meaning, from the entry of any program under any limit. A
   finished reference run is reproduced exactly. A successful compiled run was a finished
   reference run exactly when its counter did not wrap and its addresses stayed within 32
   bits. While the counter does not wrap, an address outside 32 bits means that the
   reference machine refused it; otherwise running out of gas, reverting, trapping and
   running on carry over, except that the compiled machine may run out of gas instead,
   which it never does without a limit.
   */
  lemma {:induction false} MeteringPreservesMeaning(m: Machine, regs: Regs, mem: Memory, fuel: nat)
    requires m.code != []
    ensures MeaningKept(m, RunReference(m, 0, regs, mem, 0, fuel), RunCompiled(m, 0, true, regs, mem, 0, fuel),
                        NeverWraps(m, 0, true, regs, mem, 0, fuel), StaysInRange(m, 0, true, regs, mem, 0, fuel))
  {
    if Uncapped(m) {
      UncappedNeverRunsOut(m, 0, true, regs, mem, 0, fuel);
    }
    if Finished(RunReference(m, 0, regs, mem, 0, fuel)) {
      FinishedRunsAgree(m, 0, true, regs, mem, 0, 0, fuel);
      FinishedNeverWraps(m, 0, true, regs, mem, 0, 0, fuel);
    }
    if NeverWraps(m, 0, true, regs, mem, 0, fuel) {
      RunsAgree(m, 0, true, regs, mem, 0, 0, fuel);
    }
    KeptFromParts(m, RunReference(m, 0, regs, mem, 0, fuel), RunCompiled(m, 0, true, regs, mem, 0, fuel),
                  NeverWraps(m, 0, true, regs, mem, 0, fuel), StaysInRange(m, 0, true, regs, mem, 0, fuel));
  }

  lemma {:induction false} KeptFromParts(m: Machine, ref: Option<Outcome>, out: Option<Outcome>, fits: bool, inRange: bool)
    requires Finished(ref) ==> fits && inRange && SameResult(ref, out)
    requires fits ==> RunDecided(m, ref, out, inRange)
    requires Uncapped(m) ==> out != Some(OutOfGas)
    ensures MeaningKept(m, ref, out, fits, inRange)
  {
  }

  lemma {:induction false} MoreFuel(m: Machine, i: nat, entry: bool, regs: Regs, mem: Memory, gas: nat, fuel: nat,
                                    more: nat)
    requires i < |m.code| && fuel <= more && RunCompiled(m, i, entry, regs, mem, gas, fuel).Some?
    ensures RunCompiled(m, i, entry, regs, mem, gas, more) == RunCompiled(m, i, entry, regs, mem, gas, fuel)
    decreases fuel
  {
    var flow := CompiledStep(m, i, entry, regs, mem, gas);
    if flow.Go? {
      MoreFuel(m, flow.at, flow.entry, flow.regs, flow.mem, flow.gas, fuel - 1, more - 1);
    }
  }

  /** The compiled machine never runs out of gas on a run the reference machine finishes, however long. */
  lemma {:induction false} OutOfGasNeverHidesSuccess(m: Machine, regs: Regs, mem: Memory, fuel: nat, other: nat)
    requires m.code != [] && RunCompiled(m, 0, true, regs, mem, 0, fuel) == Some(OutOfGas)
    ensures !Finished(RunReference(m, 0, regs, mem, 0, other))
  {
    if Finished(RunReference(m, 0, regs, mem, 0, other)) {
      FinishedRunsAgree(m, 0, true, regs, mem, 0, 0, other);
      if fuel <= other {
        MoreFuel(m, 0, true, regs, mem, 0, fuel, other);
      } else {
        MoreFuel(m, 0, true, regs, mem, 0, other, fuel);
      }
    }
  }

  // ---------- The packed result ----------

  const RESULT_TRAP: nat := U64 - 1

  /** Gas in the upper 62 bits, status in the lower two. */
  function PackResult(status: nat, gas: u64): nat
  {
    gas * 4 % U64 + status
  }

  function DecodeResult(raw: nat): (nat, nat)
  {
    if raw == RESULT_TRAP then (RESULT_TRAP, 0) else (raw % 4, raw / 4)
  }

  /** The status always survives packing and is never read as a trap; the gas survives exactly below 2^62. */
  lemma {:induction false} PackedResult(status: nat, gas: u64)
    requires status < 3
    ensures DecodeResult(PackResult(status, gas)).0 == status
    ensures DecodeResult(PackResult(status, gas)).1 == gas <==> gas < U64 / 4
  {
    var q := gas / (U64 / 4);
    var low := gas - q * (U64 / 4);
    assert 0 <= low < U64 / 4;
    DivModUnique(gas * 4, U64, q, low * 4);
  }
}
