/**
 Cutting bytecode into basic blocks: where blocks start, which instructions they hold
 and what static gas is charged at their entry.
 */
module BasicBlocks {
  import opened Prelude
  import opened Bytes
  import opened ModArith
  import opened Isa

  /** The byte a branch at instruction `i` jumps to, with 32-bit wrap-around. */
  function TargetByte(code: seq<Instr>, i: nat): nat
    requires i < |code| && HasBranchTarget(code[i])
  {
    (4 * i + SignExtend(code[i].imm)) % U32
  }

  /** The instruction a branch at `i` jumps to, if it lies in the code. */
  function Target(code: seq<Instr>, i: nat): (t: Option<nat>)
    requires i < |code| && HasBranchTarget(code[i])
    ensures t.Some? ==> t.value < |code|
  {
    var t := TargetByte(code, i);
    if t % 4 == 0 && t / 4 < |code| then Some(t / 4) else None
  }

  /** Some branch among the first `n` instructions jumps to `i`. */
  ghost predicate JumpedTo(code: seq<Instr>, n: nat, i: nat)
    requires n <= |code|
  {
    exists j: nat :: j < n && HasBranchTarget(code[j]) && Target(code, j) == Some(i)
  }

  /** `i` starts a block, as far as the first `n` instructions tell. */
  ghost predicate StartsAfter(code: seq<Instr>, n: nat, i: nat)
    requires n <= |code|
  {
    i < |code| && (i == 0 || (i <= n && IsTerminator(code[i - 1])) || JumpedTo(code, n, i))
  }

  /** Blocks start at the entry, after a terminator and at branch targets. */
  ghost predicate IsStart(code: seq<Instr>, i: nat)
  {
    StartsAfter(code, |code|, i)
  }

  // ---------- Starts as byte offsets ----------

  /** Some branch among the first `n` instructions jumps to byte `b`. */
  ghost predicate JumpedToByte(code: seq<Instr>, n: nat, b: nat)
    requires n <= |code|
  {
    exists j: nat :: j < n && HasBranchTarget(code[j]) && TargetByte(code, j) == b
  }

  /** Byte `b` starts a block, as far as the first `n` instructions tell; it need not start an instruction. */
  ghost predicate ByteStartsAfter(code: seq<Instr>, n: nat, b: nat)
    requires n <= |code|
  {
    && b < 4 * |code|
    && (b == 0 || (b % 4 == 0 && b / 4 <= n && IsTerminator(code[b / 4 - 1])) || JumpedToByte(code, n, b))
  }

  ghost predicate ByteStart(code: seq<Instr>, b: nat)
  {
    ByteStartsAfter(code, |code|, b)
  }

  lemma {:induction false} OneMoreInstruction(code: seq<Instr>, n: nat, b: nat)
    requires n < |code|
    ensures ByteStartsAfter(code, n + 1, b) <==>
            || ByteStartsAfter(code, n, b)
            || (b == 4 * (n + 1) < 4 * |code| && IsTerminator(code[n]))
            || (HasBranchTarget(code[n]) && TargetByte(code, n) == b < 4 * |code|)
  {
    if HasBranchTarget(code[n]) && TargetByte(code, n) == b {
      assert JumpedToByte(code, n + 1, b);
    }
    assert b == 4 * (n + 1) <==> b % 4 == 0 && b / 4 == n + 1;
  }

  method CollectStarts(code: seq<Instr>) returns (starts: set<nat>)
    requires code != []
    ensures forall b: nat :: b in starts <==> ByteStart(code, b)
  {
    starts := {0};
    for i := 0 to |code|
      invariant forall b: nat :: b in starts <==> ByteStartsAfter(code, i, b)
    {
      var pc := 4 * i;
      if IsTerminator(code[i]) && pc + 4 < 4 * |code| {
        starts := starts + {pc + 4};
      }
      if HasBranchTarget(code[i]) && TargetByte(code, i) < 4 * |code| {
        starts := starts + {TargetByte(code, i)};
      }
      forall b: nat
        ensures b in starts <==> ByteStartsAfter(code, i + 1, b)
      {
        OneMoreInstruction(code, i, b);
      }
    }
  }

  /** Every block starts with an instruction. */
  ghost predicate AlignedStarts(code: seq<Instr>)
  {
    forall b: nat :: ByteStart(code, b) ==> b % 4 == 0
  }

  /** Branch offsets that are whole numbers of instructions give aligned starts. */
  lemma {:induction false} AlignedOffsets(code: seq<Instr>)
    requires forall i :: 0 <= i < |code| && HasBranchTarget(code[i]) ==> code[i].imm % 4 == 0
    ensures AlignedStarts(code)
  {
    forall b: nat | ByteStart(code, b)
      ensures b % 4 == 0
    {
      if b != 0 && JumpedToByte(code, |code|, b) {
        var j: nat :| j < |code| && HasBranchTarget(code[j]) && TargetByte(code, j) == b;
        AlignedTarget(j, code[j].imm);
      }
    }
  }

  lemma {:induction false} AlignedTarget(i: nat, imm: Imm)
    requires imm % 4 == 0
    ensures (4 * i + SignExtend(imm)) % U32 % 4 == 0
  {
    var y := if imm < 0x2_0000 then i + imm / 4 else i + imm / 4 - 0x1_0000;
    QuarterResidue(y);
  }

  lemma {:induction false} QuarterResidue(y: int)
    ensures (4 * y) % U32 == 4 * (y % 0x4000_0000)
  {
    var q, r := y / 0x4000_0000, y % 0x4000_0000;
    DivModUnique(4 * y, U32, q, 4 * r);
  }

  /** Where starts are aligned, bytes and instructions agree on them. */
  lemma {:induction false} StartsMatch(code: seq<Instr>, b: nat)
    requires AlignedStarts(code)
    ensures ByteStart(code, b) <==> b % 4 == 0 && IsStart(code, b / 4)
  {
    if ByteStart(code, b) && JumpedToByte(code, |code|, b) {
      var j: nat :| j < |code| && HasBranchTarget(code[j]) && TargetByte(code, j) == b;
      assert Target(code, j) == Some(b / 4);
    }
    if b % 4 == 0 && IsStart(code, b / 4) && JumpedTo(code, |code|, b / 4) {
      var j: nat :| j < |code| && HasBranchTarget(code[j]) && Target(code, j) == Some(b / 4);
      assert TargetByte(code, j) == b;
    }
  }

  // ---------- Blocks ----------

  datatype Block = Block(startPc: nat, instrs: seq<Instr>, gas: nat)

  function TotalCost(cost: Instr -> nat, instrs: seq<Instr>): nat
  {
    if instrs == [] then 0 else cost(instrs[0]) + TotalCost(cost, instrs[1..])
  }

  /** The static gas from instruction `i` to the end of its block. */
  ghost function Suffix(code: seq<Instr>, cost: Instr -> nat, i: nat): nat
    requires i < |code|
    decreases |code| - i
  {
    cost(code[i]) + if i + 1 < |code| && !IsStart(code, i + 1) then Suffix(code, cost, i + 1) else 0
  }

  /** `lo .. hi` is a whole block from `lo` on: no start inside, and a start or the end at `hi`. */
  ghost predicate IsBlockTail(code: seq<Instr>, lo: nat, hi: nat)
  {
    && lo < hi <= |code|
    && (forall i :: lo < i < hi ==> !IsStart(code, i))
    && (hi == |code| || IsStart(code, hi))
  }

  lemma {:induction false} SuffixIsTotal(code: seq<Instr>, cost: Instr -> nat, lo: nat, hi: nat)
    requires IsBlockTail(code, lo, hi)
    ensures TotalCost(cost, code[lo..hi]) == Suffix(code, cost, lo)
    decreases hi - lo
  {
    assert code[lo..hi][1..] == code[lo + 1..hi];
    if lo + 1 < hi {
      assert !IsStart(code, lo + 1);
      SuffixIsTotal(code, cost, lo + 1, hi);
    } else {
      assert code[lo + 1..hi] == [];
    }
  }

  /** The starts in ascending order, as instruction numbers. */
  ghost predicate Ascending(code: seq<Instr>, starts: seq<nat>)
  {
    && (forall k, l :: 0 <= k < l < |starts| ==> starts[k] < starts[l])
    && (forall i: nat :: i in starts <==> IsStart(code, i))
  }

  /** Names an index whose block or start is looked up; it holds of every index. */
  predicate Lookup(i: nat)
  {
    true
  }

  /** The blocks cover the code from its start up to instruction `end`. */
  ghost predicate Covers(code: seq<Instr>, cost: Instr -> nat, blocks: seq<Block>, end: nat)
    requires end <= |code|
  {
    && Flatten(blocks) == code[..end]
    && forall k: nat {:trigger Lookup(k)} :: Lookup(k) && k < |blocks| ==> IsBlock(code, cost, blocks[k])
  }

  /** A maximal run of instructions from one start to the next, with its static gas. */
  ghost predicate IsBlock(code: seq<Instr>, cost: Instr -> nat, b: Block)
  {
    var lo := b.startPc / 4;
    && b.startPc % 4 == 0 && IsStart(code, lo) && IsBlockTail(code, lo, lo + |b.instrs|)
    && b.instrs == code[lo..lo + |b.instrs|]
    && b.gas == Suffix(code, cost, lo)
  }

  function Flatten(blocks: seq<Block>): seq<Instr>
  {
    if blocks == [] then [] else Flatten(blocks[..|blocks| - 1]) + blocks[|blocks| - 1].instrs
  }

  lemma {:induction false} BlockBetween(code: seq<Instr>, starts: seq<nat>, k: nat, end: nat)
    requires Ascending(code, starts) && k < |starts|
    requires end == if k + 1 < |starts| then starts[k + 1] else |code|
    ensures starts[k] < |code| && IsStart(code, starts[k]) && IsBlockTail(code, starts[k], end)
  {
    assert starts[k] in starts;
    if k + 1 < |starts| {
      assert starts[k + 1] in starts;
    }
    forall i: nat | starts[k] < i < end && IsStart(code, i)
      ensures false
    {
      var l :| 0 <= l < |starts| && starts[l] == i;
    }
  }

  lemma {:induction false} EntryFirst(code: seq<Instr>, starts: seq<nat>)
    requires code != [] && Ascending(code, starts)
    ensures starts != [] && starts[0] == 0
  {
    assert IsStart(code, 0);
    var k :| 0 <= k < |starts| && starts[k] == 0;
  }

  lemma {:induction false} FlattenSnoc(blocks: seq<Block>, b: Block)
    ensures Flatten(blocks + [b]) == Flatten(blocks) + b.instrs
  {
    assert (blocks + [b])[..|blocks|] == blocks;
  }

  lemma {:induction false} CutIsBlock(code: seq<Instr>, cost: Instr -> nat, lo: nat, hi: nat)
    requires lo <= |code| && IsStart(code, lo) && IsBlockTail(code, lo, hi)
    ensures IsBlock(code, cost, Block(4 * lo, code[lo..hi], TotalCost(cost, code[lo..hi])))
  {
    SuffixIsTotal(code, cost, lo, hi);
  }

  lemma {:induction false} CoversSnoc(code: seq<Instr>, cost: Instr -> nat, blocks: seq<Block>, lo: nat, hi: nat, b: Block)
    requires lo <= hi <= |code| && Covers(code, cost, blocks, lo) && IsBlock(code, cost, b) && b.instrs == code[lo..hi]
    ensures Covers(code, cost, blocks + [b], hi)
  {
    FlattenSnoc(blocks, b);
    forall k: nat | Lookup(k) && k < |blocks + [b]|
      ensures IsBlock(code, cost, (blocks + [b])[k])
    {
    }
    assert code[..hi] == code[..lo] + code[lo..hi];
  }

  /** Where the `k`-th block starts; the end of the code after the last one. */
  function Boundary(code: seq<Instr>, starts: seq<nat>, k: nat): nat
  {
    if k < |starts| then starts[k] else |code|
  }

  /** The first `k` blocks. */
  ghost predicate Built(code: seq<Instr>, cost: Instr -> nat, starts: seq<nat>, blocks: seq<Block>, k: nat)
  {
    && |blocks| == k && (forall l :: 0 <= l < k <= |starts| ==> blocks[l].startPc == 4 * starts[l])
    && Boundary(code, starts, k) <= |code| && Covers(code, cost, blocks, Boundary(code, starts, k))
  }

  lemma {:induction false} BuiltNext(code: seq<Instr>, cost: Instr -> nat, starts: seq<nat>, blocks: seq<Block>, k: nat)
    requires Ascending(code, starts) && k < |starts| && Built(code, cost, starts, blocks, k)
    ensures starts[k] < Boundary(code, starts, k + 1) <= |code|
    ensures var instrs := code[starts[k]..Boundary(code, starts, k + 1)];
            Built(code, cost, starts, blocks + [Block(4 * starts[k], instrs, TotalCost(cost, instrs))], k + 1)
  {
    var end := Boundary(code, starts, k + 1);
    BlockBetween(code, starts, k, end);
    CutIsBlock(code, cost, starts[k], end);
    var instrs := code[starts[k]..end];
    CoversSnoc(code, cost, blocks, starts[k], end, Block(4 * starts[k], instrs, TotalCost(cost, instrs)));
  }

  /** There is a block for every start and for nothing else. */
  ghost predicate OnePerStart(code: seq<Instr>, blocks: seq<Block>)
  {
    forall i: nat {:trigger Lookup(i)} :: Lookup(i) ==>
      (IsStart(code, i) <==> exists k: nat :: k < |blocks| && blocks[k].startPc == 4 * i)
  }

  /** The blocks joined are the code, the first is the entry, and every start has its block. */
  ghost predicate IsPartition(code: seq<Instr>, cost: Instr -> nat, blocks: seq<Block>)
  {
    && blocks != [] && blocks[0].startPc == 0
    && Covers(code, cost, blocks, |code|) && OnePerStart(code, blocks)
  }

  lemma {:induction false} StartsHaveBlocks(code: seq<Instr>, starts: seq<nat>, blocks: seq<Block>)
    requires Ascending(code, starts)
    requires |blocks| == |starts| && forall k :: 0 <= k < |blocks| ==> blocks[k].startPc == 4 * starts[k]
    ensures OnePerStart(code, blocks)
  {
    forall i: nat | Lookup(i)
      ensures IsStart(code, i) <==> exists k: nat :: k < |blocks| && blocks[k].startPc == 4 * i
    {
      if IsStart(code, i) {
        var k :| 0 <= k < |starts| && starts[k] == i;
        assert blocks[k].startPc == 4 * i;
      }
    }
  }

  // ---------- Cutting ----------

  /** The starts in ascending order, as byte offsets. */
  ghost predicate SortedStarts(code: seq<Instr>, starts: seq<nat>)
  {
    && (forall k, l :: 0 <= k < l < |starts| ==> starts[k] < starts[l])
    && (forall b: nat :: b in starts <==> ByteStart(code, b))
  }

  method SortStarts(code: seq<Instr>, byteStarts: set<nat>) returns (starts: seq<nat>)
    requires forall b: nat :: b in byteStarts <==> ByteStart(code, b)
    ensures SortedStarts(code, starts)
  {
    starts := [];
    for b := 0 to 4 * |code|
      invariant forall k, l :: 0 <= k < l < |starts| ==> starts[k] < starts[l]
      invariant forall k :: 0 <= k < |starts| ==> starts[k] < b
      invariant forall c: nat :: c in starts <==> c < b && ByteStart(code, c)
    {
      if b in byteStarts {
        starts := starts + [b];
      }
    }
  }

  /** The byte where the `k`-th block starts; the end of the code after the last one. */
  function Edge(code: seq<Instr>, starts: seq<nat>, k: nat): nat
  {
    if k < |starts| then starts[k] else 4 * |code|
  }

  lemma {:induction false} EdgesGrow(code: seq<Instr>, starts: seq<nat>, k: nat)
    requires SortedStarts(code, starts) && k < |starts|
    ensures starts[k] < Edge(code, starts, k + 1) <= 4 * |code|
  {
    assert starts[k] in starts;
    if k + 1 < |starts| {
      assert starts[k + 1] in starts;
    }
  }

  /** The `k`-th block: the instructions between two edges, rounded down, and their static gas. */
  ghost predicate IsCutAt(code: seq<Instr>, cost: Instr -> nat, starts: seq<nat>, k: nat, b: Block)
    requires k < |starts|
  {
    var lo, hi := starts[k] / 4, Edge(code, starts, k + 1) / 4;
    && b.startPc == starts[k] && lo <= hi <= |code|
    && b.instrs == code[lo..hi] && b.gas == TotalCost(cost, code[lo..hi])
  }

  /** The first blocks cut the code up to the next edge, without loss and in order. */
  ghost predicate CutUpTo(code: seq<Instr>, cost: Instr -> nat, starts: seq<nat>, blocks: seq<Block>)
  {
    && |blocks| <= |starts| && Edge(code, starts, |blocks|) <= 4 * |code|
    && Flatten(blocks) == code[..Edge(code, starts, |blocks|) / 4]
    && forall k :: 0 <= k < |blocks| ==> IsCutAt(code, cost, starts, k, blocks[k])
  }

  lemma {:induction false} CutNext(code: seq<Instr>, cost: Instr -> nat, starts: seq<nat>, blocks: seq<Block>, b: Block)
    requires SortedStarts(code, starts) && CutUpTo(code, cost, starts, blocks) && |blocks| < |starts|
    requires IsCutAt(code, cost, starts, |blocks|, b)
    ensures CutUpTo(code, cost, starts, blocks + [b])
  {
    EdgesGrow(code, starts, |blocks|);
    var lo, hi := starts[|blocks|] / 4, Edge(code, starts, |blocks| + 1) / 4;
    FlattenSnoc(blocks, b);
    assert code[..hi] == code[..lo] + code[lo..hi];
  }

  lemma {:induction false} ByteEntryFirst(code: seq<Instr>, starts: seq<nat>)
    requires code != [] && SortedStarts(code, starts)
    ensures starts != [] && starts[0] == 0
  {
    assert ByteStart(code, 0);
    var k :| 0 <= k < |starts| && starts[k] == 0;
  }

  method BuildBlocks(code: seq<Instr>, cost: Instr -> nat, starts: seq<nat>) returns (blocks: seq<Block>)
    requires code != [] && SortedStarts(code, starts)
    ensures |blocks| == |starts| && CutUpTo(code, cost, starts, blocks)
  {
    ByteEntryFirst(code, starts);
    blocks := [];
    assert code[..0] == [];
    for k := 0 to |starts|
      invariant |blocks| == k && CutUpTo(code, cost, starts, blocks)
    {
      EdgesGrow(code, starts, k);
      var end := if k + 1 < |starts| then starts[k + 1] else 4 * |code|;
      var instrs := code[starts[k] / 4..end / 4];
      var b := Block(starts[k], instrs, TotalCost(cost, instrs));
      CutNext(code, cost, starts, blocks, b);
      blocks := blocks + [b];
    }
  }

  ghost function StartsOf(blocks: seq<Block>): seq<nat>
  {
    seq(|blocks|, k requires 0 <= k < |blocks| => blocks[k].startPc)
  }

  /** The blocks cut the whole code, one for every start and in their order. */
  ghost predicate IsCut(code: seq<Instr>, cost: Instr -> nat, blocks: seq<Block>)
  {
    SortedStarts(code, StartsOf(blocks)) && CutUpTo(code, cost, StartsOf(blocks), blocks)
  }

  ghost function InstructionStarts(starts: seq<nat>): seq<nat>
  {
    seq(|starts|, k requires 0 <= k < |starts| => starts[k] / 4)
  }

  lemma {:induction false} AscendingStarts(code: seq<Instr>, starts: seq<nat>)
    requires SortedStarts(code, starts) && AlignedStarts(code)
    ensures Ascending(code, InstructionStarts(starts))
    ensures forall k :: 0 <= k < |starts| ==> starts[k] == 4 * InstructionStarts(starts)[k]
  {
    var firsts := InstructionStarts(starts);
    forall k | 0 <= k < |starts|
      ensures starts[k] == 4 * firsts[k] && IsStart(code, firsts[k])
    {
      assert starts[k] in starts;
      StartsMatch(code, starts[k]);
    }
    forall i: nat | IsStart(code, i)
      ensures i in firsts
    {
      StartsMatch(code, 4 * i);
      assert (4 * i) / 4 == i;
      var k :| 0 <= k < |starts| && starts[k] == 4 * i;
      assert firsts[k] == i;
    }
  }

  /** An aligned cut is the next block of the partition. */
  lemma {:induction false} CutIsNext(code: seq<Instr>, cost: Instr -> nat, starts: seq<nat>, k: nat, b: Block)
    requires k < |starts| && IsCutAt(code, cost, starts, k, b)
    requires forall l :: 0 <= l < |starts| ==> starts[l] == 4 * InstructionStarts(starts)[l]
    ensures var firsts := InstructionStarts(starts);
            && firsts[k] <= Boundary(code, firsts, k + 1) <= |code|
            && var instrs := code[firsts[k]..Boundary(code, firsts, k + 1)];
               b == Block(4 * firsts[k], instrs, TotalCost(cost, instrs))
  {
    assert Edge(code, starts, k + 1) / 4 == Boundary(code, InstructionStarts(starts), k + 1);
  }

  lemma {:induction false} BuiltSoFar(code: seq<Instr>, cost: Instr -> nat, starts: seq<nat>, blocks: seq<Block>, k: nat)
    requires code != [] && SortedStarts(code, starts) && AlignedStarts(code)
    requires |blocks| == |starts| && CutUpTo(code, cost, starts, blocks) && k <= |blocks|
    ensures Built(code, cost, InstructionStarts(starts), blocks[..k], k)
  {
    var firsts := InstructionStarts(starts);
    AscendingStarts(code, starts);
    if k == 0 {
      EntryFirst(code, firsts);
      assert code[..0] == [];
    } else {
      assert blocks[..k] == blocks[..k - 1] + [blocks[k - 1]];
      BuiltSoFar(code, cost, starts, blocks, k - 1);
      CutIsNext(code, cost, starts, k - 1, blocks[k - 1]);
      BuiltNext(code, cost, firsts, blocks[..k - 1], k - 1);
    }
  }

  /** A cut partitions the code into maximal runs of instructions exactly when every start is aligned. */
  lemma {:induction false} PartitionIffAligned(code: seq<Instr>, cost: Instr -> nat, blocks: seq<Block>)
    requires code != [] && IsCut(code, cost, blocks)
    ensures IsPartition(code, cost, blocks) <==> AlignedStarts(code)
  {
    var starts := StartsOf(blocks);
    if AlignedStarts(code) {
      AscendingStarts(code, starts);
      EntryFirst(code, InstructionStarts(starts));
      BuiltSoFar(code, cost, starts, blocks, |blocks|);
      assert blocks[..|blocks|] == blocks;
      StartsHaveBlocks(code, InstructionStarts(starts), blocks);
    }
    if IsPartition(code, cost, blocks) {
      forall b: nat | ByteStart(code, b)
        ensures b % 4 == 0
      {
        var k :| 0 <= k < |starts| && starts[k] == b;
        assert Lookup(k);
      }
    }
  }

  datatype AnalysisError = EmptyBytecode | UnalignedBytecode

  function Decoded(bytes: seq<byte>, decode: u32 -> Instr): seq<Instr>
    requires |bytes| % 4 == 0
  {
    seq(|bytes| / 4, i requires 0 <= i < |bytes| / 4 => decode(ReadU32(bytes[4 * i..4 * i + 4])))
  }

  /**
   Analysis cuts the code at its starts: the blocks joined are the whole program, there is
   one for every start in ascending order, and each carries the static gas of exactly its
   own instructions. Each runs from one start to just before the next exactly when no branch
   leads between two instructions.
   */
  method Analyze(bytes: seq<byte>, decode: u32 -> Instr, cost: Instr -> nat)
    returns (r: Result<seq<Block>, AnalysisError>)
    requires |bytes| < U32
    ensures r == Err(EmptyBytecode) <==> bytes == []
    ensures r == Err(UnalignedBytecode) <==> |bytes| % 4 != 0
    ensures r.Ok? ==>
              && IsCut(Decoded(bytes, decode), cost, r.value) && Flatten(r.value) == Decoded(bytes, decode)
              && (IsPartition(Decoded(bytes, decode), cost, r.value) <==> AlignedStarts(Decoded(bytes, decode)))
  {
    if bytes == [] {
      return Err(EmptyBytecode);
    }
    if |bytes| % 4 != 0 {
      return Err(UnalignedBytecode);
    }
    var code := Decoded(bytes, decode);
    var blocks := CutIntoBlocks(code, cost);
    assert code[..4 * |code| / 4] == code;
    PartitionIffAligned(code, cost, blocks);
    r := Ok(blocks);
  }

  method CutIntoBlocks(code: seq<Instr>, cost: Instr -> nat) returns (blocks: seq<Block>)
    requires code != []
    ensures IsCut(code, cost, blocks)
  {
    var byteStarts := CollectStarts(code);
    var starts := SortStarts(code, byteStarts);
    blocks := BuildBlocks(code, cost, starts);
    assert StartsOf(blocks) == starts by {
      forall k | 0 <= k < |starts|
        ensures StartsOf(blocks)[k] == starts[k]
      {
        assert IsCutAt(code, cost, starts, k, blocks[k]);
      }
    }
  }
}
