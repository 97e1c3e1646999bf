/**
 Full binary trees over a list of leaves, with any function combining two children into
 their parent: roots computed level by level, and paths from a leaf to the root.
 */
module Trees {
  import opened Prelude
  import opened ModArith

  /** The root of the full tree of depth `d` over `level`. */
  ghost function Tree<T>(node: (T, T) -> T, d: nat, level: seq<T>): T
    requires |level| == Pow2(d)
  {
    if d == 0 then level[0]
    else node(Tree(node, d - 1, level[..Pow2(d - 1)]), Tree(node, d - 1, level[Pow2(d - 1)..]))
  }

  /** The level above: the `n` pairs of neighbours combined. */
  function Up<T>(node: (T, T) -> T, level: seq<T>, n: nat): (next: seq<T>)
    requires |level| == 2 * n
    ensures |next| == n
  {
    seq(n, i requires 0 <= i < n => node(level[2 * i], level[2 * i + 1]))
  }

  lemma {:induction false} UpSplit<T>(node: (T, T) -> T, level: seq<T>, m: nat)
    requires |level| == 4 * m
    ensures Up(node, level, 2 * m) == Up(node, level[..2 * m], m) + Up(node, level[2 * m..], m)
  {
  }

  lemma {:induction false} TreeOfHalves<T>(node: (T, T) -> T, d: nat, left: seq<T>, right: seq<T>)
    requires |left| == Pow2(d) && |right| == Pow2(d)
    ensures |left + right| == Pow2(d + 1)
    ensures Tree(node, d + 1, left + right) == node(Tree(node, d, left), Tree(node, d, right))
  {
    var level := left + right;
    assert level[..Pow2(d)] == left && level[Pow2(d)..] == right;
  }

  lemma {:induction false} UpKeepsPair<T>(node: (T, T) -> T, level: seq<T>)
    requires |level| == 2
    ensures Pow2(0) == 1 && Pow2(1) == 2 && Tree(node, 0, Up(node, level, 1)) == Tree(node, 1, level)
  {
    assert level[..1][0] == level[0] && level[1..][0] == level[1];
  }

  /** Combining one level in pairs does not change the root. */
  lemma {:induction false} UpKeepsTree<T>(node: (T, T) -> T, d: nat, level: seq<T>)
    requires |level| == Pow2(d + 1)
    ensures Tree(node, d, Up(node, level, Pow2(d))) == Tree(node, d + 1, level)
  {
    var half := Pow2(d);
    var left, right := level[..half], level[half..];
    if d == 0 {
      UpKeepsPair(node, level);
    } else {
      UpKeepsTree(node, d - 1, left);
      UpKeepsTree(node, d - 1, right);
      UpSplit(node, level, Pow2(d - 1));
      TreeOfHalves(node, d - 1, Up(node, left, Pow2(d - 1)), Up(node, right, Pow2(d - 1)));
    }
  }

  /** The least `d` with `n <= 2^d`. */
  function Depth(n: nat): (d: nat)
    ensures n <= Pow2(d) && (d > 0 ==> Pow2(d - 1) < n)
  {
    if n <= 1 then 0 else Depth((n + 1) / 2) + 1
  }

  /** The leaves filled up to the next power of two. */
  ghost function Padded<T>(leaves: seq<T>, empty: T): (level: seq<T>)
    ensures |level| == Pow2(Depth(|leaves|)) && level[..|leaves|] == leaves
    ensures forall i :: |leaves| <= i < |level| ==> level[i] == empty
  {
    leaves + seq(Pow2(Depth(|leaves|)) - |leaves|, i => empty)
  }

  ghost function RootOf<T>(node: (T, T) -> T, leaves: seq<T>, empty: T): T
  {
    Tree(node, Depth(|leaves|), Padded(leaves, empty))
  }

  method PairUp<T>(node: (T, T) -> T, level: seq<T>, ghost n: nat) returns (next: seq<T>)
    requires |level| == 2 * n
    ensures next == Up(node, level, n)
  {
    next := [];
    for i := 0 to |level| / 2
      invariant |next| == i && forall j :: 0 <= j < i ==> next[j] == node(level[2 * j], level[2 * j + 1])
    {
      next := next + [node(level[2 * i], level[2 * i + 1])];
    }
  }

  lemma {:induction false} Pow2Monotone(a: nat, b: nat)
    requires a <= b
    ensures Pow2(a) <= Pow2(b)
    decreases b
  {
    if a < b {
      Pow2Monotone(a, b - 1);
    }
  }

  lemma {:induction false} LeastDepth(n: nat, d: nat, e: nat)
    requires n <= Pow2(d) && (d > 0 ==> Pow2(d - 1) < n)
    requires n <= Pow2(e) && (e > 0 ==> Pow2(e - 1) < n)
    ensures d == e
  {
    if d < e {
      Pow2Monotone(d, e - 1);
    } else if e < d {
      Pow2Monotone(e, d - 1);
    }
  }

  method NextPowerOfTwo(n: nat) returns (target: nat)
    ensures target == Pow2(Depth(n))
  {
    target := 1;
    ghost var d := 0;
    while target < n
      invariant target == Pow2(d) && (d > 0 ==> Pow2(d - 1) < n)
      decreases n - target
    {
      target := target * 2;
      d := d + 1;
    }
    LeastDepth(n, d, Depth(n));
  }

  method Pad<T>(leaves: seq<T>, empty: T) returns (level: seq<T>)
    ensures level == Padded(leaves, empty)
  {
    level := leaves;
    var target := NextPowerOfTwo(|leaves|);
    while |level| < target
      invariant |leaves| <= |level| <= target
      invariant level == leaves + seq(|level| - |leaves|, i => empty)
    {
      level := level + [empty];
    }
  }

  ghost predicate RootedAt<T>(node: (T, T) -> T, root: T, d: nat, level: seq<T>)
  {
    |level| == Pow2(d) && Tree(node, d, level) == root
  }

  lemma {:induction false} LevelStep<T>(node: (T, T) -> T, root: T, d: nat, level: seq<T>)
    requires RootedAt(node, root, d, level) && |level| > 1
    ensures d > 0 && |level| == 2 * Pow2(d - 1) && RootedAt(node, root, d - 1, Up(node, level, Pow2(d - 1)))
  {
    UpKeepsTree(node, d - 1, level);
  }

  method Collapse<T>(node: (T, T) -> T, leaves: seq<T>, ghost depth: nat, ghost root: T) returns (r: T)
    requires RootedAt(node, root, depth, leaves)
    ensures r == root
  {
    var level := leaves;
    ghost var d := depth;
    while |level| > 1
      invariant RootedAt(node, root, d, level)
      decreases d
    {
      LevelStep(node, root, d, level);
      level := PairUp(node, level, Pow2(d - 1));
      d := d - 1;
    }
    r := level[0];
  }

  /** The level-by-level computation yields the root of the padded tree. */
  method ComputeRoot<T>(node: (T, T) -> T, leaves: seq<T>, empty: T) returns (root: T)
    ensures root == RootOf(node, leaves, empty)
  {
    if leaves == [] {
      return empty;
    }
    var level := Pad(leaves, empty);
    root := Collapse(node, level, Depth(|leaves|), RootOf(node, leaves, empty));
  }

  // ---------- Paths ----------

  function Step<T>(node: (T, T) -> T, cur: T, idx: nat, sibling: T): T
  {
    if idx % 2 == 0 then node(cur, sibling) else node(sibling, cur)
  }

  /** `idx` halved `n` times. */
  function Shift(idx: nat, n: nat): nat
  {
    if n == 0 then idx else Shift(idx, n - 1) / 2
  }

  /** What a leaf at `idx` and its siblings, lowest first, reconstruct. */
  ghost function Climb<T>(node: (T, T) -> T, leaf: T, idx: nat, siblings: seq<T>): T
  {
    if siblings == [] then leaf
    else
      var n := |siblings| - 1;
      Step(node, Climb(node, leaf, idx, siblings[..n]), Shift(idx, n), siblings[n])
  }

  lemma {:induction false} ClimbSnoc<T>(node: (T, T) -> T, leaf: T, idx: nat, siblings: seq<T>, sibling: T)
    ensures Climb(node, leaf, idx, siblings + [sibling])
         == Step(node, Climb(node, leaf, idx, siblings), Shift(idx, |siblings|), sibling)
  {
    assert (siblings + [sibling])[..|siblings|] == siblings;
  }

  /** Following the siblings upwards, halving the index each time. */
  method Follow<T>(node: (T, T) -> T, leaf: T, leafIndex: nat, siblings: seq<T>) returns (cur: T)
    ensures cur == Climb(node, leaf, leafIndex, siblings)
  {
    var idx := leafIndex;
    cur := leaf;
    for i := 0 to |siblings|
      invariant idx == Shift(leafIndex, i) && cur == Climb(node, leaf, leafIndex, siblings[..i])
    {
      ClimbSnoc(node, leaf, leafIndex, siblings[..i], siblings[i]);
      assert siblings[..i] + [siblings[i]] == siblings[..i + 1];
      cur := if idx % 2 == 0 then node(cur, siblings[i]) else node(siblings[i], cur);
      idx := idx / 2;
    }
    assert siblings[..|siblings|] == siblings;
  }

  lemma {:induction false} PairedWithSibling<T>(node: (T, T) -> T, level: seq<T>, n: nat, idx: nat)
    requires |level| == 2 * n && idx < |level|
    ensures Up(node, level, n)[idx / 2]
         == Step(node, level[idx], idx, if idx % 2 == 0 then level[idx + 1] else level[idx - 1])
  {
    assert idx == 2 * (idx / 2) + idx % 2;
  }

  /** `idx` is where the path from `leafIndex` has reached in `level`, `d` levels below the root. */
  ghost predicate OnPath<T>(node: (T, T) -> T, root: T, leaf: T, leafIndex: nat, d: nat, level: seq<T>, idx: nat,
                            siblings: seq<T>)
  {
    && RootedAt(node, root, d, level)
    && idx < |level| && idx == Shift(leafIndex, |siblings|)
    && level[idx] == Climb(node, leaf, leafIndex, siblings)
  }

  lemma {:induction false} PathStep<T>(node: (T, T) -> T, root: T, leaf: T, leafIndex: nat, d: nat, level: seq<T>,
                                       idx: nat, siblings: seq<T>)
    requires OnPath(node, root, leaf, leafIndex, d, level, idx, siblings) && |level| > 1
    ensures d > 0 && |level| == 2 * Pow2(d - 1)
    ensures OnPath(node, root, leaf, leafIndex, d - 1, Up(node, level, Pow2(d - 1)), idx / 2,
                   siblings + [if idx % 2 == 0 then level[idx + 1] else level[idx - 1]])
  {
    LevelStep(node, root, d, level);
    PairedWithSibling(node, level, Pow2(d - 1), idx);
    ClimbSnoc(node, leaf, leafIndex, siblings, if idx % 2 == 0 then level[idx + 1] else level[idx - 1]);
  }

  method Ascend<T>(node: (T, T) -> T, leaves: seq<T>, leafIndex: nat, ghost depth: nat, ghost root: T)
    returns (siblings: seq<T>)
    requires RootedAt(node, root, depth, leaves) && leafIndex < |leaves|
    ensures |siblings| == depth && Climb(node, leaves[leafIndex], leafIndex, siblings) == root
  {
    var level := leaves;
    var idx: nat := leafIndex;
    siblings := [];
    ghost var d := depth;
    while |level| > 1
      invariant |siblings| + d == depth
      invariant OnPath(node, root, leaves[leafIndex], leafIndex, d, level, idx, siblings)
      decreases d
    {
      PathStep(node, root, leaves[leafIndex], leafIndex, d, level, idx, siblings);
      var sibling := if idx % 2 == 0 then level[idx + 1] else level[idx - 1];
      siblings := siblings + [sibling];
      idx := idx / 2;
      level := PairUp(node, level, Pow2(d - 1));
      d := d - 1;
    }
  }

  /** The siblings collected for a leaf reconstruct the root, for any number of leaves. */
  method Siblings<T>(node: (T, T) -> T, leaves: seq<T>, leafIndex: nat, empty: T) returns (siblings: seq<T>)
    requires leafIndex < |leaves|
    ensures |siblings| == Depth(|leaves|)
    ensures Climb(node, leaves[leafIndex], leafIndex, siblings) == RootOf(node, leaves, empty)
  {
    var level := Pad(leaves, empty);
    assert level[leafIndex] == leaves[leafIndex];
    siblings := Ascend(node, level, leafIndex, Depth(|leaves|), RootOf(node, leaves, empty));
  }

  // ---------- Binding ----------

  /** The pairs of children combined while building the tree. */
  ghost function TreePairs<T(!new)>(node: (T, T) -> T, d: nat, level: seq<T>): set<(T, T)>
    requires |level| == Pow2(d)
  {
    if d == 0 then {}
    else
      var left, right := level[..Pow2(d - 1)], level[Pow2(d - 1)..];
      {(Tree(node, d - 1, left), Tree(node, d - 1, right))} + TreePairs(node, d - 1, left) + TreePairs(node, d - 1, right)
  }

  function StepPair<T>(cur: T, idx: nat, sibling: T): (T, T)
  {
    if idx % 2 == 0 then (cur, sibling) else (sibling, cur)
  }

  /** The pairs combined while following a path. */
  ghost function PathPairs<T(!new)>(node: (T, T) -> T, leaf: T, idx: nat, siblings: seq<T>): set<(T, T)>
  {
    if siblings == [] then {}
    else
      var n := |siblings| - 1;
      var init := siblings[..n];
      {StepPair(Climb(node, leaf, idx, init), Shift(idx, n), siblings[n])} + PathPairs(node, leaf, idx, init)
  }

  /** On these pairs `node` is injective and never yields one of these leaves. */
  ghost predicate Free<T(!new)>(node: (T, T) -> T, pairs: set<(T, T)>, leaves: set<T>)
  {
    && (forall a, b :: a in pairs && b in pairs && node(a.0, a.1) == node(b.0, b.1) ==> a == b)
    && (forall a :: a in pairs ==> node(a.0, a.1) !in leaves)
  }

  /** The low `d` bits of `idx`. */
  function Low(idx: nat, d: nat): (r: nat)
    ensures r < Pow2(d)
  {
    if d == 0 then 0 else Low(idx, d - 1) + if Shift(idx, d - 1) % 2 == 0 then 0 else Pow2(d - 1)
  }

  lemma {:induction false} SplitIndex(idx: nat, d: nat)
    ensures idx == Shift(idx, d) * Pow2(d) + Low(idx, d)
  {
    if d > 0 {
      SplitIndex(idx, d - 1);
      var q := Shift(idx, d - 1);
      SplitStep(idx, Pow2(d - 1), q, q / 2, q % 2, Low(idx, d - 1), Pow2(d), Low(idx, d));
    }
  }

  lemma {:induction false} SplitStep(i: nat, w: nat, q: nat, a: nat, b: nat, r: nat, w': nat, r': nat)
    requires i == q * w + r && q == 2 * a + b && b < 2 && w' == 2 * w && r' == r + if b == 0 then 0 else w
    ensures i == a * w' + r'
  {
    assert q * w == a * (2 * w) + b * w;
  }

  lemma {:induction false} LowIsMod(idx: nat, d: nat)
    ensures Low(idx, d) == idx % Pow2(d)
  {
    SplitIndex(idx, d);
    DivModUnique(idx, Pow2(d), Shift(idx, d), Low(idx, d));
  }

  /** The half of a level that the last bit of `idx` selects. */
  ghost function Side<T>(level: seq<T>, d: nat, idx: nat): (side: seq<T>)
    requires |level| == Pow2(d + 1)
    ensures |side| == Pow2(d)
  {
    if idx % 2 == 0 then level[..Pow2(d)] else level[Pow2(d)..]
  }

  lemma {:induction false} SideAt<T>(level: seq<T>, d: nat, idx: nat)
    requires |level| == Pow2(d + 1)
    ensures Side(level, d, Shift(idx, d))[Low(idx, d)] == level[Low(idx, d + 1)]
  {
  }

  lemma {:induction false} SidePairs<T(!new)>(node: (T, T) -> T, level: seq<T>, d: nat, idx: nat)
    requires |level| == Pow2(d + 1)
    ensures TreePairs(node, d, Side(level, d, idx)) <= TreePairs(node, d + 1, level)
    ensures forall x :: x in Side(level, d, idx) ==> x in level
  {
  }

  /** The path and the tree meet at the root and use only pairs and leaves that are free of collisions. */
  ghost predicate Meets<T(!new)>(node: (T, T) -> T, d: nat, level: seq<T>, leaf: T, idx: nat, siblings: seq<T>,
                                 pairs: set<(T, T)>, leaves: set<T>)
  {
    && |level| == Pow2(d) && Climb(node, leaf, idx, siblings) == Tree(node, d, level)
    && Free(node, pairs, leaves) && leaf in leaves && (forall x :: x in level ==> x in leaves)
    && TreePairs(node, d, level) <= pairs && PathPairs(node, leaf, idx, siblings) <= pairs
  }

  /** Below the root they still meet, in the half the path came from. */
  lemma {:induction false} MeetsBelow<T(!new)>(node: (T, T) -> T, d: nat, level: seq<T>, leaf: T, idx: nat,
                                               siblings: seq<T>, pairs: set<(T, T)>, leaves: set<T>)
    requires siblings != [] && Meets(node, d + 1, level, leaf, idx, siblings, pairs, leaves)
    ensures var n := |siblings| - 1;
            Meets(node, d, Side(level, d, Shift(idx, n)), leaf, idx, siblings[..n], pairs, leaves)
  {
    var n := |siblings| - 1;
    var top := StepPair(Climb(node, leaf, idx, siblings[..n]), Shift(idx, n), siblings[n]);
    var pair := (Tree(node, d, level[..Pow2(d)]), Tree(node, d, level[Pow2(d)..]));
    assert top in PathPairs(node, leaf, idx, siblings) && pair in TreePairs(node, d + 1, level);
    assert top == pair;
    SidePairs(node, level, d, Shift(idx, n));
  }

  /**
   A path that reaches the root of a tree is as long as the tree is deep and starts at
   the leaf its index names, modulo the number of leaves.
   */
  lemma {:induction false} PathNamesLeaf<T(!new)>(node: (T, T) -> T, d: nat, level: seq<T>, leaf: T, idx: nat,
                                                  siblings: seq<T>, pairs: set<(T, T)>, leaves: set<T>)
    requires Meets(node, d, level, leaf, idx, siblings, pairs, leaves)
    ensures |siblings| == d && level[Low(idx, d)] == leaf
    decreases d
  {
    if d > 0 && siblings != [] {
      var n := |siblings| - 1;
      MeetsBelow(node, d - 1, level, leaf, idx, siblings, pairs, leaves);
      PathNamesLeaf(node, d - 1, Side(level, d - 1, Shift(idx, n)), leaf, idx, siblings[..n], pairs, leaves);
      SideAt(level, d - 1, idx);
    } else {
      EndsTogether(node, d, level, leaf, idx, siblings, pairs, leaves);
    }
  }

  /** A leaf is never a root of a deeper tree or the end of a longer path. */
  lemma {:induction false} EndsTogether<T(!new)>(node: (T, T) -> T, d: nat, level: seq<T>, leaf: T, idx: nat,
                                                 siblings: seq<T>, pairs: set<(T, T)>, leaves: set<T>)
    requires Meets(node, d, level, leaf, idx, siblings, pairs, leaves) && (d == 0 || siblings == [])
    ensures d == 0 && siblings == [] && level[0] == leaf
  {
  }
}
