/**
 The VRF-seeded Fisher-Yates shuffle that orders a block's transactions.
 */
module Ordering {
  import opened Prelude

  /** Draws of the seeded generator, one per position; `prng_at(seed, i)`. */
  type Draws = nat -> u64

  /** For each position, the position at or below it that it is swapped with. */
  type Picks = nat -> nat

  ghost predicate Bounded(picks: Picks)
  {
    forall i: nat :: picks(i) <= i
  }

  /** The seeded pick: the draw reduced to the positions still open. */
  function Pick(draws: Draws, i: nat): (j: nat)
    ensures j <= i
  {
    draws(i) % (i + 1)
  }

  function PicksOf(draws: Draws): (picks: Picks)
    ensures Bounded(picks)
  {
    (i: nat) => Pick(draws, i)
  }

  function Swap<T>(s: seq<T>, i: nat, j: nat): (r: seq<T>)
    requires i < |s| && j < |s|
    ensures |r| == |s|
    ensures forall k :: 0 <= k < |s| ==> r[k] == if k == i then s[j] else if k == j then s[i] else s[k]
  {
    s[i := s[j]][j := s[i]]
  }

  method SwapInPlace<T>(a: array<T>, i: nat, j: nat)
    requires i < a.Length && j < a.Length
    modifies a
    ensures a[..] == Swap(old(a[..]), i, j)
  {
    a[i], a[j] := a[j], a[i];
  }

  /** Swap position `i` with its pick, then the positions below `i` likewise. */
  ghost function ShuffleFrom<T>(s: seq<T>, i: nat, picks: Picks): (r: seq<T>)
    requires Bounded(picks) && (i < |s| || (i == 0 && s == []))
    ensures |r| == |s|
    decreases i
  {
    if i == 0 then s else ShuffleFrom(Swap(s, i, picks(i)), i - 1, picks)
  }

  function Identity(n: nat): (r: seq<nat>)
    ensures |r| == n && forall i :: 0 <= i < n ==> r[i] == i
  {
    seq(n, i requires 0 <= i => i)
  }

  function Last(n: nat): nat
  {
    if n == 0 then 0 else n - 1
  }

  ghost function Shuffled(n: nat, picks: Picks): seq<nat>
    requires Bounded(picks)
  {
    ShuffleFrom(Identity(n), Last(n), picks)
  }

  method VrfShuffle(n: nat, draws: Draws) returns (indices: seq<nat>)
    ensures indices == Shuffled(n, PicksOf(draws))
  {
    ghost var picks := PicksOf(draws);
    var a := new nat[n](i => i);
    assert a[..] == Identity(n);
    var i: nat := Last(n);
    while i >= 1
      invariant i < n || (i == 0 && n == 0)
      invariant ShuffleFrom(a[..], i, picks) == Shuffled(n, picks)
    {
      SwapInPlace(a, i, Pick(draws, i));
      i := i - 1;
    }
    indices := a[..];
  }

  function ApplyShuffle<T>(items: seq<T>, permutation: seq<nat>): (r: seq<T>)
    requires forall i :: 0 <= i < |permutation| ==> permutation[i] < |items|
  {
    seq(|permutation|, i requires 0 <= i < |permutation| => items[permutation[i]])
  }

  /** The check a node makes on a claimed order: accept the one order the draws produce. */
  method VerifyShuffle(n: nat, draws: Draws, claimed: seq<nat>) returns (ok: bool)
    ensures ok <==> claimed == Shuffled(n, PicksOf(draws))
  {
    if |claimed| != n {
      return false;
    }
    var expected := VrfShuffle(n, draws);
    ok := claimed == expected;
  }

  // ---------- The shuffle is a permutation ----------

  lemma {:induction false} SwapKeeps<T>(s: seq<T>, i: nat, j: nat)
    requires i < |s| && j < |s|
    ensures multiset(Swap(s, i, j)) == multiset(s)
  {
  }

  lemma {:induction false} ShuffleKeeps<T>(s: seq<T>, i: nat, picks: Picks)
    requires Bounded(picks) && (i < |s| || (i == 0 && s == []))
    ensures multiset(ShuffleFrom(s, i, picks)) == multiset(s)
    ensures forall k :: i < k < |s| ==> ShuffleFrom(s, i, picks)[k] == s[k]
    decreases i
  {
    if i > 0 {
      SwapKeeps(s, i, picks(i));
      ShuffleKeeps(Swap(s, i, picks(i)), i - 1, picks);
    }
  }

  ghost predicate Within(p: seq<nat>, n: nat)
  {
    forall i :: 0 <= i < |p| ==> p[i] < n
  }

  /** Every index appears exactly once. */
  lemma {:induction false} ShuffledIsPermutation(n: nat, picks: Picks)
    requires Bounded(picks)
    ensures |Shuffled(n, picks)| == n && Within(Shuffled(n, picks), n)
    ensures multiset(Shuffled(n, picks)) == multiset(Identity(n))
  {
    var p := Shuffled(n, picks);
    ShuffleKeeps(Identity(n), Last(n), picks);
    forall i | 0 <= i < n
      ensures p[i] < n
    {
      assert p[i] in multiset(p);
      assert p[i] in Identity(n);
    }
  }

  lemma {:induction false} ApplySwap<T>(items: seq<T>, p: seq<nat>, i: nat, j: nat)
    requires Within(p, |items|) && i < |p| && j < |p|
    ensures Within(Swap(p, i, j), |items|)
    ensures ApplyShuffle(items, Swap(p, i, j)) == Swap(ApplyShuffle(items, p), i, j)
  {
  }

  /** Shuffling the indices and then picking the items is shuffling the items. */
  lemma {:induction false} ApplyCommutes<T>(items: seq<T>, p: seq<nat>, i: nat, picks: Picks)
    requires Bounded(picks) && Within(p, |items|) && (i < |p| || (i == 0 && p == []))
    ensures Within(ShuffleFrom(p, i, picks), |items|)
    ensures ApplyShuffle(items, ShuffleFrom(p, i, picks)) == ShuffleFrom(ApplyShuffle(items, p), i, picks)
    decreases i
  {
    if i > 0 {
      ApplySwap(items, p, i, picks(i));
      ApplyCommutes(items, Swap(p, i, picks(i)), i - 1, picks);
    }
  }

  /** Applying the shuffle rearranges the items: none lost, none added. */
  lemma {:induction false} ApplyKeepsItems<T>(items: seq<T>, picks: Picks)
    requires Bounded(picks)
    ensures Within(Shuffled(|items|, picks), |items|)
    ensures multiset(ApplyShuffle(items, Shuffled(|items|, picks))) == multiset(items)
  {
    var n := |items|;
    ApplyCommutes(items, Identity(n), Last(n), picks);
    assert ApplyShuffle(items, Identity(n)) == items;
    ShuffleKeeps(items, Last(n), picks);
  }

  // ---------- Every order comes from exactly one vector of picks ----------

  ghost predicate SamePicks(i: nat, p: Picks, q: Picks)
  {
    forall k: nat :: 1 <= k <= i ==> p(k) == q(k)
  }

  lemma {:induction false} SamePicksSameOrder<T>(s: seq<T>, i: nat, p: Picks, q: Picks)
    requires Bounded(p) && Bounded(q) && (i < |s| || (i == 0 && s == []))
    requires SamePicks(i, p, q)
    ensures ShuffleFrom(s, i, p) == ShuffleFrom(s, i, q)
    decreases i
  {
    if i > 0 {
      SamePicksSameOrder(Swap(s, i, p(i)), i - 1, p, q);
    }
  }

  ghost predicate Distinct<T>(s: seq<T>)
  {
    forall j, k :: 0 <= j < k < |s| ==> s[j] != s[k]
  }

  /** The element that ends at position `i` tells which position was picked for it. */
  lemma {:induction false} LandsAt<T>(s: seq<T>, i: nat, picks: Picks)
    requires Bounded(picks) && 0 < i < |s|
    ensures ShuffleFrom(s, i, picks)[i] == s[picks(i)]
  {
    ShuffleKeeps(Swap(s, i, picks(i)), i - 1, picks);
  }

  lemma {:induction false} SameOrderSamePicks<T>(s: seq<T>, i: nat, p: Picks, q: Picks)
    requires Bounded(p) && Bounded(q) && Distinct(s) && (i < |s| || (i == 0 && s == []))
    requires ShuffleFrom(s, i, p) == ShuffleFrom(s, i, q)
    ensures SamePicks(i, p, q)
    decreases i
  {
    if i > 0 {
      LandsAt(s, i, p);
      LandsAt(s, i, q);
      assert p(i) == q(i);
      SameOrderSamePicks(Swap(s, i, p(i)), i - 1, p, q);
    }
  }

  /** Two vectors of picks give the same order exactly when they agree. */
  lemma {:induction false} OrderDeterminesPicks(n: nat, p: Picks, q: Picks)
    requires Bounded(p) && Bounded(q)
    ensures Shuffled(n, p) == Shuffled(n, q) <==> SamePicks(Last(n), p, q)
  {
    if Shuffled(n, p) == Shuffled(n, q) {
      SameOrderSamePicks(Identity(n), Last(n), p, q);
    }
    if SamePicks(Last(n), p, q) {
      SamePicksSameOrder(Identity(n), Last(n), p, q);
    }
  }

  /** After bringing `t[i]` into place, what is left to arrange below `i` still matches. */
  lemma {:induction false} PlaceOne<T>(s: seq<T>, t: seq<T>, i: nat) returns (j: nat)
    requires |s| == |t| && 0 < i < |s|
    requires multiset(s[..i + 1]) == multiset(t[..i + 1]) && s[i + 1..] == t[i + 1..]
    ensures j <= i
    ensures multiset(Swap(s, i, j)[..i]) == multiset(t[..i]) && Swap(s, i, j)[i..] == t[i..]
  {
    var front := s[..i + 1];
    assert t[..i + 1] == t[..i] + [t[i]];
    assert t[i] in multiset(front);
    j :| 0 <= j <= i && front[j] == t[i];
    SwapKeeps(front, i, j);
    var next := Swap(s, i, j);
    assert Swap(front, i, j) == next[..i] + [t[i]];
    CancelLast(next[..i], t[..i], t[i]);
    SwapTail(s, i, j);
    assert t[i..] == [t[i]] + t[i + 1..];
  }

  lemma {:induction false} SwapTail<T>(s: seq<T>, i: nat, j: nat)
    requires j <= i < |s|
    ensures Swap(s, i, j)[i..] == [s[j]] + s[i + 1..]
  {
  }

  lemma {:induction false} CancelLast<T>(a: seq<T>, b: seq<T>, x: T)
    requires multiset(a + [x]) == multiset(b + [x])
    ensures multiset(a) == multiset(b)
  {
    assert multiset(a + [x]) - multiset{x} == multiset(a);
    assert multiset(b + [x]) - multiset{x} == multiset(b);
  }

  lemma {:induction false} ReachFrom<T>(s: seq<T>, t: seq<T>, i: nat) returns (picks: Picks)
    requires |s| == |t| && i < |s|
    requires multiset(s[..i + 1]) == multiset(t[..i + 1]) && s[i + 1..] == t[i + 1..]
    ensures Bounded(picks) && ShuffleFrom(s, i, picks) == t
    decreases i
  {
    if i == 0 {
      picks := (k: nat) => 0;
      OnlyHeadDiffers(s, t);
    } else {
      var j := PlaceOne(s, t, i);
      picks := ReachFrom(Swap(s, i, j), t, i - 1);
      picks := PickFirst(s, i, j, picks);
    }
  }

  lemma {:induction false} PickFirst<T>(s: seq<T>, i: nat, j: nat, below: Picks) returns (picks: Picks)
    requires Bounded(below) && 0 < i < |s| && j <= i
    ensures Bounded(picks) && ShuffleFrom(s, i, picks) == ShuffleFrom(Swap(s, i, j), i - 1, below)
  {
    picks := (k: nat) => if k == i then j else below(k);
    SamePicksSameOrder(Swap(s, i, j), i - 1, picks, below);
  }

  lemma {:induction false} OnlyHeadDiffers<T>(s: seq<T>, t: seq<T>)
    requires |s| == |t| && s != [] && multiset(s[..1]) == multiset(t[..1]) && s[1..] == t[1..]
    ensures s == t
  {
    SingletonEqual(s[..1], t[..1]);
    assert s == s[..1] + s[1..] && t == t[..1] + t[1..];
  }

  lemma {:induction false} SingletonEqual<T>(s: seq<T>, t: seq<T>)
    requires |s| == 1 && |t| == 1 && multiset(s) == multiset(t)
    ensures s == t
  {
    assert s[0] in multiset(t);
  }

  /** Every rearrangement of the indices is the shuffle of some picks. */
  lemma {:induction false} EveryOrderReachable(p: seq<nat>) returns (picks: Picks)
    requires multiset(p) == multiset(Identity(|p|))
    ensures Bounded(picks) && Shuffled(|p|, picks) == p
  {
    var n := |p|;
    if n == 0 {
      picks := (k: nat) => 0;
    } else {
      assert p[..n] == p && Identity(n)[..n] == Identity(n);
      picks := ReachFrom(Identity(n), p, n - 1);
    }
  }
}
