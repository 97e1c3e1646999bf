/**
 Epoch randomness: combining the members' VRF shares so that every node that has the
 canonical members' shares gets the same value.
 */
module EpochRandomness {
  import opened Prelude
  import opened Sorting
  import opened Certificates

  type Index = i: nat | i < 256

  /** A member's verified share; `output` is the 32-byte VRF output read as a big-endian number. */
  datatype Share = Share(index: Index, output: nat)

  /** `poseidon2_many` on the sorted outputs. */
  type Mixer = seq<nat> -> nat

  datatype Randomness = Randomness(epoch: u64, value: nat, shareCount: nat)

  function Id(x: nat): int { x }

  function Members(shares: seq<Share>): set<nat>
  {
    set s | s in shares :: s.index
  }

  /** The output of the first share with the given index; later ones for the same index are ignored. */
  function FirstOutput(shares: seq<Share>, i: nat): nat
    requires i in Members(shares)
  {
    if shares[0].index == i then shares[0].output
    else
      assert shares == [shares[0]] + shares[1..];
      FirstOutput(shares[1..], i)
  }

  /** The `t` smallest of `keys`. */
  function Lowest(keys: set<nat>, t: nat): (r: set<nat>)
    ensures r <= keys
  {
    set i | i in keys && Rank(keys, i) < t
  }

  /** The outputs of the members in `keys`, lowest index first. */
  function Outputs(keys: set<nat>, output: map<nat, nat>, hi: nat): (r: seq<nat>)
    requires keys <= output.Keys
  {
    if hi == 0 then []
    else
      var front := Outputs(keys, output, hi - 1);
      if hi - 1 in keys then front + [output[hi - 1]] else front
  }

  function FirstOutputs(shares: seq<Share>): (m: map<nat, nat>)
    ensures m.Keys == Members(shares)
  {
    map i | i in Members(shares) :: FirstOutput(shares, i)
  }

  /** What a set of shares amounts to. */
  function Combined(shares: seq<Share>, epoch: u64, t: nat, mix: Mixer): Option<Randomness>
  {
    if |Members(shares)| < t then None
    else
      var outputs := Outputs(Lowest(Members(shares), t), FirstOutputs(shares), 256);
      Some(Randomness(epoch, mix(SortBy(outputs, Id)), |outputs|))
  }

  // ---------- Combining ----------

  lemma {:induction false} FirstOutputNext(shares: seq<Share>, s: Share)
    ensures Members(shares + [s]) == Members(shares) + {s.index}
    ensures FirstOutputs(shares + [s]) ==
            if s.index in Members(shares) then FirstOutputs(shares) else FirstOutputs(shares)[s.index := s.output]
  {
    var more := shares + [s];
    forall i: nat
      ensures i in Members(more) <==> i in Members(shares) + {s.index}
    {
      if i in Members(shares) {
        var x :| x in shares && x.index == i;
        assert x in more;
      }
      assert more[|shares|] == s;
    }
    forall i | i in Members(more)
      ensures FirstOutput(more, i) == if i in Members(shares) then FirstOutput(shares, i) else s.output
    {
      FirstOutputAppend(shares, s, i);
    }
  }

  lemma {:induction false} FirstOutputAppend(shares: seq<Share>, s: Share, i: nat)
    requires i in Members(shares + [s])
    ensures FirstOutput(shares + [s], i) == if i in Members(shares) then FirstOutput(shares, i) else s.output
  {
    var more := shares + [s];
    if shares == [] {
      assert more == [s];
    } else {
      assert more[1..] == shares[1..] + [s];
      assert more == [shares[0]] + more[1..] && shares == [shares[0]] + shares[1..];
      if shares[0].index != i {
        FirstOutputAppend(shares[1..], s, i);
      }
    }
  }

  method CombineShares(shares: seq<Share>, epoch: u64, threshold: nat, mix: Mixer) returns (r: Option<Randomness>)
    ensures r == Combined(shares, epoch, threshold, mix)
  {
    if |shares| < threshold {
      FewMembers(shares);
      return None;
    }
    var byIndex: map<nat, nat> := map[];
    for k := 0 to |shares|
      invariant byIndex == FirstOutputs(shares[..k])
    {
      assert shares[..k + 1] == shares[..k] + [shares[k]];
      FirstOutputNext(shares[..k], shares[k]);
      if shares[k].index !in byIndex {
        byIndex := byIndex[shares[k].index := shares[k].output];
      }
    }
    assert shares[..|shares|] == shares;
    ghost var keys := Members(shares);
    if |byIndex.Keys| < threshold {
      return None;
    }
    // The map iterates in ascending key order.
    var outputs := [];
    assert Below(keys, 0) == {};
    ghost var seen := 0;
    for i := 0 to 256
      invariant seen == Rank(keys, i)
      invariant |outputs| == if seen < threshold then seen else threshold
      invariant outputs == Outputs(Lowest(keys, threshold), byIndex, i)
    {
      RankStep(keys, i);
      if i in byIndex {
        if |outputs| < threshold {
          outputs := outputs + [byIndex[i]];
        }
        seen := seen + 1;
      }
    }
    r := Some(Randomness(epoch, mix(SortBy(outputs, Id)), |outputs|));
  }

  lemma {:induction false} FewMembers(shares: seq<Share>)
    ensures |Members(shares)| <= |shares|
  {
    if shares != [] {
      var m := |shares| - 1;
      FewMembers(shares[..m]);
      assert shares == shares[..m] + [shares[m]];
      FirstOutputNext(shares[..m], shares[m]);
    }
  }

  // ---------- The result is canonical ----------

  /** One output per index: what verification of VRF proofs guarantees. */
  ghost predicate Consistent(shares: seq<Share>)
  {
    forall s, t :: s in shares && t in shares && s.index == t.index ==> s.output == t.output
  }

  lemma {:induction false} FirstOutputIsShare(shares: seq<Share>, i: nat)
    requires i in Members(shares)
    ensures exists s :: s in shares && s.index == i && s.output == FirstOutput(shares, i)
  {
    if shares[0].index == i {
      assert shares[0] in shares;
    } else {
      assert shares == [shares[0]] + shares[1..];
      FirstOutputIsShare(shares[1..], i);
    }
  }

  lemma {:induction false} AgreeOnMember(a: seq<Share>, b: seq<Share>, i: nat)
    requires Consistent(a + b) && i in Members(a) && i in Members(b)
    ensures FirstOutput(a, i) == FirstOutput(b, i)
  {
    FirstOutputIsShare(a, i);
    FirstOutputIsShare(b, i);
    var s :| s in a && s.index == i && s.output == FirstOutput(a, i);
    var t :| t in b && t.index == i && t.output == FirstOutput(b, i);
    assert s in a + b && t in a + b;
  }

  lemma {:induction false} OutputsAgree(keys: set<nat>, f: map<nat, nat>, g: map<nat, nat>, hi: nat)
    requires keys <= f.Keys && keys <= g.Keys && forall i :: i in keys ==> f[i] == g[i]
    ensures Outputs(keys, f, hi) == Outputs(keys, g, hi)
  {
    if hi > 0 {
      OutputsAgree(keys, f, g, hi - 1);
    }
  }

  /** Two nodes whose lowest-index members coincide compute the same randomness, whatever else they received. */
  lemma {:induction false} SameLowestSameResult(a: seq<Share>, b: seq<Share>, epoch: u64, t: nat, mix: Mixer)
    requires Consistent(a + b)
    requires |Members(a)| >= t && |Members(b)| >= t && Lowest(Members(a), t) == Lowest(Members(b), t)
    ensures Combined(a, epoch, t, mix) == Combined(b, epoch, t, mix)
  {
    var keys := Lowest(Members(a), t);
    forall i | i in keys
      ensures FirstOutputs(a)[i] == FirstOutputs(b)[i]
    {
      AgreeOnMember(a, b, i);
    }
    OutputsAgree(keys, FirstOutputs(a), FirstOutputs(b), 256);
  }

  /** Arrival order and repetition do not matter. */
  lemma {:induction false} ArrivalOrderIrrelevant(a: seq<Share>, b: seq<Share>, epoch: u64, t: nat, mix: Mixer)
    requires Consistent(a) && forall s :: s in a <==> s in b
    ensures Combined(a, epoch, t, mix) == Combined(b, epoch, t, mix)
  {
    assert Members(a) == Members(b);
    assert forall s :: s in a + b <==> s in a;
    if |Members(a)| >= t {
      SameLowestSameResult(a, b, epoch, t, mix);
    }
  }

  lemma {:induction false} RankWith(keys: set<nat>, i: nat, j: nat)
    requires i !in keys
    ensures Rank(keys + {i}, j) == Rank(keys, j) + (if i < j then 1 else 0)
  {
    assert Below(keys + {i}, j) == if i < j then Below(keys, j) + {i} else Below(keys, j);
  }

  /** If fewer than `t` keys are below `i`, then `i` is not above all of the `t` lowest. */
  lemma {:induction false} LowestAbove(keys: set<nat>, t: nat, i: nat)
    requires |keys| >= t
    ensures Rank(keys, i) < t ==> exists j :: j in Lowest(keys, t) && j >= i
  {
    if Rank(keys, i) < t {
      var k := NextKey(keys, i);
      assert k in Lowest(keys, t);
    }
  }

  /** If not all keys are below `i`, the next one has the same rank as `i`. */
  lemma {:induction false} NextKey(keys: set<nat>, i: nat) returns (k: nat)
    requires Rank(keys, i) < |keys|
    ensures k in keys && k >= i && Rank(keys, k) == Rank(keys, i)
  {
    var above := keys - Below(keys, i);
    assert keys == Below(keys, i) + above;
    assert above != {};
    k := Least(above);
    assert Below(keys, k) == Below(keys, i);
  }

  lemma {:induction false} Least(s: set<nat>) returns (k: nat)
    requires s != {}
    ensures k in s && forall j :: j in s ==> k <= j
    decreases |s|
  {
    var some :| some in s;
    var smaller := Below(s, some);
    k := some;
    if smaller != {} {
      SubsetSize(smaller + {some}, s);
      k := Least(smaller);
    }
    forall j | j in s
      ensures k <= j
    {
      assert j < some ==> j in smaller;
    }
  }

  /** A late share leaves the canonical members alone exactly when it repeats a member or lies above all of them. */
  lemma {:induction false} LateShareIff(keys: set<nat>, t: nat, i: nat)
    requires |keys| >= t
    ensures Lowest(keys + {i}, t) == Lowest(keys, t) <==> i in keys || forall j :: j in Lowest(keys, t) ==> j < i
  {
    if i in keys {
      assert keys + {i} == keys;
    } else {
      forall j: nat
        ensures Rank(keys + {i}, j) == Rank(keys, j) + (if i < j then 1 else 0)
      {
        RankWith(keys, i, j);
      }
      if forall j :: j in Lowest(keys, t) ==> j < i {
        LowestAbove(keys, t, i);
        LateAbove(keys, t, i);
      } else {
        var j :| j in Lowest(keys, t) && !(j < i);
        SubsetSize(Below(keys, i), Below(keys, j));
        assert Rank(keys + {i}, i) < t;
        assert i in Lowest(keys + {i}, t);
      }
    }
  }

  lemma {:induction false} LateAbove(keys: set<nat>, t: nat, i: nat)
    requires i !in keys && Rank(keys, i) >= t
    requires forall j: nat :: Rank(keys + {i}, j) == Rank(keys, j) + (if i < j then 1 else 0)
    ensures Lowest(keys + {i}, t) == Lowest(keys, t)
  {
    forall j: nat
      ensures j in Lowest(keys + {i}, t) <==> j in Lowest(keys, t)
    {
      if i < j {
        SubsetSize(Below(keys, i), Below(keys, j));
      }
    }
  }

  /** Shares of higher-index members that arrive late never change the result. */
  lemma {:induction false} LateHigherShareIgnored(shares: seq<Share>, late: Share, epoch: u64, t: nat, mix: Mixer)
    requires |Members(shares)| >= t && Consistent(shares + [late])
    requires forall j :: j in Lowest(Members(shares), t) ==> j < late.index
    ensures Combined(shares + [late], epoch, t, mix) == Combined(shares, epoch, t, mix)
  {
    FirstOutputNext(shares, late);
    LateShareIff(Members(shares), t, late.index);
    SubsetSize(Members(shares), Members(shares + [late]));
    var both := shares + (shares + [late]);
    assert forall s :: s in both <==> s in shares + [late];
    SameLowestSameResult(shares, shares + [late], epoch, t, mix);
  }

  // ---------- The collector ----------

  ghost predicate OnePerMember(shares: seq<Share>)
  {
    forall i, j :: 0 <= i < j < |shares| ==> shares[i].index != shares[j].index
  }

  lemma {:induction false} OnePerMemberSize(shares: seq<Share>)
    requires OnePerMember(shares)
    ensures |Members(shares)| == |shares|
  {
    if shares != [] {
      var m := |shares| - 1;
      OnePerMemberSize(shares[..m]);
      assert shares == shares[..m] + [shares[m]];
      FirstOutputNext(shares[..m], shares[m]);
    }
  }

  class RandomnessCollector {
    const epoch: u64
    const committeeSize: nat
    var shares: seq<Share>
    var seen: set<nat>

    ghost predicate Valid()
      reads this
    {
      OnePerMember(shares) && seen == Members(shares)
    }

    constructor (epoch: u64, committeeSize: nat)
      ensures Valid() && shares == [] && this.epoch == epoch && this.committeeSize == committeeSize
    {
      this.epoch, this.committeeSize, shares, seen := epoch, committeeSize, [], {};
    }

    /** Keeps the first share of each member. */
    method AddShare(share: Share) returns (added: bool)
      requires Valid()
      modifies this
      ensures Valid()
      ensures added <==> share.index !in old(Members(shares))
      ensures shares == if added then old(shares) + [share] else old(shares)
    {
      if share.index in seen {
        return false;
      }
      FirstOutputNext(shares, share);
      seen := seen + {share.index};
      shares := shares + [share];
      added := true;
    }

    method IsComplete() returns (ok: bool)
      requires Valid()
      ensures forall mix: Mixer :: ok <==> Combined(shares, epoch, QuorumFor(committeeSize), mix).Some?
    {
      OnePerMemberSize(shares);
      ok := |shares| >= QuorumFor(committeeSize);
    }

    method Finalize(mix: Mixer) returns (r: Option<Randomness>)
      requires Valid()
      ensures r == Combined(shares, epoch, QuorumFor(committeeSize), mix)
      ensures r.Some? <==> |shares| >= QuorumFor(committeeSize)
    {
      OnePerMemberSize(shares);
      r := CombineShares(shares, epoch, QuorumFor(committeeSize), mix);
    }
  }

  /** The shares a collector holds after offering it `offered` in order. */
  function Collected(offered: seq<Share>): (shares: seq<Share>)
  {
    if offered == [] then []
    else
      var front, s := Collected(offered[..|offered| - 1]), offered[|offered| - 1];
      if s.index in Members(front) then front else front + [s]
  }

  /**
   In every run of a collector, completeness and the possibility to finalise are the
   same thing, and every member offered so far is represented by its first share.
   */
  lemma {:induction false} CompleteIffFinal(offered: seq<Share>, epoch: u64, committeeSize: nat, mix: Mixer)
    ensures OnePerMember(Collected(offered)) && FirstOutputs(Collected(offered)) == FirstOutputs(offered)
    ensures |Collected(offered)| >= QuorumFor(committeeSize) <==>
            Combined(Collected(offered), epoch, QuorumFor(committeeSize), mix).Some?
    ensures Combined(Collected(offered), epoch, QuorumFor(committeeSize), mix) ==
            Combined(offered, epoch, QuorumFor(committeeSize), mix)
  {
    CollectedOncePerMember(offered);
    OnePerMemberSize(Collected(offered));
    assert Members(Collected(offered)) == FirstOutputs(Collected(offered)).Keys;
  }

  lemma {:induction false} CollectedOncePerMember(offered: seq<Share>)
    ensures OnePerMember(Collected(offered)) && FirstOutputs(Collected(offered)) == FirstOutputs(offered)
  {
    if offered != [] {
      var front, s := offered[..|offered| - 1], offered[|offered| - 1];
      CollectedOncePerMember(front);
      assert Members(Collected(front)) == FirstOutputs(front).Keys == Members(front);
      assert offered == front + [s];
      FirstOutputNext(front, s);
      FirstOutputNext(Collected(front), s);
      if s.index !in Members(Collected(front)) {
        forall i | 0 <= i < |Collected(front)|
          ensures Collected(front)[i].index != s.index
        {
          assert Collected(front)[i] in Collected(front);
        }
      }
    }
  }
}
