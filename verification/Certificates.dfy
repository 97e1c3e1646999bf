/**
 Quorum arithmetic, vote signatures and quorum certificates: forming one from a
 pile of votes and checking one that arrived from somewhere else.
 */
module Certificates {
  import opened Prelude
  import opened Bytes
  import opened Sorting

  /** Positions in the 128-bit voter bitmap that are set. */
  type Bitmap = s: set<nat> | forall i :: i in s ==> i < 128

  datatype QuorumCert = QuorumCert(slot: u64, blockHash: Digest, bitmap: Bitmap, signatures: seq<seq<byte>>)

  datatype ConsensusMessage =
    | Vote(slot: u64, blockHash: Digest, voterIndex: nat, signature: seq<byte>)
    | NotAVote

  /**
   The public keys of the committee, the chain its signatures are bound to, and the
   signature check. `verify` is false on keys and signatures that do not parse.
   */
  datatype Committee = Committee(chainId: u64, keys: seq<seq<byte>>,
                                 verify: (seq<byte>, seq<byte>, seq<byte>) -> bool)
  {
    function Size(): nat { |keys| }
  }

  /** ceil(2n/3). */
  function QuorumFor(n: nat): (q: nat)
    ensures 3 * q >= 2 * n
    ensures q > 0 ==> 3 * (q - 1) < 2 * n
  {
    if n == 0 then 0 else (2 * n + 2) / 3
  }

  /** Two quorums of one committee have a member in common that is not faulty. */
  lemma {:induction false} QuorumsShareHonest(n: nat, faulty: set<nat>, a: set<nat>, b: set<nat>) returns (i: nat)
    requires a <= Range(n) && b <= Range(n)
    requires |a| >= QuorumFor(n) && |b| >= QuorumFor(n)
    requires 3 * |faulty| < n
    ensures i in a && i in b && i !in faulty
  {
    OverlapSize(a, b, Range(n));
    RangeSize(n);
    var shared := a * b - faulty;
    SubsetSize(a * b, shared + faulty);
    assert |shared| > 0;
    i :| i in shared;
  }

  /** The bytes proposers and voters sign: `chain_id_le || slot_le || block_hash`. */
  function SignMessage(chainId: u64, slot: u64, blockHash: Digest): (m: seq<byte>)
    ensures |m| == 48
  {
    Le(chainId, 8) + Le(slot, 8) + blockHash
  }

  /** One signed message stands for one slot and one block. */
  lemma {:induction false} SignMessageInjective(chainId: u64, s1: u64, h1: Digest, s2: u64, h2: Digest)
    requires SignMessage(chainId, s1, h1) == SignMessage(chainId, s2, h2)
    ensures s1 == s2 && h1 == h2
  {
    var m1, m2 := SignMessage(chainId, s1, h1), SignMessage(chainId, s2, h2);
    assert m1[8..16] == Le(s1, 8) && m2[8..16] == Le(s2, 8);
    assert m1[16..] == h1 && m2[16..] == h2;
    Pow256Widths();
    LeInjective(s1, s2, 8);
  }

  // ---------- Checking a certificate ----------

  function Below(bitmap: set<nat>, b: nat): set<nat>
  {
    set x | x in bitmap && x < b
  }

  /** How many set bits lie below position `b`. */
  function Rank(bitmap: set<nat>, b: nat): nat
  {
    |Below(bitmap, b)|
  }

  lemma {:induction false} RankStep(bitmap: set<nat>, b: nat)
    ensures Rank(bitmap, b + 1) == Rank(bitmap, b) + (if b in bitmap then 1 else 0)
  {
    var below := Below(bitmap, b);
    assert Below(bitmap, b + 1) == if b in bitmap then below + {b} else below;
  }

  lemma {:induction false} RankBelowSize(bitmap: set<nat>, b: nat)
    requires b in bitmap
    ensures Rank(bitmap, b) < |bitmap|
  {
    SubsetSize(Below(bitmap, b) + {b}, bitmap);
  }

  function SignedBy(c: Committee, i: nat, slot: u64, blockHash: Digest, signature: seq<byte>): bool
    requires i < c.Size()
  {
    c.verify(c.keys[i], SignMessage(c.chainId, slot, blockHash), signature)
  }

  /** The empty certificate that stands in for "no certificate yet", whatever its slot. */
  predicate IsSentinel(qc: QuorumCert)
  {
    qc.bitmap == {} && qc.signatures == []
  }

  /**
   A quorum of committee members signed the certified slot and block: the k-th
   signature is by the member at the k-th set bit.
   */
  ghost predicate Backed(c: Committee, qc: QuorumCert)
  {
    && c.Size() > 0
    && |qc.signatures| == |qc.bitmap|
    && |qc.bitmap| >= QuorumFor(c.Size())
    && (forall i :: i in qc.bitmap ==>
          i < c.Size() && Rank(qc.bitmap, i) < |qc.signatures| &&
          SignedBy(c, i, qc.slot, qc.blockHash, qc.signatures[Rank(qc.bitmap, i)]))
  }

  ghost predicate Acceptable(c: Committee, qc: QuorumCert)
  {
    IsSentinel(qc) || Backed(c, qc)
  }

  method VerifyQc(qc: QuorumCert, c: Committee) returns (ok: bool)
    ensures ok <==> Acceptable(c, qc)
  {
    if qc.bitmap == {} && qc.signatures == [] {
      return true;
    }
    var n := c.Size();
    if n == 0 {
      return false;
    }
    if |qc.bitmap| != |qc.signatures| || |qc.bitmap| < QuorumFor(n) {
      return false;
    }
    var preimage := SignMessage(c.chainId, qc.slot, qc.blockHash);
    var sigIdx := 0;
    assert Below(qc.bitmap, 0) == {};
    for bit := 0 to 128
      invariant sigIdx == Rank(qc.bitmap, bit)
      invariant forall i :: i in qc.bitmap && i < bit ==>
                  i < n && Rank(qc.bitmap, i) < |qc.signatures| &&
                  c.verify(c.keys[i], preimage, qc.signatures[Rank(qc.bitmap, i)])
    {
      RankStep(qc.bitmap, bit);
      if bit !in qc.bitmap {
        continue;
      }
      RankBelowSize(qc.bitmap, bit);
      if bit >= n {
        return false;
      }
      if !c.verify(c.keys[bit], preimage, qc.signatures[sigIdx]) {
        return false;
      }
      sigIdx := sigIdx + 1;
    }
    ok := true;
  }

  // ---------- Forming a certificate ----------

  /** A vote for this slot and block by the committee member it names. */
  predicate Counts(c: Committee, slot: u64, blockHash: Digest, v: ConsensusMessage)
  {
    && v.Vote?
    && v.slot == slot && v.blockHash == blockHash
    && v.voterIndex < c.Size()
    && SignedBy(c, v.voterIndex, slot, blockHash, v.signature)
  }

  function ValidVoters(c: Committee, slot: u64, blockHash: Digest, votes: seq<ConsensusMessage>): (r: set<nat>)
  {
    set v | v in votes && Counts(c, slot, blockHash, v) :: v.voterIndex
  }

  /** A counted signature: voter index and signature bytes. */
  type Entry = (nat, seq<byte>)

  function VoterOf(e: Entry): int { e.0 }

  ghost predicate Distinct(entries: seq<Entry>)
  {
    forall i, j :: 0 <= i < j < |entries| ==> entries[i].0 != entries[j].0
  }

  function Indices(entries: seq<Entry>): set<nat>
  {
    set e | e in entries :: e.0
  }

  lemma {:induction false} DistinctIndices(entries: seq<Entry>)
    requires Distinct(entries)
    ensures |Indices(entries)| == |entries|
  {
    if entries != [] {
      var m := |entries| - 1;
      DistinctIndices(entries[..m]);
      assert Indices(entries) == Indices(entries[..m]) + {entries[m].0};
    }
  }

  /** In index order, entry k is the one at the k-th set bit. */
  lemma {:induction false} SortedRank(sorted: seq<Entry>, k: nat)
    requires Distinct(sorted) && SortedBy(sorted, VoterOf)
    requires k < |sorted|
    ensures Rank(Indices(sorted), sorted[k].0) == k
  {
    var below := Below(Indices(sorted), sorted[k].0);
    assert below == Indices(sorted[..k]) by {
      forall x
        ensures x in below <==> x in Indices(sorted[..k])
      {
        if x in below {
          var e :| e in sorted && e.0 == x;
          var j :| 0 <= j < |sorted| && sorted[j] == e;
          assert j < k;
          assert e in sorted[..k];
        }
        if x in Indices(sorted[..k]) {
          var e :| e in sorted[..k] && e.0 == x;
          var j :| 0 <= j < k && sorted[j] == e;
          assert e in sorted;
        }
      }
    }
    DistinctIndices(sorted[..k]);
  }

  lemma {:induction false} SortKeepsDistinct(entries: seq<Entry>)
    requires Distinct(entries)
    ensures Distinct(SortBy(entries, VoterOf))
    ensures Indices(SortBy(entries, VoterOf)) == Indices(entries)
  {
    var sorted := SortBy(entries, VoterOf);
    SortBySameMembers(entries, VoterOf);
    assert Indices(sorted) == Indices(entries);
    DistinctIndices(entries);
    ManyIndices(sorted);
  }

  lemma {:induction false} ManyIndices(entries: seq<Entry>)
    requires |Indices(entries)| == |entries|
    ensures Distinct(entries)
  {
    forall i, j | 0 <= i < j < |entries|
      ensures entries[i].0 != entries[j].0
    {
      if entries[i].0 == entries[j].0 {
        var rest := entries[..j] + entries[j + 1..];
        assert Indices(entries) <= Indices(rest) by {
          forall x | x in Indices(entries)
            ensures x in Indices(rest)
          {
            var e :| e in entries && e.0 == x;
            var k :| 0 <= k < |entries| && entries[k] == e;
            var at := if k < j then k else if k == j then i else k - 1;
            assert rest[at] in rest && rest[at].0 == x;
          }
        }
        SubsetSize(Indices(entries), Indices(rest));
        FewIndices(rest);
        assert false;
      }
    }
  }

  lemma {:induction false} FewIndices(entries: seq<Entry>)
    ensures |Indices(entries)| <= |entries|
  {
    if entries != [] {
      var m := |entries| - 1;
      FewIndices(entries[..m]);
      assert Indices(entries) == Indices(entries[..m]) + {entries[m].0};
    }
  }

  /**
   Forms a certificate exactly when a quorum of distinct members cast a valid vote
   among `votes`, however many duplicates and bad votes surround them; the
   certificate names those members and every honest receiver accepts it.
   */
  method TryFormQc(c: Committee, slot: u64, blockHash: Digest, votes: seq<ConsensusMessage>)
    returns (r: Option<QuorumCert>)
    requires c.Size() <= 128
    ensures r.Some? <==> |ValidVoters(c, slot, blockHash, votes)| >= QuorumFor(c.Size())
    ensures r.Some? ==>
              && r.value.slot == slot && r.value.blockHash == blockHash
              && r.value.bitmap == ValidVoters(c, slot, blockHash, votes)
              && Acceptable(c, r.value)
              && (forall i :: i in r.value.bitmap ==>
                    Rank(r.value.bitmap, i) < |r.value.signatures| &&
                    Vote(slot, blockHash, i, r.value.signatures[Rank(r.value.bitmap, i)]) in votes)
  {
    var bitmap: Bitmap := {};
    var entries: seq<Entry> := [];
    var validCount := 0;
    for k := 0 to |votes|
      invariant bitmap == ValidVoters(c, slot, blockHash, votes[..k])
      invariant Distinct(entries) && Indices(entries) == bitmap && validCount == |entries|
      invariant forall e :: e in entries ==>
                  e.0 < c.Size() && SignedBy(c, e.0, slot, blockHash, e.1) &&
                  Vote(slot, blockHash, e.0, e.1) in votes
    {
      var v := votes[k];
      assert votes[..k + 1] == votes[..k] + [v];
      ghost var before := ValidVoters(c, slot, blockHash, votes[..k]);
      assert ValidVoters(c, slot, blockHash, votes[..k + 1]) ==
             if Counts(c, slot, blockHash, v) then before + {v.voterIndex} else before;
      if !v.Vote? || v.slot != slot || v.blockHash != blockHash {
        continue;
      }
      if v.voterIndex >= c.Size() || v.voterIndex in bitmap {
        continue;
      }
      if SignedBy(c, v.voterIndex, slot, blockHash, v.signature) {
        AppendEntry(entries, (v.voterIndex, v.signature));
        bitmap := bitmap + {v.voterIndex};
        entries := entries + [(v.voterIndex, v.signature)];
        validCount := validCount + 1;
      }
    }
    assert votes[..|votes|] == votes;
    DistinctIndices(entries);
    if validCount >= QuorumFor(c.Size()) {
      var sorted := SortBy(entries, VoterOf);
      SortBySameMembers(entries, VoterOf);
      var signatures := seq(|sorted|, i requires 0 <= i < |sorted| => sorted[i].1);
      r := Some(QuorumCert(slot, blockHash, bitmap, signatures));
      SortedEntriesBack(c, slot, blockHash, votes, entries, r.value);
    } else {
      r := None;
    }
  }

  lemma {:induction false} AppendEntry(entries: seq<Entry>, e: Entry)
    requires Distinct(entries) && e.0 !in Indices(entries)
    ensures Distinct(entries + [e]) && Indices(entries + [e]) == Indices(entries) + {e.0}
  {
    var r := entries + [e];
    forall x
      ensures x in Indices(r) <==> x in Indices(entries) + {e.0}
    {
      if x in Indices(entries) {
        var f :| f in entries && f.0 == x;
        assert f in r;
      }
      assert r[|entries|] in r;
    }
    forall i, j | 0 <= i < j < |r|
      ensures r[i].0 != r[j].0
    {
      assert r[i] == entries[i] && entries[i] in entries;
    }
  }

  lemma {:induction false} SortedEntriesBack(c: Committee, slot: u64, blockHash: Digest, votes: seq<ConsensusMessage>,
                                             entries: seq<Entry>, qc: QuorumCert)
    requires Distinct(entries) && qc.slot == slot && qc.blockHash == blockHash && qc.bitmap == Indices(entries)
    requires |entries| >= QuorumFor(c.Size())
    requires forall e :: e in entries ==>
               e.0 < c.Size() && SignedBy(c, e.0, slot, blockHash, e.1) && Vote(slot, blockHash, e.0, e.1) in votes
    requires |qc.signatures| == |entries|
    requires |SortBy(entries, VoterOf)| == |entries|
    requires forall i :: 0 <= i < |entries| ==> qc.signatures[i] == SortBy(entries, VoterOf)[i].1
    ensures Acceptable(c, qc)
    ensures forall i :: i in qc.bitmap ==>
              Rank(qc.bitmap, i) < |qc.signatures| &&
              Vote(slot, blockHash, i, qc.signatures[Rank(qc.bitmap, i)]) in votes
  {
    var sorted := SortBy(entries, VoterOf);
    SortBySorts(entries, VoterOf);
    SortBySameMembers(entries, VoterOf);
    SortKeepsDistinct(entries);
    DistinctIndices(entries);
    forall i | i in qc.bitmap
      ensures i < c.Size() && Rank(qc.bitmap, i) < |qc.signatures|
      ensures SignedBy(c, i, slot, blockHash, qc.signatures[Rank(qc.bitmap, i)])
      ensures Vote(slot, blockHash, i, qc.signatures[Rank(qc.bitmap, i)]) in votes
    {
      var e :| e in sorted && e.0 == i;
      var k :| 0 <= k < |sorted| && sorted[k] == e;
      SortedRank(sorted, k);
    }
    if c.Size() == 0 {
      assert qc.bitmap == {};
    }
  }
}
