/** Forming hard-finality certificates from attestations to a block and its state root. */
module HardFinality {
  import opened Prelude
  import opened Bytes
  import opened Certificates
  import opened Finality

  const FINALITY_TAG: seq<byte> := Ascii("hard_finality")

  datatype FinalityVote = FinalityVote(slot: u64, blockHash: Digest, stateRoot: Digest, voterIndex: nat,
                                       signature: seq<byte>)

  function FinalityMessage(chainId: u64, slot: u64, blockHash: Digest, stateRoot: Digest): (m: seq<byte>)
    ensures |m| == 93
  {
    FINALITY_TAG + Le(chainId, 8) + Le(slot, 8) + blockHash + stateRoot
  }

  /** One signed attestation stands for one chain, slot, block and state root. */
  lemma {:induction false} FinalityMessageInjective(c1: u64, s1: u64, h1: Digest, r1: Digest,
                                                    c2: u64, s2: u64, h2: Digest, r2: Digest)
    requires FinalityMessage(c1, s1, h1, r1) == FinalityMessage(c2, s2, h2, r2)
    ensures c1 == c2 && s1 == s2 && h1 == h2 && r1 == r2
  {
    MessagePieces(c1, s1, h1, r1);
    MessagePieces(c2, s2, h2, r2);
    Pow256Widths();
    LeInjective(c1, c2, 8);
    LeInjective(s1, s2, 8);
  }

  lemma {:induction false} MessagePieces(chainId: u64, slot: u64, blockHash: Digest, stateRoot: Digest)
    ensures var m := FinalityMessage(chainId, slot, blockHash, stateRoot);
            && m[13..21] == Le(chainId, 8) && m[21..29] == Le(slot, 8) && m[29..61] == blockHash && m[61..93] == stateRoot
  {
    var m, chain, at := FinalityMessage(chainId, slot, blockHash, stateRoot), Le(chainId, 8), Le(slot, 8);
    assert m == FINALITY_TAG + chain + (at + blockHash + stateRoot);
    Middle(FINALITY_TAG, chain, at + blockHash + stateRoot);
    assert m == FINALITY_TAG + chain + at + (blockHash + stateRoot);
    Middle(FINALITY_TAG + chain, at, blockHash + stateRoot);
    assert m == FINALITY_TAG + chain + at + blockHash + stateRoot;
    Middle(FINALITY_TAG + chain + at, blockHash, stateRoot);
    assert m == FINALITY_TAG + chain + at + blockHash + stateRoot + [];
    Middle(FINALITY_TAG + chain + at + blockHash, stateRoot, []);
  }

  /** A valid attestation to this slot, block and state root by the member it names. */
  predicate Attests(c: Committee, slot: u64, blockHash: Digest, stateRoot: Digest, v: FinalityVote)
  {
    && v.slot == slot && v.blockHash == blockHash && v.stateRoot == stateRoot && v.voterIndex < c.Size()
    && c.verify(c.keys[v.voterIndex], FinalityMessage(c.chainId, slot, blockHash, stateRoot), v.signature)
  }

  function Attesters(c: Committee, slot: u64, blockHash: Digest, stateRoot: Digest, votes: seq<FinalityVote>): set<nat>
  {
    set v | v in votes && Attests(c, slot, blockHash, stateRoot, v) :: v.voterIndex
  }

  /** The signature of each member's first valid attestation, in arrival order. */
  function FirstSignatures(c: Committee, slot: u64, blockHash: Digest, stateRoot: Digest, votes: seq<FinalityVote>)
    : seq<seq<byte>>
  {
    if votes == [] then []
    else
      var front, v := votes[..|votes| - 1], votes[|votes| - 1];
      var before := FirstSignatures(c, slot, blockHash, stateRoot, front);
      if Attests(c, slot, blockHash, stateRoot, v) && v.voterIndex !in Attesters(c, slot, blockHash, stateRoot, front)
      then before + [v.signature] else before
  }

  lemma {:induction false} AttestersNext(c: Committee, slot: u64, blockHash: Digest, stateRoot: Digest,
                                         votes: seq<FinalityVote>, k: nat)
    requires k < |votes|
    ensures votes[..k + 1][..k] == votes[..k] && votes[..k + 1][k] == votes[k]
    ensures Attesters(c, slot, blockHash, stateRoot, votes[..k + 1])
         == if Attests(c, slot, blockHash, stateRoot, votes[k])
            then Attesters(c, slot, blockHash, stateRoot, votes[..k]) + {votes[k].voterIndex}
            else Attesters(c, slot, blockHash, stateRoot, votes[..k])
  {
    assert votes[..k + 1] == votes[..k] + [votes[k]];
  }

  /**
   Forms a certificate exactly when a quorum of distinct members attested; it names
   them and carries one signature each, in the order their attestations arrived.
   */
  method TryFormHardFinality(c: Committee, slot: u64, blockHash: Digest, stateRoot: Digest, votes: seq<FinalityVote>)
    returns (r: Option<HardCert>)
    requires c.Size() <= 128
    ensures r.Some? <==> |Attesters(c, slot, blockHash, stateRoot, votes)| >= QuorumFor(c.Size())
    ensures r.Some? ==>
              && r.value.slot == slot && r.value.blockHash == blockHash && r.value.stateRoot == stateRoot
              && r.value.bitmap == Attesters(c, slot, blockHash, stateRoot, votes)
              && r.value.signatures == FirstSignatures(c, slot, blockHash, stateRoot, votes)
              && |r.value.signatures| == |r.value.bitmap|
  {
    var bitmap: Bitmap := {};
    var signatures := [];
    var validCount := 0;
    for k := 0 to |votes|
      invariant bitmap == Attesters(c, slot, blockHash, stateRoot, votes[..k])
      invariant signatures == FirstSignatures(c, slot, blockHash, stateRoot, votes[..k])
      invariant validCount == |bitmap| == |signatures|
    {
      var v := votes[k];
      AttestersNext(c, slot, blockHash, stateRoot, votes, k);
      if v.slot != slot || v.blockHash != blockHash || v.stateRoot != stateRoot {
        continue;
      }
      if v.voterIndex >= c.Size() || v.voterIndex in bitmap {
        continue;
      }
      if c.verify(c.keys[v.voterIndex], FinalityMessage(c.chainId, slot, blockHash, stateRoot), v.signature) {
        bitmap := bitmap + {v.voterIndex};
        signatures := signatures + [v.signature];
        validCount := validCount + 1;
      }
    }
    assert votes[..|votes|] == votes;
    r := if validCount >= QuorumFor(c.Size()) then Some(HardCert(slot, blockHash, stateRoot, bitmap, signatures)) else None;
  }

  // ---------- Agreement ----------

  /** Messages signed so far by each honest member. */
  type Signed = map<nat, set<seq<byte>>>

  /** What the members a certificate names have signed. */
  function Attestation(c: Committee, cert: HardCert): seq<byte>
  {
    FinalityMessage(c.chainId, cert.slot, cert.blockHash, cert.stateRoot)
  }

  /** A quorum of members attested, and the honest ones among them really signed. */
  ghost predicate Certifies(c: Committee, signed: Signed, cert: HardCert)
  {
    && cert.bitmap <= Range(c.Size()) && |cert.bitmap| >= QuorumFor(c.Size())
    && forall i :: i in cert.bitmap && i in signed ==>
                     Attestation(c, cert) in signed[i]
  }

  /** Each honest member attests to at most one block and state root per slot. */
  ghost predicate OnePerSlot(c: Committee, signed: Signed)
  {
    forall i, s: u64, h1, r1, h2, r2 ::
      i in signed && FinalityMessage(c.chainId, s, h1, r1) in signed[i] && FinalityMessage(c.chainId, s, h2, r2) in signed[i]
      ==> h1 == h2 && r1 == r2
  }

  /**
   With fewer than a third faulty, two hard certificates of one slot share an honest member
   who attested to both; if they differ, that member attested twice.
   */
  lemma {:induction false} SharedAttester(c: Committee, signed: Signed, a: HardCert, b: HardCert) returns (i: nat)
    requires signed.Keys <= Range(c.Size()) && 3 * |Range(c.Size()) - signed.Keys| < c.Size()
    requires Certifies(c, signed, a) && Certifies(c, signed, b) && a.slot == b.slot
    ensures i in a.bitmap && i in b.bitmap && i in signed
    ensures Attestation(c, a) in signed[i] && Attestation(c, b) in signed[i]
    ensures a.blockHash != b.blockHash || a.stateRoot != b.stateRoot ==> Attestation(c, a) != Attestation(c, b)
  {
    var n := c.Size();
    i := QuorumsShareHonest(n, Range(n) - signed.Keys, a.bitmap, b.bitmap);
    if Attestation(c, a) == Attestation(c, b) {
      FinalityMessageInjective(c.chainId, a.slot, a.blockHash, a.stateRoot, c.chainId, b.slot, b.blockHash, b.stateRoot);
    }
  }

  /** So where honest members attest once per slot, two hard certificates of one slot are for one block and state root. */
  lemma {:induction false} HardCertsAgree(c: Committee, signed: Signed, a: HardCert, b: HardCert)
    requires signed.Keys <= Range(c.Size()) && 3 * |Range(c.Size()) - signed.Keys| < c.Size()
    requires OnePerSlot(c, signed) && Certifies(c, signed, a) && Certifies(c, signed, b) && a.slot == b.slot
    ensures a.blockHash == b.blockHash && a.stateRoot == b.stateRoot
  {
    var i := SharedAttester(c, signed, a, b);
  }
}
