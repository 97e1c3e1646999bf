/**
 What a run lets a committee certify, and why agreement is stated per view and for steady
 members: voting again in the same slot at a higher view is allowed, so with no faulty
 member at all any committee certifies two different blocks of one slot that are proposed
 to it at increasing views.
 */
module CrossView {
  import opened Prelude
  import opened Bytes
  import opened Certificates
  import opened Headers
  import opened Voting

  /** What member `i` signs a message with. */
  type Signer = (nat, seq<byte>) -> seq<byte>

  function VoteMessage(c: Committee, h: Hasher, hd: Header): seq<byte>
  {
    SignMessage(c.chainId, hd.slot, BlockHash(h, hd))
  }

  /** Every member's signature on the header verifies. */
  ghost predicate AllSign(c: Committee, h: Hasher, sign: Signer, hd: Header)
  {
    forall i: nat :: i < c.Size() ==> c.verify(c.keys[i], VoteMessage(c, h, hd), sign(i, VoteMessage(c, h, hd)))
  }

  /** The members' signatures on the header, for the members of `s` below `b` in ascending order. */
  function SignaturesBelow(c: Committee, h: Hasher, sign: Signer, hd: Header, s: set<nat>, b: nat): seq<seq<byte>>
  {
    if b == 0 then []
    else
      var below := SignaturesBelow(c, h, sign, hd, s, b - 1);
      if b - 1 in s then below + [sign(b - 1, VoteMessage(c, h, hd))] else below
  }

  lemma {:induction false} SignatureAtRank(c: Committee, h: Hasher, sign: Signer, hd: Header, s: set<nat>, b: nat, i: nat)
    ensures |SignaturesBelow(c, h, sign, hd, s, b)| == Rank(s, b)
    ensures i in s && i < b ==>
              Rank(s, i) < Rank(s, b) && SignaturesBelow(c, h, sign, hd, s, b)[Rank(s, i)] == sign(i, VoteMessage(c, h, hd))
  {
    if b == 0 {
      assert Below(s, 0) == {};
    } else {
      SignatureAtRank(c, h, sign, hd, s, b - 1, i);
      RankStep(s, b - 1);
    }
  }

  /** The certificate with the signatures of the members in `s`. */
  function CertOf(c: Committee, h: Hasher, sign: Signer, hd: Header, s: Bitmap): QuorumCert
  {
    QuorumCert(hd.slot, BlockHash(h, hd), s, SignaturesBelow(c, h, sign, hd, s, 128))
  }

  lemma {:induction false} WholeRank(s: Bitmap)
    ensures Rank(s, 128) == |s|
  {
    assert Below(s, 128) == s;
  }

  lemma {:induction false} CertOfBacked(c: Committee, h: Hasher, sign: Signer, hd: Header, s: Bitmap)
    requires c.Size() > 0 && AllSign(c, h, sign, hd)
    requires s <= Range(c.Size()) && |s| >= QuorumFor(c.Size())
    ensures Backed(c, CertOf(c, h, sign, hd, s))
  {
    WholeRank(s);
    SignatureAtRank(c, h, sign, hd, s, 128, 0);
    var qc := CertOf(c, h, sign, hd, s);
    forall i | i in s
      ensures i < c.Size() && Rank(s, i) < |qc.signatures|
      ensures SignedBy(c, i, qc.slot, qc.blockHash, qc.signatures[Rank(s, i)])
    {
      SignatureAtRank(c, h, sign, hd, s, 128, i);
    }
  }

  // ---------- What can be certified ----------

  /** The members whose signature on the header may exist: the faulty ones and the honest ones that signed it. */
  ghost function Backers(c: Committee, h: Hasher, sys: System, hd: Header): set<nat>
  {
    set i | i in Range(c.Size()) && (i in sys ==> VoteMessage(c, h, hd) in sys[i].issued)
  }

  ghost predicate Certifies(c: Committee, h: Hasher, sys: System, hd: Header, qc: QuorumCert)
  {
    Backed(c, qc) && Unforged(c, sys, qc) && qc.slot == hd.slot && qc.blockHash == BlockHash(h, hd)
  }

  ghost predicate Certifiable(c: Committee, h: Hasher, sys: System, hd: Header)
  {
    exists qc :: Certifies(c, h, sys, hd, qc)
  }

  /** A block can be certified exactly when the members that are faulty or signed it make up a quorum. */
  lemma {:induction false} CertifiableIff(c: Committee, h: Hasher, sign: Signer, sys: System, hd: Header)
    requires 0 < c.Size() <= 128 && AllSign(c, h, sign, hd)
    ensures Certifiable(c, h, sys, hd) <==> |Backers(c, h, sys, hd)| >= QuorumFor(c.Size())
  {
    var s := Backers(c, h, sys, hd);
    if |s| >= QuorumFor(c.Size()) {
      CertOfBacked(c, h, sign, hd, s);
      assert Certifies(c, h, sys, hd, CertOf(c, h, sign, hd, s));
    }
    if Certifiable(c, h, sys, hd) {
      var qc :| Certifies(c, h, sys, hd, qc);
      forall i | i in qc.bitmap
        ensures i in s
      {
      }
      SubsetSize(qc.bitmap, s);
    }
  }

  // ---------- Two views ----------

  /** Member `i` receives the proposal and signs it. */
  function Receives(c: Committee, h: Hasher, sign: Signer, hd: Header, i: nat): Action
  {
    OnProposal(i, hd, Some(sign(i, VoteMessage(c, h, hd))))
  }

  /** The first `k` members receive the proposal and sign it. */
  function Everyone(c: Committee, h: Hasher, sign: Signer, hd: Header, k: nat): seq<Action>
  {
    if k == 0 then [] else Everyone(c, h, sign, hd, k - 1) + [Receives(c, h, sign, hd, k - 1)]
  }

  lemma {:induction false} OneMoreReceives(c: Committee, h: Hasher, sign: Signer, hd: Header, acts: seq<Action>, k: nat,
                                           honest: set<nat>, i: nat)
    requires i in honest && k > 0
    ensures var m := Run(c, h, honest, acts + Everyone(c, h, sign, hd, k - 1))[i];
            var a := Receives(c, h, sign, hd, k - 1);
            Run(c, h, honest, acts + Everyone(c, h, sign, hd, k))[i] == if k - 1 == i then MemberStep(c, h, m, a) else m
  {
    var before, last := acts + Everyone(c, h, sign, hd, k - 1), Receives(c, h, sign, hd, k - 1);
    assert acts + Everyone(c, h, sign, hd, k) == before + [last];
    RunNext(c, h, honest, before, last, i);
  }

  lemma {:induction false} NotYetReceived(c: Committee, h: Hasher, sign: Signer, hd: Header, acts: seq<Action>, k: nat,
                                          honest: set<nat>, i: nat)
    requires i in honest && k <= i
    ensures Run(c, h, honest, acts + Everyone(c, h, sign, hd, k))[i] == Run(c, h, honest, acts)[i]
  {
    if k == 0 {
      assert acts + [] == acts;
    } else {
      NotYetReceived(c, h, sign, hd, acts, k - 1, honest, i);
      OneMoreReceives(c, h, sign, hd, acts, k, honest, i);
    }
  }

  lemma {:induction false} EveryoneRuns(c: Committee, h: Hasher, sign: Signer, hd: Header, acts: seq<Action>, k: nat,
                                        honest: set<nat>, i: nat)
    requires i in honest && i < k
    ensures Run(c, h, honest, acts + Everyone(c, h, sign, hd, k))[i]
         == MemberStep(c, h, Run(c, h, honest, acts)[i], Receives(c, h, sign, hd, i))
  {
    OneMoreReceives(c, h, sign, hd, acts, k, honest, i);
    if i == k - 1 {
      NotYetReceived(c, h, sign, hd, acts, k - 1, honest, i);
    } else {
      EveryoneRuns(c, h, sign, hd, acts, k - 1, honest, i);
    }
  }

  lemma {:induction false} Votes(c: Committee, h: Hasher, m: Member, i: nat, hd: Header, signature: seq<byte>)
    requires Eligible(m.voter, hd) && IsSentinel(hd.qcPrevious) && hd.qcPrevious.slot == m.voter.highestQc.slot
    ensures var m' := MemberStep(c, h, m, OnProposal(i, hd, Some(signature)));
            && m'.issued == m.issued + {VoteMessage(c, h, hd)} && m'.cast == m.cast + [hd] && m'.proposed == m.proposed
            && m'.voter == m.voter.(lastVotedSlot := hd.slot, lastVotedView := ProposalView(hd))
  {
  }

  /** Two proposals of one slot, each on the empty certificate of slot zero, the second at a higher view. */
  ghost predicate Successive(a: Header, b: Header)
  {
    && IsSentinel(a.qcPrevious) && IsSentinel(b.qcPrevious) && a.qcPrevious.slot == 0 == b.qcPrevious.slot
    && 0 < a.slot == b.slot && ProposalView(a) < ProposalView(b)
  }

  lemma {:induction false} BothIssued(c: Committee, h: Hasher, sign: Signer, a: Header, b: Header, i: nat)
    requires Successive(a, b) && i < c.Size()
    ensures var n := c.Size();
            var m := Run(c, h, Range(n), [] + Everyone(c, h, sign, a, n) + Everyone(c, h, sign, b, n))[i];
            VoteMessage(c, h, a) in m.issued && VoteMessage(c, h, b) in m.issued
  {
    var n := c.Size();
    var start := Start(Range(n))[i];
    var sa, sb := sign(i, VoteMessage(c, h, a)), sign(i, VoteMessage(c, h, b));
    EveryoneRuns(c, h, sign, a, [], n, Range(n), i);
    Votes(c, h, start, i, a, sa);
    EveryoneRuns(c, h, sign, b, [] + Everyone(c, h, sign, a, n), n, Range(n), i);
    Votes(c, h, MemberStep(c, h, start, Receives(c, h, sign, a, i)), i, b, sb);
  }

  /**
   Agreement does not extend across views. In any committee all of whose members are honest,
   a run exists after which two genuine certificates back different blocks of one slot.
   */
  lemma {:induction false} ViewsMayDisagree(c: Committee, h: Hasher, sign: Signer, a: Header, b: Header)
    returns (acts: seq<Action>)
    requires 0 < c.Size() <= 128 && Successive(a, b) && AllSign(c, h, sign, a) && AllSign(c, h, sign, b)
    requires InjectiveOn(h, HashInputs(h, a) + HashInputs(h, b))
    ensures var sys := Run(c, h, Range(c.Size()), acts);
            Certifiable(c, h, sys, a) && Certifiable(c, h, sys, b) && BlockHash(h, a) != BlockHash(h, b)
  {
    var n := c.Size();
    acts := [] + Everyone(c, h, sign, a, n) + Everyone(c, h, sign, b, n);
    var sys := Run(c, h, Range(n), acts);
    forall i | i in Range(n)
      ensures VoteMessage(c, h, a) in sys[i].issued && VoteMessage(c, h, b) in sys[i].issued
    {
      BothIssued(c, h, sign, a, b, i);
    }
    SignedByAll(c, h, sign, sys, a);
    SignedByAll(c, h, sign, sys, b);
    if BlockHash(h, a) == BlockHash(h, b) {
      BlockHashFixesView(h, a, b);
    }
  }

  /** What every member signed can be certified. */
  lemma {:induction false} SignedByAll(c: Committee, h: Hasher, sign: Signer, sys: System, hd: Header)
    requires 0 < c.Size() <= 128 && AllSign(c, h, sign, hd)
    requires forall i :: i in Range(c.Size()) && i in sys ==> VoteMessage(c, h, hd) in sys[i].issued
    ensures Certifiable(c, h, sys, hd)
  {
    assert Backers(c, h, sys, hd) == Range(c.Size());
    RangeSize(c.Size());
    CertifiableIff(c, h, sign, sys, hd);
  }

  // ---------- Voting and proposing at one view ----------

  /**
   The proposer's signature has the layout of a vote, so a committee of one that votes for
   one header and proposes another of the same slot and view certifies both.
   */
  lemma {:induction false} UnsteadyMayDisagree(c: Committee, h: Hasher, sign: Signer, a: Header, b: Header)
    returns (acts: seq<Action>)
    requires c.Size() == 1 && AllSign(c, h, sign, a) && AllSign(c, h, sign, b)
    requires IsSentinel(a.qcPrevious) && a.qcPrevious.slot == 0 < a.slot == b.slot
    requires ProposalView(a) == ProposalView(b) && BlockHash(h, a) != BlockHash(h, b)
    ensures var sys := Run(c, h, {0}, acts);
            Certifiable(c, h, sys, a) && Certifiable(c, h, sys, b) && !Steady(h, sys[0])
  {
    var vote, propose := Receives(c, h, sign, a, 0), Proposes(0, b);
    acts := [] + [vote] + [propose];
    var start := Start({0})[0];
    RunNext(c, h, {0}, [], vote, 0);
    Votes(c, h, start, 0, a, sign(0, VoteMessage(c, h, a)));
    RunNext(c, h, {0}, [] + [vote], propose, 0);
    var sys := Run(c, h, {0}, acts);
    SignedByAll(c, h, sign, sys, a);
    SignedByAll(c, h, sign, sys, b);
    assert sys[0].cast == [] + [a] && sys[0].proposed == [] + [b];
    assert Signed(sys[0])[0] == a && Signed(sys[0])[1] == b;
  }
}
