/**
 One validator's voting rule and what it guarantees across a whole committee: in
 every run with fewer than a third of the members faulty or signing two headers of one
 slot and view, no two certificates back different blocks of one slot and one view.
 */
module Voting {
  import opened Prelude
  import opened Bytes
  import opened Certificates
  import opened Headers

  datatype VoteError = InvalidQcPrevious | SigningFailed

  type VoteReply = Result<Option<ConsensusMessage>, VoteError>

  /** The part of a validator's state that voting reads and writes. */
  datatype Voter = Voter(highestQc: QuorumCert, lastVotedSlot: u64, lastVotedView: u64)

  predicate Before(s1: nat, v1: nat, s2: nat, v2: nat)
  {
    s1 < s2 || (s1 == s2 && v1 < v2)
  }

  /** The voter has not voted at or past this proposal's slot and view, and its certificate is not stale. */
  predicate Eligible(st: Voter, hd: Header)
  {
    && Before(st.lastVotedSlot, st.lastVotedView, hd.slot, ProposalView(hd))
    && hd.qcPrevious.slot >= st.highestQc.slot
  }

  function Promoted(st: Voter, qc: QuorumCert): Voter
  {
    if qc.slot > st.highestQc.slot then st.(highestQc := qc) else st
  }

  /** The new state and the reply to a proposal; `sign` is the outcome of signing with the voter's key. */
  ghost function VoteStep(c: Committee, h: Hasher, sign: seq<byte> -> Option<seq<byte>>,
                          st: Voter, hd: Header, voterIndex: nat): (Voter, VoteReply)
  {
    if !Eligible(st, hd) then (st, Ok(None))
    else if !Acceptable(c, hd.qcPrevious) then (st, Err(InvalidQcPrevious))
    else
      var st' := Promoted(st, hd.qcPrevious);
      match sign(SignMessage(c.chainId, hd.slot, BlockHash(h, hd)))
      case None => (st', Err(SigningFailed))
      case Some(sig) =>
        (st'.(lastVotedSlot := hd.slot, lastVotedView := ProposalView(hd)),
         Ok(Some(Vote(hd.slot, BlockHash(h, hd), voterIndex, sig))))
  }

  class ConsensusState {
    var highestQc: QuorumCert
    var lastVotedSlot: u64
    var lastVotedView: u64

    ghost function Value(): Voter
      reads this
    {
      Voter(highestQc, lastVotedSlot, lastVotedView)
    }

    constructor ()
      ensures Value() == InitialVoter()
    {
      highestQc := InitialVoter().highestQc;
      lastVotedSlot, lastVotedView := 0, 0;
    }

    method CreateVote(c: Committee, h: Hasher, sign: seq<byte> -> Option<seq<byte>>, hd: Header, voterIndex: nat)
      returns (reply: VoteReply)
      modifies this
      ensures (Value(), reply) == VoteStep(c, h, sign, old(Value()), hd, voterIndex)
    {
      var view := ProposalView(hd);
      if hd.slot < lastVotedSlot || (hd.slot == lastVotedSlot && view <= lastVotedView) {
        return Ok(None);
      }
      if hd.qcPrevious.slot < highestQc.slot {
        return Ok(None);
      }
      var genuine := VerifyQc(hd.qcPrevious, c);
      if !genuine {
        return Err(InvalidQcPrevious);
      }
      if hd.qcPrevious.slot > highestQc.slot {
        highestQc := hd.qcPrevious;
      }
      var blockHash := BlockHash(h, hd);
      var sig := sign(SignMessage(c.chainId, hd.slot, blockHash));
      if sig.None? {
        return Err(SigningFailed);
      }
      lastVotedSlot := hd.slot;
      lastVotedView := view;
      reply := Ok(Some(Vote(hd.slot, blockHash, voterIndex, sig.value)));
    }
  }

  function InitialVoter(): Voter
  {
    Voter(QuorumCert(0, seq(32, i => 0), {}, []), 0, 0)
  }

  // ---------- Runs of a committee ----------

  /**
   An honest member: its voting state, the headers it voted for, the headers it proposed,
   and every message its key ever signed.
   */
  datatype Member = Member(voter: Voter, cast: seq<Header>, proposed: seq<Header>, issued: set<seq<byte>>)

  /** The honest members; anyone else in the committee may do anything. */
  type System = map<nat, Member>

  datatype Action =
    /** Member `i` receives a proposal, from whomever, and signing has the given outcome. */
    | OnProposal(i: nat, hd: Header, signature: Option<seq<byte>>)
    /** Member `i` is handed a certificate outside voting; not every handler checks it. */
    | OnCertificate(i: nat, qc: QuorumCert)
    /** Member `i` signs a header of its own as proposer, in the layout of a vote. */
    | Proposes(i: nat, hd: Header)
    /** Member `i` signs a timeout, view-change or finality message; none of them is 48 bytes long. */
    | SignsOther(i: nat, message: seq<byte>)

  ghost function MemberStep(c: Committee, h: Hasher, m: Member, a: Action): Member
  {
    match a
    case OnProposal(i, hd, signature) =>
      var (voter, reply) := VoteStep(c, h, message => signature, m.voter, hd, i);
      if reply.Ok? && reply.value.Some?
      then m.(voter := voter, cast := m.cast + [hd],
              issued := m.issued + {SignMessage(c.chainId, hd.slot, BlockHash(h, hd))})
      else m.(voter := voter)
    case OnCertificate(_, qc) => m.(voter := Promoted(m.voter, qc))
    case Proposes(_, hd) =>
      m.(proposed := m.proposed + [hd], issued := m.issued + {SignMessage(c.chainId, hd.slot, BlockHash(h, hd))})
    case SignsOther(_, message) =>
      if |message| != 48 then m.(issued := m.issued + {message}) else m
  }

  ghost function Start(honest: set<nat>): System
  {
    map i | i in honest :: Member(InitialVoter(), [], [], {})
  }

  ghost function Run(c: Committee, h: Hasher, honest: set<nat>, acts: seq<Action>): (sys: System)
    ensures sys.Keys == honest
  {
    if acts == [] then Start(honest)
    else
      var sys := Run(c, h, honest, acts[..|acts| - 1]);
      var a := acts[|acts| - 1];
      if a.i in sys then sys[a.i := MemberStep(c, h, sys[a.i], a)] else sys
  }

  lemma {:induction false} RunNext(c: Committee, h: Hasher, honest: set<nat>, acts: seq<Action>, a: Action, i: nat)
    requires i in honest
    ensures var m := Run(c, h, honest, acts)[i];
            Run(c, h, honest, acts + [a])[i] == if a.i == i then MemberStep(c, h, m, a) else m
  {
    assert (acts + [a])[..|acts|] == acts;
  }

  /** The headers a member voted for, in order, strictly increase in (slot, view) up to its last vote. */
  ghost predicate InOrder(m: Member)
  {
    && (forall j, k :: 0 <= j < k < |m.cast| ==>
          Before(m.cast[j].slot, ProposalView(m.cast[j]), m.cast[k].slot, ProposalView(m.cast[k])))
    && (forall j :: 0 <= j < |m.cast| ==>
          !Before(m.voter.lastVotedSlot, m.voter.lastVotedView, m.cast[j].slot, ProposalView(m.cast[j])))
  }

  /** The headers the member signed, as voter or as proposer. */
  function Signed(m: Member): seq<Header>
  {
    m.cast + m.proposed
  }

  ghost predicate FromSigned(c: Committee, h: Hasher, m: Member, s: seq<byte>)
  {
    exists hd :: hd in Signed(m) && s == SignMessage(c.chainId, hd.slot, BlockHash(h, hd))
  }

  /** Votes are in order, and signatures in the vote layout come from cast votes and own proposals only. */
  ghost predicate Disciplined(c: Committee, h: Hasher, m: Member)
  {
    && InOrder(m)
    && (forall s :: s in m.issued && |s| == 48 ==> FromSigned(c, h, m, s))
  }

  lemma {:induction false} CastKeepsOrder(m: Member, hd: Header, m': Member)
    requires InOrder(m)
    requires Before(m.voter.lastVotedSlot, m.voter.lastVotedView, hd.slot, ProposalView(hd))
    requires m'.cast == m.cast + [hd]
    requires m'.voter.lastVotedSlot == hd.slot && m'.voter.lastVotedView == ProposalView(hd)
    ensures InOrder(m')
  {
  }

  lemma {:induction false} SigningKeepsSource(c: Committee, h: Hasher, m: Member, hd: Header, m': Member)
    requires forall s :: s in m.issued && |s| == 48 ==> FromSigned(c, h, m, s)
    requires (forall x :: x in Signed(m) ==> x in Signed(m')) && hd in Signed(m')
    requires m'.issued == m.issued + {SignMessage(c.chainId, hd.slot, BlockHash(h, hd))}
    ensures forall s :: s in m'.issued && |s| == 48 ==> FromSigned(c, h, m', s)
  {
    forall s | s in m'.issued && |s| == 48
      ensures FromSigned(c, h, m', s)
    {
      if s in m.issued {
        assert FromSigned(c, h, m, s);
        var g :| g in Signed(m) && s == SignMessage(c.chainId, g.slot, BlockHash(h, g));
        assert g in Signed(m');
      }
    }
  }

  lemma {:induction false} CastKeepsDiscipline(c: Committee, h: Hasher, m: Member, hd: Header, m': Member)
    requires Disciplined(c, h, m)
    requires Before(m.voter.lastVotedSlot, m.voter.lastVotedView, hd.slot, ProposalView(hd))
    requires m'.cast == m.cast + [hd] && m'.proposed == m.proposed
    requires m'.voter.lastVotedSlot == hd.slot && m'.voter.lastVotedView == ProposalView(hd)
    requires m'.issued == m.issued + {SignMessage(c.chainId, hd.slot, BlockHash(h, hd))}
    ensures Disciplined(c, h, m')
  {
    CastKeepsOrder(m, hd, m');
    assert m'.cast[|m.cast|] == hd;
    SigningKeepsSource(c, h, m, hd, m');
  }

  lemma {:induction false} ProposingKeepsDiscipline(c: Committee, h: Hasher, m: Member, hd: Header, m': Member)
    requires Disciplined(c, h, m) && m'.voter == m.voter && m'.cast == m.cast && m'.proposed == m.proposed + [hd]
    requires m'.issued == m.issued + {SignMessage(c.chainId, hd.slot, BlockHash(h, hd))}
    ensures Disciplined(c, h, m')
  {
    assert m'.proposed[|m.proposed|] == hd;
    SigningKeepsSource(c, h, m, hd, m');
  }

  lemma {:induction false} SameSignedKeepsDiscipline(c: Committee, h: Hasher, m: Member, m': Member)
    requires Disciplined(c, h, m) && m'.cast == m.cast && m'.proposed == m.proposed
    requires m'.voter.lastVotedSlot == m.voter.lastVotedSlot && m'.voter.lastVotedView == m.voter.lastVotedView
    requires forall s :: s in m'.issued && |s| == 48 ==> s in m.issued
    ensures Disciplined(c, h, m')
  {
    assert Signed(m') == Signed(m);
    forall s | s in m'.issued && |s| == 48
      ensures FromSigned(c, h, m', s)
    {
      assert FromSigned(c, h, m, s);
    }
  }

  /** What a proposal does to a member: nothing to its votes, or one more, after all the others. */
  lemma {:induction false} ProposalStep(c: Committee, h: Hasher, m: Member, a: Action)
    requires a.OnProposal?
    ensures var m' := MemberStep(c, h, m, a);
            && m'.voter.highestQc.slot >= m.voter.highestQc.slot && m'.proposed == m.proposed
            && if m'.cast == m.cast
               then m'.issued == m.issued && m'.voter.lastVotedSlot == m.voter.lastVotedSlot
                    && m'.voter.lastVotedView == m.voter.lastVotedView
               else m'.cast == m.cast + [a.hd]
                    && m'.issued == m.issued + {SignMessage(c.chainId, a.hd.slot, BlockHash(h, a.hd))}
                    && Before(m.voter.lastVotedSlot, m.voter.lastVotedView, a.hd.slot, ProposalView(a.hd))
                    && m'.voter.lastVotedSlot == a.hd.slot && m'.voter.lastVotedView == ProposalView(a.hd)
  {
  }

  lemma {:induction false} StepKeepsDiscipline(c: Committee, h: Hasher, m: Member, a: Action)
    requires Disciplined(c, h, m)
    ensures Disciplined(c, h, MemberStep(c, h, m, a))
    ensures MemberStep(c, h, m, a).voter.highestQc.slot >= m.voter.highestQc.slot
  {
    var m' := MemberStep(c, h, m, a);
    match a
    case OnProposal(_, hd, _) =>
      ProposalStep(c, h, m, a);
      if m'.cast == m.cast {
        SameSignedKeepsDiscipline(c, h, m, m');
      } else {
        CastKeepsDiscipline(c, h, m, hd, m');
      }
    case OnCertificate(_, _) => SameSignedKeepsDiscipline(c, h, m, m');
    case Proposes(_, hd) => ProposingKeepsDiscipline(c, h, m, hd, m');
    case SignsOther(_, _) => SameSignedKeepsDiscipline(c, h, m, m');
  }

  lemma {:induction false} RunIsDisciplined(c: Committee, h: Hasher, honest: set<nat>, acts: seq<Action>, i: nat)
    requires i in honest
    ensures Disciplined(c, h, Run(c, h, honest, acts)[i])
  {
    if acts != [] {
      var before, a := acts[..|acts| - 1], acts[|acts| - 1];
      assert acts == before + [a];
      RunNext(c, h, honest, before, a, i);
      RunIsDisciplined(c, h, honest, before, i);
      StepKeepsDiscipline(c, h, Run(c, h, honest, before)[i], a);
    }
  }

  /** A member votes for at most one header per slot and view. */
  lemma {:induction false} OneVotePerView(c: Committee, h: Hasher, honest: set<nat>, acts: seq<Action>, i: nat,
                                          a: Header, b: Header)
    requires i in honest
    requires var m := Run(c, h, honest, acts)[i]; a in m.cast && b in m.cast
    requires a.slot == b.slot && ProposalView(a) == ProposalView(b)
    ensures a == b
  {
    RunIsDisciplined(c, h, honest, acts, i);
    var cast := Run(c, h, honest, acts)[i].cast;
    var j :| 0 <= j < |cast| && cast[j] == a;
    var k :| 0 <= k < |cast| && cast[k] == b;
    assert !(j < k) && !(k < j);
  }

  /** The certificate a member builds on never gets older. */
  lemma {:induction false} HighestQcNeverRegresses(c: Committee, h: Hasher, honest: set<nat>,
                                                   acts: seq<Action>, more: seq<Action>, i: nat)
    requires i in honest
    ensures Run(c, h, honest, acts)[i].voter.highestQc.slot <= Run(c, h, honest, acts + more)[i].voter.highestQc.slot
  {
    if more == [] {
      assert acts + more == acts;
    } else {
      var front, a := more[..|more| - 1], more[|more| - 1];
      HighestQcNeverRegresses(c, h, honest, acts, front, i);
      assert acts + more == (acts + front) + [a];
      RunNext(c, h, honest, acts + front, a, i);
      RunIsDisciplined(c, h, honest, acts + front, i);
      StepKeepsDiscipline(c, h, Run(c, h, honest, acts + front)[i], a);
    }
  }

  ghost function HighestAfter(c: Committee, h: Hasher, honest: set<nat>, acts: seq<Action>, i: nat): QuorumCert
    requires i in honest
  {
    Run(c, h, honest, acts)[i].voter.highestQc
  }

  /** Action `k` does not install an unchecked certificate as member `i`'s highest. */
  ghost predicate InstallsChecked(c: Committee, h: Hasher, honest: set<nat>, acts: seq<Action>, i: nat, k: nat)
    requires i in honest && k < |acts|
  {
    acts[k].OnCertificate? && acts[k].i == i && acts[k].qc.slot > HighestAfter(c, h, honest, acts[..k], i).slot ==>
      Acceptable(c, acts[k].qc)
  }

  lemma {:induction false} HighestNext(c: Committee, h: Hasher, honest: set<nat>, acts: seq<Action>, i: nat, k: nat)
    requires i in honest && k < |acts| && Acceptable(c, HighestAfter(c, h, honest, acts[..k], i))
    ensures Acceptable(c, HighestAfter(c, h, honest, acts[..k + 1], i)) <==> InstallsChecked(c, h, honest, acts, i, k)
  {
    assert acts[..k + 1] == acts[..k] + [acts[k]];
    RunNext(c, h, honest, acts[..k], acts[k], i);
  }

  lemma {:induction false} HighestUpTo(c: Committee, h: Hasher, honest: set<nat>, acts: seq<Action>, i: nat, n: nat)
    requires i in honest && n <= |acts|
    requires forall k: nat :: k < n ==> InstallsChecked(c, h, honest, acts, i, k)
    ensures Acceptable(c, HighestAfter(c, h, honest, acts[..n], i))
  {
    if n > 0 {
      HighestUpTo(c, h, honest, acts, i, n - 1);
      assert InstallsChecked(c, h, honest, acts, i, n - 1);
      HighestNext(c, h, honest, acts, i, n - 1);
    }
  }

  /**
   A member's highest certificate passes the certificate check throughout a run exactly when
   every newer certificate it was handed outside voting does: voting itself installs only
   checked ones.
   */
  lemma {:induction false} HighestQcCheckedIff(c: Committee, h: Hasher, honest: set<nat>, acts: seq<Action>, i: nat)
    requires i in honest
    ensures (forall n: nat :: n <= |acts| ==> Acceptable(c, HighestAfter(c, h, honest, acts[..n], i))) <==>
            (forall k: nat :: k < |acts| ==> InstallsChecked(c, h, honest, acts, i, k))
  {
    if forall k: nat :: k < |acts| ==> InstallsChecked(c, h, honest, acts, i, k) {
      forall n: nat | n <= |acts|
        ensures Acceptable(c, HighestAfter(c, h, honest, acts[..n], i))
      {
        HighestUpTo(c, h, honest, acts, i, n);
      }
    }
    if forall n: nat :: n <= |acts| ==> Acceptable(c, HighestAfter(c, h, honest, acts[..n], i)) {
      forall k: nat | k < |acts|
        ensures InstallsChecked(c, h, honest, acts, i, k)
      {
        assert Acceptable(c, HighestAfter(c, h, honest, acts[..k], i));
        assert Acceptable(c, HighestAfter(c, h, honest, acts[..k + 1], i));
        HighestNext(c, h, honest, acts, i, k);
      }
    }
  }

  /** A signature in `qc` that verifies under an honest member's key was made by that member. */
  ghost predicate Unforged(c: Committee, sys: System, qc: QuorumCert)
  {
    forall i :: i in qc.bitmap && i in sys && Backed(c, qc) ==>
      SignMessage(c.chainId, qc.slot, qc.blockHash) in sys[i].issued
  }

  /** Hashing any two of the headers involved in the run produces no collision. */
  ghost predicate CollisionFree(h: Hasher, sys: System, a: Header, b: Header)
  {
    forall i, x, y :: i in sys && x in Signed(sys[i]) + [a, b] && y in Signed(sys[i]) + [a, b] ==>
      InjectiveOn(h, HashInputs(h, x) + HashInputs(h, y))
  }

  /** Over its votes and proposals together, the member signed one block per slot and view. */
  ghost predicate Steady(h: Hasher, m: Member)
  {
    forall x, y :: x in Signed(m) && y in Signed(m) && x.slot == y.slot && ProposalView(x) == ProposalView(y) ==>
                     BlockHash(h, x) == BlockHash(h, y)
  }

  /** Only proposals can make a member unsteady: voting alone never does. */
  lemma {:induction false} SteadyIff(c: Committee, h: Hasher, honest: set<nat>, acts: seq<Action>, i: nat)
    requires i in honest
    ensures var m := Run(c, h, honest, acts)[i];
            Steady(h, m) <==>
              forall x, y :: x in m.proposed && y in Signed(m) && x.slot == y.slot && ProposalView(x) == ProposalView(y) ==>
                               BlockHash(h, x) == BlockHash(h, y)
  {
    var m := Run(c, h, honest, acts)[i];
    if forall x, y :: x in m.proposed && y in Signed(m) && x.slot == y.slot && ProposalView(x) == ProposalView(y) ==>
                        BlockHash(h, x) == BlockHash(h, y) {
      forall x, y | x in Signed(m) && y in Signed(m) && x.slot == y.slot && ProposalView(x) == ProposalView(y)
        ensures BlockHash(h, x) == BlockHash(h, y)
      {
        if x !in m.proposed && y !in m.proposed {
          OneVotePerView(c, h, honest, acts, i, x, y);
        }
      }
    }
  }

  /** A member that votes for whatever it proposes is steady. */
  lemma {:induction false} VotingForOwnIsSteady(c: Committee, h: Hasher, honest: set<nat>, acts: seq<Action>, i: nat)
    requires i in honest
    requires var m := Run(c, h, honest, acts)[i]; forall x :: x in m.proposed ==> x in m.cast
    ensures Steady(h, Run(c, h, honest, acts)[i])
  {
    var m := Run(c, h, honest, acts)[i];
    forall x, y | x in Signed(m) && y in Signed(m) && x.slot == y.slot && ProposalView(x) == ProposalView(y)
      ensures BlockHash(h, x) == BlockHash(h, y)
    {
      OneVotePerView(c, h, honest, acts, i, x, y);
    }
  }

  lemma {:induction false} SignerSigned(c: Committee, h: Hasher, honest: set<nat>, acts: seq<Action>, i: nat,
                                        qc: QuorumCert) returns (hd: Header)
    requires i in honest && i in qc.bitmap && Backed(c, qc)
    requires Unforged(c, Run(c, h, honest, acts), qc)
    ensures hd in Signed(Run(c, h, honest, acts)[i])
    ensures hd.slot == qc.slot && BlockHash(h, hd) == qc.blockHash
  {
    RunIsDisciplined(c, h, honest, acts, i);
    var s := SignMessage(c.chainId, qc.slot, qc.blockHash);
    var m := Run(c, h, honest, acts)[i];
    assert s in m.issued && FromSigned(c, h, m, s);
    hd :| hd in Signed(m) && s == SignMessage(c.chainId, hd.slot, BlockHash(h, hd));
    SignMessageInjective(c.chainId, hd.slot, BlockHash(h, hd), qc.slot, qc.blockHash);
  }

  /**
   Agreement. Whatever the network and the faulty members do, if fewer than a third of the
   committee is faulty or signed two blocks of one slot and view as voter and proposer, then
   two backed certificates for the same slot, whose blocks were proposed at the same view,
   are for the same block.
   */
  lemma {:induction false} Agreement(c: Committee, h: Hasher, honest: set<nat>, steady: set<nat>, acts: seq<Action>,
                                     qa: QuorumCert, qb: QuorumCert, a: Header, b: Header)
    requires steady <= honest && steady <= Range(c.Size()) && 3 * |Range(c.Size()) - steady| < c.Size()
    requires forall i :: i in steady ==> Steady(h, Run(c, h, honest, acts)[i])
    requires Backed(c, qa) && Backed(c, qb)
    requires Unforged(c, Run(c, h, honest, acts), qa) && Unforged(c, Run(c, h, honest, acts), qb)
    requires CollisionFree(h, Run(c, h, honest, acts), a, b)
    requires qa.blockHash == BlockHash(h, a) && qb.blockHash == BlockHash(h, b)
    requires qa.slot == qb.slot && ProposalView(a) == ProposalView(b)
    ensures qa.blockHash == qb.blockHash
  {
    var n := c.Size();
    var i := QuorumsShareHonest(n, Range(n) - steady, qa.bitmap, qb.bitmap);
    var va := SignerSigned(c, h, honest, acts, i, qa);
    var vb := SignerSigned(c, h, honest, acts, i, qb);
    var sys := Run(c, h, honest, acts);
    SameBlockSameView(h, sys, i, va, a, a, b);
    SameBlockSameView(h, sys, i, vb, b, a, b);
    assert Steady(h, sys[i]);
  }

  lemma {:induction false} SameBlockSameView(h: Hasher, sys: System, i: nat, x: Header, y: Header, a: Header, b: Header)
    requires CollisionFree(h, sys, a, b) && i in sys && x in Signed(sys[i]) && (y == a || y == b)
    requires BlockHash(h, x) == BlockHash(h, y)
    ensures x.slot == y.slot && ProposalView(x) == ProposalView(y)
  {
    assert x in Signed(sys[i]) + [a, b] && y in Signed(sys[i]) + [a, b];
    BlockHashFixesView(h, x, y);
  }

  // ---------- Voting below the highest certificate ----------

  ghost predicate Casts(c: Committee, h: Hasher, sign: seq<byte> -> Option<seq<byte>>, st: Voter, hd: Header)
  {
    var reply := VoteStep(c, h, sign, st, hd, 0).1;
    reply.Ok? && reply.value.Some?
  }

  /** A fresh voter can be brought to vote for the proposal. */
  ghost predicate Castable(c: Committee, h: Hasher, sign: seq<byte> -> Option<seq<byte>>, hd: Header)
  {
    && Acceptable(c, hd.qcPrevious) && Before(0, 0, hd.slot, ProposalView(hd))
    && sign(SignMessage(c.chainId, hd.slot, BlockHash(h, hd))).Some?
  }

  /** In every run, member `i` votes for the proposal only while its highest certificate is of an earlier slot. */
  ghost predicate RefusesOldHeight(c: Committee, h: Hasher, honest: set<nat>, i: nat,
                                   sign: seq<byte> -> Option<seq<byte>>, hd: Header)
    requires i in honest
  {
    forall acts :: Casts(c, h, sign, Run(c, h, honest, acts)[i].voter, hd) ==>
                     Run(c, h, honest, acts)[i].voter.highestQc.slot < hd.slot
  }

  /**
   The written invariants say a vote for a height at or below the locked certificate is
   rejected. The voting rule compares only certificates, so over all runs it refuses such
   votes exactly for the proposals whose own previous certificate is older than they are,
   and for those nobody votes for.
   */
  lemma {:induction false} RefusesOldHeightsIff(c: Committee, h: Hasher, honest: set<nat>, i: nat,
                                                sign: seq<byte> -> Option<seq<byte>>, hd: Header)
    requires i in honest
    ensures RefusesOldHeight(c, h, honest, i, sign, hd)
       <==> hd.qcPrevious.slot < hd.slot || !Castable(c, h, sign, hd)
  {
    if Castable(c, h, sign, hd) {
      if hd.qcPrevious.slot >= hd.slot {
        var acts := [OnCertificate(i, hd.qcPrevious)];
        RunNext(c, h, honest, [], acts[0], i);
        assert [] + acts == acts;
        assert Casts(c, h, sign, Run(c, h, honest, acts)[i].voter, hd);
      }
    } else {
      forall acts
        ensures !Casts(c, h, sign, Run(c, h, honest, acts)[i].voter, hd)
      {
      }
    }
  }

  // ---------- Staying able to vote ----------

  /** From any point of a run on, a member votes only on certificates at least as new as its highest then. */
  lemma {:induction false} NeverVotesBelow(c: Committee, h: Hasher, honest: set<nat>, acts: seq<Action>, more: seq<Action>,
                                           i: nat, sign: seq<byte> -> Option<seq<byte>>, hd: Header)
    requires i in honest && Casts(c, h, sign, Run(c, h, honest, acts + more)[i].voter, hd)
    ensures hd.qcPrevious.slot >= HighestAfter(c, h, honest, acts, i).slot
  {
    HighestQcNeverRegresses(c, h, honest, acts, more, i);
  }

  /** An empty certificate is accepted whatever its slot, so voting on one moves the highest slot there. */
  lemma {:induction false} SentinelIsPromoted(c: Committee, h: Hasher, honest: set<nat>, acts: seq<Action>, i: nat,
                                              hd: Header, signature: Option<seq<byte>>)
    requires i in honest && Eligible(Run(c, h, honest, acts)[i].voter, hd) && IsSentinel(hd.qcPrevious)
    ensures HighestAfter(c, h, honest, acts + [OnProposal(i, hd, signature)], i).slot == hd.qcPrevious.slot
  {
    RunNext(c, h, honest, acts, OnProposal(i, hd, signature), i);
  }

  /** Some proposal built on a certificate of slot at most `s` still gets the voter's vote. */
  ghost predicate CanVoteAt(c: Committee, h: Hasher, sign: seq<byte> -> Option<seq<byte>>, st: Voter, s: u64)
  {
    exists hd: Header :: hd.qcPrevious.slot <= s && Casts(c, h, sign, st, hd)
  }

  /** Some slot and view come after the voter's last vote. */
  predicate HasLater(st: Voter)
  {
    st.lastVotedSlot < U64 - 1 || st.lastVotedView < U64 - 1
  }

  /** A proposal after the voter's last vote, on the empty certificate of slot `s`. */
  function LaterProposal(st: Voter, s: u64): Header
    requires HasLater(st)
  {
    var none: Digest := seq(32, i => 0);
    var (slot: u64, view: u64) :=
      if st.lastVotedSlot < U64 - 1 then (st.lastVotedSlot + 1, 0) else (st.lastVotedSlot, st.lastVotedView + 1);
    Header(slot, 0, none, none, EncodeFallbackProof(0, view), QuorumCert(s, none, {}, []), none, none, 0)
  }

  /** A voter stays able to vote on certificates up to slot `s` exactly while its highest one is not newer. */
  lemma {:induction false} StaysAbleIff(c: Committee, h: Hasher, sign: seq<byte> -> Option<seq<byte>>, st: Voter, s: u64)
    requires forall message :: sign(message).Some?
    ensures CanVoteAt(c, h, sign, st, s) <==> st.highestQc.slot <= s && HasLater(st)
  {
    if st.highestQc.slot <= s && HasLater(st) {
      var hd := LaterProposal(st, s);
      LaterView(st, s);
      assert Casts(c, h, sign, st, hd);
    }
  }

  lemma {:induction false} LaterView(st: Voter, s: u64)
    requires HasLater(st)
    ensures ProposalView(LaterProposal(st, s)) == if st.lastVotedSlot < U64 - 1 then 0 else st.lastVotedView + 1
  {
    var view: u64 := if st.lastVotedSlot < U64 - 1 then 0 else st.lastVotedView + 1;
    FallbackDecodes(0, view, []);
    assert EncodeFallbackProof(0, view) + [] == EncodeFallbackProof(0, view);
  }

  /** Handed an unbacked certificate past slot zero, a member that has done nothing yet takes it as its highest. */
  lemma {:induction false} UncheckedIsInstalled(c: Committee, h: Hasher, honest: set<nat>, i: nat, qc: QuorumCert)
    requires i in honest && qc.slot > 0 && !Acceptable(c, qc)
    ensures HighestAfter(c, h, honest, [OnCertificate(i, qc)], i) == qc
  {
    assert [] + [OnCertificate(i, qc)] == [OnCertificate(i, qc)];
    RunNext(c, h, honest, [], OnCertificate(i, qc), i);
  }
}
