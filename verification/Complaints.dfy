/**
 Complaints about a share: anyone holding the revealed envelope secret can repeat the
 recipient's checks and settle who is at fault.
 */
module Complaints {
  import opened Prelude
  import opened Bytes
  import opened Shamir
  import opened MasterSecret
  import opened Merkle
  import opened Codecs
  import opened Envelopes
  import opened Contribution

  const COMPLAINT_DOMAIN: seq<byte> := Ascii("PYDE_DKG_COMPLAINT_V1\0")

  datatype Verdict = InvalidSignature | Malformed | EnvelopeUnverifiable | ContributorFaulty | Slander

  function ComplaintPreimage(h: Hasher, c: Complaint): seq<byte>
  {
    COMPLAINT_DOMAIN + ComplaintHead(c) + h(EnvelopeBytes(c.envelope)) + c.revealedSecret + h(ProofBytes(c.proof))
  }

  function ComplaintBinding(c: Complaint): Binding
  {
    Binding(c.revealedSecret, c.envelope.kemCiphertext, c.epoch, c.fromIndex, c.againstIndex)
  }

  /** The committed row is what the envelope decrypts to, at the right position. */
  ghost predicate RowCommitted(h: Hasher, p: nat, c: Complaint, root: Digest)
  {
    var row := RowFromBytes(p, Plaintext(h, ComplaintBinding(c), c.envelope));
    row.Some? && row.value.receiver == c.againstIndex
    && Accepts(h, root, LeafHash(h, c.epoch, c.fromIndex, row.value), c.proof)
  }

  /** Each verdict is returned exactly in its own circumstances. */
  method VerifyComplaint(h: Hasher, p: nat, signer: Signer, c: Complaint, pk: seq<byte>, root: Digest)
    returns (v: Verdict)
    ensures v == InvalidSignature <==> !signer.verify(pk, ComplaintPreimage(h, c), c.signature)
    ensures v == Malformed <==> signer.verify(pk, ComplaintPreimage(h, c), c.signature)
                                && c.proof.leafIndex + 1 != c.againstIndex
    ensures v == EnvelopeUnverifiable <==> signer.verify(pk, ComplaintPreimage(h, c), c.signature)
                                           && c.proof.leafIndex + 1 == c.againstIndex
                                           && !MacHolds(h, ComplaintBinding(c), c.envelope)
    ensures v == ContributorFaulty <==> signer.verify(pk, ComplaintPreimage(h, c), c.signature)
                                        && c.proof.leafIndex + 1 == c.againstIndex
                                        && MacHolds(h, ComplaintBinding(c), c.envelope)
                                        && !RowCommitted(h, p, c, root)
    ensures v == Judged(h, p, signer, c, pk, root)
  {
    if !signer.verify(pk, ComplaintPreimage(h, c), c.signature) {
      return InvalidSignature;
    }
    if c.proof.leafIndex + 1 != c.againstIndex {
      return Malformed;
    }
    var b := ComplaintBinding(c);
    if Mac(h, b, c.envelope.ciphertext) != c.envelope.mac {
      return EnvelopeUnverifiable;
    }
    var keystream := DeriveKeystream(h, b, |c.envelope.ciphertext|);
    var plaintext := XorBytes(c.envelope.ciphertext, keystream);
    var row := DecodeRow(p, plaintext);
    if row.None? || row.value.receiver != c.againstIndex {
      return ContributorFaulty;
    }
    var ok := VerifyMerkleProof(h, root, LeafHash(h, c.epoch, c.fromIndex, row.value), c.proof);
    v := if ok then Slander else ContributorFaulty;
  }

  ghost function Judged(h: Hasher, p: nat, signer: Signer, c: Complaint, pk: seq<byte>, root: Digest): Verdict
  {
    if !signer.verify(pk, ComplaintPreimage(h, c), c.signature) then InvalidSignature
    else if c.proof.leafIndex + 1 != c.againstIndex then Malformed
    else if !MacHolds(h, ComplaintBinding(c), c.envelope) then EnvelopeUnverifiable
    else if RowCommitted(h, p, c, root) then Slander
    else ContributorFaulty
  }

  /**
   With a valid commitment, a correctly signed complaint and the secret the recipient
   really decapsulated, the public verdict and the recipient's own check agree: the share
   verifies exactly when the complaint is slander, and each rejection has its verdict.
   */
  lemma {:induction false} VerdictMatchesRecipient(h: Hasher, p: nat, kem: Kem, signer: Signer, c: Complaint,
                                                   complainant: seq<byte>, commitment: Commitment,
                                                   contributor: seq<byte>, round: Round, sk: seq<byte>)
    requires signer.verify(complainant, ComplaintPreimage(h, c), c.signature)
    requires signer.verify(contributor, CommitPreimage(commitment), commitment.signature)
    requires HeaderMatches(commitment, round) && c.epoch == round.epoch && c.fromIndex == round.fromIndex
    requires c.revealedSecret == RecoveredSecret(kem, sk, c.envelope.kemCiphertext)
    ensures var v := Judged(h, p, signer, c, complainant, commitment.root);
            var r := Received(h, p, kem, signer, c.envelope, c.proof, commitment, contributor, round, c.againstIndex, sk);
            && (v == Slander <==> r.Ok?)
            && (v == Malformed <==> r == Err(ProofPositionMismatch))
            && (v == EnvelopeUnverifiable <==>
                  r == Err(EnvelopeUndecryptable) && !MacHolds(h, ComplaintBinding(c), c.envelope))
            && (v == ContributorFaulty <==>
                  && (r == Err(EnvelopeUndecryptable) || r == Err(ProofMismatch))
                  && MacHolds(h, ComplaintBinding(c), c.envelope))
  {
    var b := ComplaintBinding(c);
    assert Decrypted(h, p, kem, c.envelope, sk, round.epoch, round.fromIndex, c.againstIndex)
        == OpenWith(h, p, b, c.envelope);
  }

  /** Complaining about an honestly delivered share, with its own proof, is slander. */
  lemma {:induction false} HonestShareIsSlander(h: Hasher, p: nat, kem: Kem, signer: Signer, round: Round,
                                                pks: seq<seq<byte>>, coins: nat -> nat, signKey: seq<byte>,
                                                d: Dealing, out: Output, pk: seq<byte>, j: nat, sk: seq<byte>,
                                                c: Complaint, complainant: seq<byte>)
    requires 1 < p <= U64 && round.n < U32 && 1 <= j <= round.n
    requires Delivers(h, p, kem, signer, round, pks, coins, signKey, d, out)
    requires SigningPair(signer, pk, signKey) && KeyPair(kem, pks[j - 1], sk)
    requires c.envelope == out.envelopes[j - 1].0 && c.proof == out.envelopes[j - 1].1 && c.againstIndex == j
    requires c.epoch == round.epoch && c.fromIndex == round.fromIndex
    requires c.revealedSecret == RecoveredSecret(kem, sk, c.envelope.kemCiphertext)
    requires signer.verify(complainant, ComplaintPreimage(h, c), c.signature)
    ensures Judged(h, p, signer, c, complainant, out.commitment.root) == Slander
  {
    EveryRecipientAccepts(h, p, kem, signer, round, pks, coins, signKey, d, out, pk, j, sk);
    VerdictMatchesRecipient(h, p, kem, signer, c, complainant, out.commitment, pk, round, sk);
  }
}
