/**
 Wire formats of the key generation: share rows, Merkle proofs, commitments, encrypted
 envelopes and complaints, which nest an envelope and a proof. Each format is a
 bijection between the values that fit it and the byte strings it accepts.
 */
module Codecs {
  import opened Prelude
  import opened Bytes
  import opened Shamir
  import opened Merkle

  datatype Commitment = Commitment(epoch: nat, fromIndex: nat, n: nat, threshold: nat, root: Digest,
                                   signature: seq<byte>)

  datatype Envelope = Envelope(kemCiphertext: seq<byte>, ciphertext: seq<byte>, mac: Digest)

  datatype Complaint = Complaint(epoch: nat, fromIndex: nat, againstIndex: nat, envelope: Envelope,
                                 revealedSecret: Digest, proof: MerkleProof, signature: seq<byte>)

  // ---------- Share rows ----------

  const ROW_LEN: nat := 68

  function RowBytes(row: ShareRow): (s: seq<byte>)
    ensures |s| == ROW_LEN
  {
    Le(row.receiver, 4) + ValueBytes(row.values)
  }

  /** The values read from consecutive eight-byte blocks, provided all are canonical. */
  function ReadValues(p: nat, s: seq<byte>): (r: Option<seq<nat>>)
    requires |s| % 8 == 0
    ensures r.Some? ==> |r.value| * 8 == |s| && Canonical(p, r.value)
  {
    if s == [] then Some([])
    else
      var v := ReadU64(s[..8]);
      var rest := ReadValues(p, s[8..]);
      if v < p && rest.Some? then Some([v] + rest.value) else None
  }

  function RowFromBytes(p: nat, s: seq<byte>): (r: Option<ShareRow>)
    ensures r.Some? ==> Canonical(p, r.value.values) && r.value.receiver < U32
  {
    if |s| != ROW_LEN then None
    else
      var values := ReadValues(p, s[4..]);
      if values.None? then None else Some(ShareRow(ReadU32(s[..4]), values.value))
  }

  lemma {:induction false} ReadValuesBack(p: nat, values: seq<nat>)
    requires p <= U64 && Canonical(p, values)
    ensures ReadValues(p, ValueBytes(values)) == Some(values)
  {
    if values != [] {
      var s := ValueBytes(values);
      assert s[..8] == Le(values[0], 8) && s[8..] == ValueBytes(values[1..]);
      ReadBack(values[0], 0);
      ReadValuesBack(p, values[1..]);
      assert values == [values[0]] + values[1..];
    }
  }

  lemma {:induction false} ValuesWrittenBack(p: nat, s: seq<byte>)
    requires |s| % 8 == 0 && ReadValues(p, s).Some?
    ensures ValueBytes(ReadValues(p, s).value) == s
  {
    if s != [] {
      ValuesWrittenBack(p, s[8..]);
      var values := ReadValues(p, s).value;
      assert values[1..] == ReadValues(p, s[8..]).value;
      assert s == s[..8] + s[8..];
    }
  }

  /** A row survives encoding when its values are canonical and its index fits 32 bits. */
  lemma {:induction false} RowRoundTrip(p: nat, row: ShareRow)
    requires p <= U64 && Canonical(p, row.values) && row.receiver < U32
    ensures RowFromBytes(p, RowBytes(row)) == Some(row)
  {
    var s := RowBytes(row);
    assert s[..4] == Le(row.receiver, 4) && s[4..] == ValueBytes(row.values);
    ReadBack(0, row.receiver);
    ReadValuesBack(p, row.values);
  }

  /** Accepted bytes are exactly the encoding of the row they decode to. */
  lemma {:induction false} RowBytesUnique(p: nat, s: seq<byte>)
    requires RowFromBytes(p, s).Some?
    ensures RowBytes(RowFromBytes(p, s).value) == s
  {
    ValuesWrittenBack(p, s[4..]);
    assert s == s[..4] + s[4..];
  }

  ghost function Prefixed(values: seq<nat>, rest: Option<seq<nat>>): Option<seq<nat>>
  {
    if rest.None? then None else Some(values + rest.value)
  }

  lemma {:induction false} ReadOneMore(p: nat, s: seq<byte>, i: nat, values: seq<nat>)
    requires |s| % 8 == 0 && 8 * i + 8 <= |s|
    ensures Prefixed(values, ReadValues(p, s[8 * i..]))
         == if ReadU64(s[8 * i..8 * i + 8]) >= p then None
            else Prefixed(values + [ReadU64(s[8 * i..8 * i + 8])], ReadValues(p, s[8 * i + 8..]))
  {
    var t := s[8 * i..];
    assert t[..8] == s[8 * i..8 * i + 8] && t[8..] == s[8 * i + 8..];
    var rest := ReadValues(p, t[8..]);
    if rest.Some? {
      var v := ReadU64(t[..8]);
      assert values + ([v] + rest.value) == (values + [v]) + rest.value;
    }
  }

  /** Values are read one by one and a non-canonical one rejects them all. */
  method DecodeValues(p: nat, s: seq<byte>) returns (r: Option<seq<nat>>)
    requires |s| % 8 == 0
    ensures r == ReadValues(p, s)
  {
    var values: seq<nat> := [];
    assert s[8 * 0..] == s;
    assert forall vs: seq<nat> :: [] + vs == vs;
    for i := 0 to |s| / 8
      invariant |values| == i && ReadValues(p, s) == Prefixed(values, ReadValues(p, s[8 * i..]))
    {
      var raw := ReadU64(s[8 * i..8 * i + 8]);
      ReadOneMore(p, s, i, values);
      if raw >= p {
        return None;
      }
      values := values + [raw];
    }
    assert s[|s|..] == [] && values + [] == values;
    r := Some(values);
  }

  method DecodeRow(p: nat, s: seq<byte>) returns (r: Option<ShareRow>)
    ensures r == RowFromBytes(p, s)
  {
    if |s| != ROW_LEN {
      return None;
    }
    var values := DecodeValues(p, s[4..]);
    r := if values.None? then None else Some(ShareRow(ReadU32(s[..4]), values.value));
  }

  // ---------- Merkle proofs ----------

  function Joined(ds: seq<Digest>): (s: seq<byte>)
    ensures |s| == 32 * |ds|
  {
    if ds == [] then [] else ds[0] + Joined(ds[1..])
  }

  function Split(s: seq<byte>): (ds: seq<Digest>)
    requires |s| % 32 == 0
    ensures 32 * |ds| == |s|
  {
    if s == [] then [] else [s[..32]] + Split(s[32..])
  }

  lemma {:induction false} SplitJoined(ds: seq<Digest>)
    ensures Split(Joined(ds)) == ds
  {
    if ds != [] {
      assert Joined(ds)[..32] == ds[0] && Joined(ds)[32..] == Joined(ds[1..]);
      SplitJoined(ds[1..]);
    }
  }

  lemma {:induction false} JoinedSplit(s: seq<byte>)
    requires |s| % 32 == 0
    ensures Joined(Split(s)) == s
  {
    if s != [] {
      JoinedSplit(s[32..]);
      assert Split(s)[1..] == Split(s[32..]);
      assert s == s[..32] + s[32..];
    }
  }

  function ProofBytes(proof: MerkleProof): (s: seq<byte>)
    ensures |s| == 8 + 32 * |proof.siblings|
  {
    Le(proof.leafIndex, 4) + Le(|proof.siblings|, 4) + Joined(proof.siblings)
  }

  function ProofFromBytes(s: seq<byte>): Option<MerkleProof>
  {
    if |s| < 8 then None
    else
      var count := ReadU32(s[4..8]);
      if |s| != 8 + 32 * count then None else Some(MerkleProof(ReadU32(s[..4]), Split(s[8..])))
  }

  predicate ProofFits(proof: MerkleProof)
  {
    proof.leafIndex < U32 && |proof.siblings| < U32
  }

  lemma {:induction false} ProofRoundTrip(proof: MerkleProof)
    requires ProofFits(proof)
    ensures ProofFromBytes(ProofBytes(proof)) == Some(proof)
  {
    var s := ProofBytes(proof);
    assert s[..4] == Le(proof.leafIndex, 4) && s[4..8] == Le(|proof.siblings|, 4) && s[8..] == Joined(proof.siblings);
    ReadBack(0, proof.leafIndex);
    ReadBack(0, |proof.siblings|);
    SplitJoined(proof.siblings);
  }

  lemma {:induction false} ProofBytesUnique(s: seq<byte>)
    requires ProofFromBytes(s).Some?
    ensures ProofBytes(ProofFromBytes(s).value) == s && ProofFits(ProofFromBytes(s).value)
  {
    JoinedSplit(s[8..]);
    assert s == s[..4] + s[4..8] + s[8..];
  }

  lemma {:induction false} SplitOneMore(s: seq<byte>, i: nat, ds: seq<Digest>)
    requires |s| % 32 == 0 && 32 * i + 32 <= |s|
    ensures ds + Split(s[32 * i..]) == (ds + [s[32 * i..32 * i + 32]]) + Split(s[32 * i + 32..])
  {
    var t := s[32 * i..];
    assert t[..32] == s[32 * i..32 * i + 32] && t[32..] == s[32 * i + 32..];
  }

  method DecodeDigests(s: seq<byte>) returns (ds: seq<Digest>)
    requires |s| % 32 == 0
    ensures ds == Split(s)
  {
    ds := [];
    for i := 0 to |s| / 32
      invariant |ds| == i && Split(s) == ds + Split(s[32 * i..])
    {
      SplitOneMore(s, i, ds);
      ds := ds + [s[32 * i..32 * i + 32]];
    }
  }

  method DecodeProof(s: seq<byte>) returns (r: Option<MerkleProof>)
    ensures r == ProofFromBytes(s)
  {
    if |s| < 8 {
      return None;
    }
    var count: nat := ReadU32(s[4..8]);
    if |s| != 8 + 32 * count {
      return None;
    }
    var siblings := DecodeDigests(s[8..]);
    r := Some(MerkleProof(ReadU32(s[..4]), siblings));
  }

  // ---------- Length-prefixed fields ----------

  /** A field preceded by its length. */
  function Framed(x: seq<byte>): (s: seq<byte>)
    ensures |s| == 4 + |x|
  {
    Le(|x|, 4) + x
  }

  /** Splits off a length-prefixed field; None when the bytes are too short for it. */
  function Unframe(s: seq<byte>): (r: Option<(seq<byte>, seq<byte>)>)
    ensures r.Some? ==> |r.value.0| < U32
  {
    if |s| < 4 then None
    else
      var len: nat := ReadU32(s[..4]);
      if |s| < 4 + len then None else Some((s[4..4 + len], s[4 + len..]))
  }

  lemma {:induction false} UnframeFramed(x: seq<byte>, rest: seq<byte>)
    requires |x| < U32
    ensures Unframe(Framed(x) + rest) == Some((x, rest))
  {
    var s, n := Framed(x) + rest, |x|;
    assert s[..4] == Le(n, 4) && s[4..4 + n] == x && s[4 + n..] == rest;
    ReadBack(0, n);
  }

  lemma {:induction false} FramedUnframe(s: seq<byte>)
    requires Unframe(s).Some?
    ensures s == Framed(Unframe(s).value.0) + Unframe(s).value.1
  {
    var len := |Unframe(s).value.0|;
    assert s == s[..4] + s[4..4 + len] + s[4 + len..];
  }

  /** Reads a length-prefixed field that takes up all the bytes. */
  function UnframeLast(s: seq<byte>): Option<seq<byte>>
  {
    match Unframe(s)
    case None => None
    case Some((x, rest)) => if rest != [] then None else Some(x)
  }

  lemma {:induction false} UnframeLastFramed(x: seq<byte>)
    requires |x| < U32
    ensures UnframeLast(Framed(x)) == Some(x)
  {
    assert Framed(x) == Framed(x) + [];
    UnframeFramed(x, []);
  }

  lemma {:induction false} FramedUnframeLast(s: seq<byte>)
    requires UnframeLast(s).Some?
    ensures s == Framed(UnframeLast(s).value) && |UnframeLast(s).value| < U32
  {
    FramedUnframe(s);
  }

  // ---------- Commitments ----------

  predicate CommitmentFits(c: Commitment)
  {
    c.epoch < U64 && c.fromIndex < U32 && c.n < U32 && c.threshold < U32 && |c.signature| < U32
  }

  function CommitmentHead(c: Commitment): (s: seq<byte>)
    ensures |s| == 52
  {
    Le(c.epoch, 8) + Le(c.fromIndex, 4) + Le(c.n, 4) + Le(c.threshold, 4) + c.root
  }

  function CommitmentBytes(c: Commitment): seq<byte>
  {
    CommitmentHead(c) + Framed(c.signature)
  }

  function CommitmentFromBytes(s: seq<byte>): Option<Commitment>
  {
    if |s| < 56 then None
    else
      match UnframeLast(s[52..])
      case Some(signature) =>
        Some(Commitment(ReadU64(s[..8]), ReadU32(s[8..12]), ReadU32(s[12..16]), ReadU32(s[16..20]), s[20..52], signature))
      case _ => None
  }

  lemma {:induction false} CommitmentPieces(c: Commitment)
    ensures CommitmentHead(c)[..8] == Le(c.epoch, 8) && CommitmentHead(c)[8..12] == Le(c.fromIndex, 4)
    ensures CommitmentHead(c)[12..16] == Le(c.n, 4) && CommitmentHead(c)[16..20] == Le(c.threshold, 4)
    ensures CommitmentHead(c)[20..52] == c.root
  {
    var s, epoch, from, n, t := CommitmentHead(c), Le(c.epoch, 8), Le(c.fromIndex, 4), Le(c.n, 4), Le(c.threshold, 4);
    assert s == [] + epoch + (from + n + t + c.root);
    Middle([], epoch, from + n + t + c.root);
    assert s == epoch + from + (n + t + c.root);
    Middle(epoch, from, n + t + c.root);
    assert s == epoch + from + n + (t + c.root);
    Middle(epoch + from, n, t + c.root);
    assert s == epoch + from + n + t + c.root;
    Middle(epoch + from + n, t, c.root);
    assert s == epoch + from + n + t + c.root + [];
    Middle(epoch + from + n + t, c.root, []);
  }

  lemma {:induction false} CommitmentHeadBack(c: Commitment)
    requires CommitmentFits(c)
    ensures ReadU64(CommitmentHead(c)[..8]) == c.epoch && ReadU32(CommitmentHead(c)[8..12]) == c.fromIndex
    ensures ReadU32(CommitmentHead(c)[12..16]) == c.n && ReadU32(CommitmentHead(c)[16..20]) == c.threshold
    ensures CommitmentHead(c)[20..52] == c.root
  {
    CommitmentPieces(c);
    ReadBack(c.epoch, c.fromIndex);
    ReadBack(0, c.n);
    ReadBack(0, c.threshold);
  }

  lemma {:induction false} CommitmentRoundTrip(c: Commitment)
    requires CommitmentFits(c)
    ensures CommitmentFromBytes(CommitmentBytes(c)) == Some(c)
  {
    var head, s := CommitmentHead(c), CommitmentBytes(c);
    CommitmentHeadBack(c);
    assert s[52..] == Framed(c.signature);
    UnframeLastFramed(c.signature);
    assert s[..8] == head[..8] && s[8..12] == head[8..12] && s[12..16] == head[12..16];
    assert s[16..20] == head[16..20] && s[20..52] == head[20..52];
  }

  lemma {:induction false} CommitmentBytesUnique(s: seq<byte>)
    requires CommitmentFromBytes(s).Some?
    ensures CommitmentBytes(CommitmentFromBytes(s).value) == s && CommitmentFits(CommitmentFromBytes(s).value)
  {
    FramedUnframeLast(s[52..]);
    assert s == s[..8] + s[8..12] + s[12..16] + s[16..20] + s[20..52] + s[52..];
  }

  // ---------- Envelopes ----------

  predicate EnvelopeFits(e: Envelope)
  {
    |e.kemCiphertext| < U32 && |e.ciphertext| < U32
  }

  function EnvelopeBytes(e: Envelope): seq<byte>
  {
    Framed(e.kemCiphertext) + (Framed(e.ciphertext) + e.mac)
  }

  function EnvelopeFromBytes(s: seq<byte>): Option<Envelope>
  {
    match Unframe(s)
    case None => None
    case Some((kemCiphertext, t)) =>
      match Unframe(t)
      case None => None
      case Some((ciphertext, mac)) => if |mac| != 32 then None else Some(Envelope(kemCiphertext, ciphertext, mac))
  }

  lemma {:induction false} EnvelopeRoundTrip(e: Envelope)
    requires EnvelopeFits(e)
    ensures EnvelopeFromBytes(EnvelopeBytes(e)) == Some(e)
  {
    UnframeFramed(e.kemCiphertext, Framed(e.ciphertext) + e.mac);
    UnframeFramed(e.ciphertext, e.mac);
  }

  lemma {:induction false} EnvelopeBytesUnique(s: seq<byte>)
    requires EnvelopeFromBytes(s).Some?
    ensures EnvelopeBytes(EnvelopeFromBytes(s).value) == s && EnvelopeFits(EnvelopeFromBytes(s).value)
  {
    FramedUnframe(s);
    FramedUnframe(Unframe(s).value.1);
  }

  // ---------- Complaints ----------

  predicate ComplaintFits(c: Complaint)
  {
    && c.epoch < U64 && c.fromIndex < U32 && c.againstIndex < U32 && |c.signature| < U32
    && EnvelopeFits(c.envelope) && ProofFits(c.proof)
    && |EnvelopeBytes(c.envelope)| < U32 && |ProofBytes(c.proof)| < U32
  }

  function ComplaintHead(c: Complaint): (s: seq<byte>)
    ensures |s| == 16
  {
    Le(c.epoch, 8) + Le(c.fromIndex, 4) + Le(c.againstIndex, 4)
  }

  /** What follows the envelope: the revealed secret, the proof and the signature. */
  function EvidenceBytes(c: Complaint): seq<byte>
  {
    c.revealedSecret + (Framed(ProofBytes(c.proof)) + Framed(c.signature))
  }

  function ComplaintBytes(c: Complaint): seq<byte>
  {
    ComplaintHead(c) + (Framed(EnvelopeBytes(c.envelope)) + EvidenceBytes(c))
  }

  function EvidenceFromBytes(s: seq<byte>): Option<(Digest, MerkleProof, seq<byte>)>
  {
    if |s| < 32 then None
    else
      match Unframe(s[32..])
      case None => None
      case Some((proofBytes, t)) =>
        match (ProofFromBytes(proofBytes), UnframeLast(t))
        case (Some(proof), Some(signature)) => Some((s[..32], proof, signature))
        case _ => None
  }

  function ComplaintFromBytes(s: seq<byte>): Option<Complaint>
  {
    if |s| < 16 then None
    else
      match Unframe(s[16..])
      case None => None
      case Some((envelopeBytes, t)) =>
        match (EnvelopeFromBytes(envelopeBytes), EvidenceFromBytes(t))
        case (Some(envelope), Some((secret, proof, signature))) =>
          Some(Complaint(ReadU64(s[..8]), ReadU32(s[8..12]), ReadU32(s[12..16]), envelope, secret, proof, signature))
        case _ => None
  }

  lemma {:induction false} EvidenceRoundTrip(c: Complaint)
    requires ComplaintFits(c)
    ensures EvidenceFromBytes(EvidenceBytes(c)) == Some((c.revealedSecret, c.proof, c.signature))
  {
    var s := EvidenceBytes(c);
    assert s[..32] == c.revealedSecret && s[32..] == Framed(ProofBytes(c.proof)) + Framed(c.signature);
    UnframeFramed(ProofBytes(c.proof), Framed(c.signature));
    UnframeLastFramed(c.signature);
    ProofRoundTrip(c.proof);
  }

  lemma {:induction false} ComplaintRoundTrip(c: Complaint)
    requires ComplaintFits(c)
    ensures ComplaintFromBytes(ComplaintBytes(c)) == Some(c)
  {
    var s := ComplaintBytes(c);
    assert s[..8] == Le(c.epoch, 8) && s[8..12] == Le(c.fromIndex, 4) && s[12..16] == Le(c.againstIndex, 4);
    assert s[16..] == Framed(EnvelopeBytes(c.envelope)) + EvidenceBytes(c);
    ReadBack(c.epoch, c.fromIndex);
    ReadBack(0, c.againstIndex);
    UnframeFramed(EnvelopeBytes(c.envelope), EvidenceBytes(c));
    EnvelopeRoundTrip(c.envelope);
    EvidenceRoundTrip(c);
  }

  lemma {:induction false} EvidenceBytesUnique(s: seq<byte>, c: Complaint)
    requires EvidenceFromBytes(s) == Some((c.revealedSecret, c.proof, c.signature))
    ensures EvidenceBytes(c) == s && |c.signature| < U32 && ProofFits(c.proof) && |ProofBytes(c.proof)| < U32
  {
    FramedUnframe(s[32..]);
    var (proofBytes, t) := Unframe(s[32..]).value;
    ProofBytesUnique(proofBytes);
    FramedUnframeLast(t);
    assert s == s[..32] + s[32..];
  }

  lemma {:induction false} HeadReadBack(s: seq<byte>, c: Complaint)
    requires |s| >= 16 && c.epoch == ReadU64(s[..8]) && c.fromIndex == ReadU32(s[8..12]) && c.againstIndex == ReadU32(s[12..16])
    ensures ComplaintHead(c) == s[..16]
  {
    assert s[..16] == s[..8] + s[8..12] + s[12..16];
  }

  lemma {:induction false} ComplaintBytesUnique(s: seq<byte>)
    requires ComplaintFromBytes(s).Some?
    ensures ComplaintBytes(ComplaintFromBytes(s).value) == s && ComplaintFits(ComplaintFromBytes(s).value)
  {
    FramedUnframe(s[16..]);
    var (envelopeBytes, t) := Unframe(s[16..]).value;
    EnvelopeBytesUnique(envelopeBytes);
    EvidenceBytesUnique(t, ComplaintFromBytes(s).value);
    HeadReadBack(s, ComplaintFromBytes(s).value);
    assert s == s[..16] + s[16..];
  }
}
