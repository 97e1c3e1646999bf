/**
 A contributor's round: sampling and splitting a secret, committing to the rows, and
 encrypting one row per recipient; and the checks a recipient makes on what arrives.
 */
module Contribution {
  import opened Prelude
  import opened Bytes
  import opened ModArith
  import opened Interpolation
  import opened Shamir
  import opened MasterSecret
  import opened Trees
  import opened Merkle
  import opened Codecs
  import opened Envelopes

  const SECRET_SEED_DOMAIN: seq<byte> := Ascii("PYDE_DKG_SECRET_SEED_V1\0")
  const COMMIT_DOMAIN: seq<byte> := Ascii("PYDE_DKG_COMMIT_V1\0")

  /** A signature scheme, as functions of secret key, public key and message. */
  datatype Signer = Signer(sign: (seq<byte>, seq<byte>) -> Option<seq<byte>>,
                           verify: (seq<byte>, seq<byte>, seq<byte>) -> bool)

  /** Signatures made with `sk` verify under `pk`. */
  ghost predicate SigningPair(signer: Signer, pk: seq<byte>, sk: seq<byte>)
  {
    forall message :: signer.sign(sk, message).Some? ==>
                        signer.verify(pk, message, signer.sign(sk, message).value)
  }

  function CommitPreimage(c: Commitment): seq<byte>
  {
    COMMIT_DOMAIN + CommitmentHead(c)
  }

  // ---------- The recipient's checks ----------

  datatype ShareError = CommitmentSignatureInvalid | CommitmentHeaderMismatch | EnvelopeUndecryptable
                      | ProofPositionMismatch | ProofMismatch

  /** What a recipient expects of a contribution. */
  datatype Round = Round(epoch: nat, fromIndex: nat, n: nat, threshold: nat)

  predicate HeaderMatches(c: Commitment, round: Round)
  {
    c.epoch == round.epoch && c.fromIndex == round.fromIndex && c.n == round.n && c.threshold == round.threshold
  }

  /** The checks on the share itself: position, then decryption, then inclusion. */
  ghost function Checked(h: Hasher, p: nat, kem: Kem, e: Envelope, proof: MerkleProof, root: Digest, round: Round,
                         recipient: nat, sk: seq<byte>): Result<ShareRow, ShareError>
  {
    if proof.leafIndex + 1 != recipient then Err(ProofPositionMismatch)
    else
      match Decrypted(h, p, kem, e, sk, round.epoch, round.fromIndex, recipient)
      case None => Err(EnvelopeUndecryptable)
      case Some(row) =>
        if Accepts(h, root, LeafHash(h, round.epoch, round.fromIndex, row), proof) then Ok(row) else Err(ProofMismatch)
  }

  /** The outcome of receiving a share: the commitment is checked first. */
  ghost function Received(h: Hasher, p: nat, kem: Kem, signer: Signer, e: Envelope, proof: MerkleProof, c: Commitment,
                          pk: seq<byte>, round: Round, recipient: nat, sk: seq<byte>): Result<ShareRow, ShareError>
  {
    if !signer.verify(pk, CommitPreimage(c), c.signature) then Err(CommitmentSignatureInvalid)
    else if !HeaderMatches(c, round) then Err(CommitmentHeaderMismatch)
    else Checked(h, p, kem, e, proof, c.root, round, recipient, sk)
  }

  method VerifyReceivedShare(h: Hasher, p: nat, kem: Kem, signer: Signer, e: Envelope, proof: MerkleProof,
                             c: Commitment, pk: seq<byte>, round: Round, recipient: nat, sk: seq<byte>)
    returns (r: Result<ShareRow, ShareError>)
    ensures r == Received(h, p, kem, signer, e, proof, c, pk, round, recipient, sk)
  {
    if !signer.verify(pk, CommitPreimage(c), c.signature) {
      return Err(CommitmentSignatureInvalid);
    }
    if !HeaderMatches(c, round) {
      return Err(CommitmentHeaderMismatch);
    }
    if proof.leafIndex + 1 != recipient {
      return Err(ProofPositionMismatch);
    }
    var row := DecryptShareRow(h, p, kem, e, sk, round.epoch, round.fromIndex, recipient);
    if row.None? {
      return Err(EnvelopeUndecryptable);
    }
    var ok := VerifyMerkleProof(h, c.root, LeafHash(h, round.epoch, round.fromIndex, row.value), proof);
    r := if ok then Ok(row.value) else Err(ProofMismatch);
  }

  lemma {:induction false} CheckedFits(h: Hasher, p: nat, kem: Kem, e: Envelope, proof: MerkleProof, root: Digest,
                                       round: Round, recipient: nat, sk: seq<byte>, row: ShareRow)
    requires p <= U64 && Checked(h, p, kem, e, proof, root, round, recipient, sk) == Ok(row)
    ensures Fits(row) && proof.leafIndex + 1 == recipient
    ensures Accepts(h, root, LeafHash(h, round.epoch, round.fromIndex, row), proof)
  {
  }

  /**
   A recipient who accepts a share against a root over `rows` holds the row committed at
   its own position, whatever the contributor put in the envelope.
   */
  lemma {:induction false} AcceptedShareIsCommitted(h: Hasher, p: nat, kem: Kem, e: Envelope, proof: MerkleProof,
                                                    root: Digest, round: Round, recipient: nat, sk: seq<byte>,
                                                    row: ShareRow, rows: seq<ShareRow>)
    requires p <= U64 && round.epoch < U64 && round.fromIndex < U32 && recipient <= |rows|
    requires forall i :: 0 <= i < |rows| ==> Fits(rows[i])
    requires root == CommittedRoot(h, LeavesOf(h, round.epoch, round.fromIndex, rows), round.epoch, round.fromIndex)
    requires Checked(h, p, kem, e, proof, root, round, recipient, sk) == Ok(row)
    requires InjectiveOn(h, CommitInputs(h, round.epoch, round.fromIndex, rows)
                            + CheckInputs(h, round.epoch, round.fromIndex, row, proof))
    ensures 1 <= recipient && row == rows[recipient - 1]
  {
    CheckedFits(h, p, kem, e, proof, root, round, recipient, sk, row);
    CommittedAt(h, round.epoch, round.fromIndex, row, rows, proof);
  }

  lemma {:induction false} CommittedAt(h: Hasher, epoch: u64, fromIndex: u32, row: ShareRow, rows: seq<ShareRow>,
                                       proof: MerkleProof)
    requires Fits(row) && (forall i :: 0 <= i < |rows| ==> Fits(rows[i])) && proof.leafIndex < |rows|
    requires InjectiveOn(h, CommitInputs(h, epoch, fromIndex, rows) + CheckInputs(h, epoch, fromIndex, row, proof))
    requires Accepts(h, CommittedRoot(h, LeavesOf(h, epoch, fromIndex, rows), epoch, fromIndex),
                     LeafHash(h, epoch, fromIndex, row), proof)
    ensures row == rows[proof.leafIndex]
  {
    AcceptedRowIsCommitted(h, epoch, fromIndex, rows, epoch, fromIndex, row, proof);
    DivModUnique(proof.leafIndex, Pow2(Depth(|rows|)), 0, proof.leafIndex);
  }

  // ---------- The contributor ----------

  datatype ContributeError = FromIndexOutOfRange | ThresholdOutOfRange | WrongKeyCount | SamplingExhausted
                           | SigningFailed | EncapsulationFailed

  datatype Output = Output(commitment: Commitment, envelopes: seq<(Envelope, MerkleProof)>, ownRow: ShareRow,
                           ownProof: MerkleProof)

  function SecretKey(seed: Digest, fromIndex: nat, k: nat): SampleKey
  {
    SampleKey(SECRET_SEED_DOMAIN, seed, fromIndex, k, 0)
  }

  /** The polynomials a seed determines for one contributor. */
  ghost predicate IsDealing(p: nat, h: Hasher, seed: Digest, fromIndex: nat, threshold: nat, d: Dealing)
  {
    forall k :: 0 <= k < SEED_ELEMENTS ==>
      && d[k] != []
      && Sample(p, h, SecretKey(seed, fromIndex, k)) == Some(d[k][0])
      && IsSharingPolynomial(p, h, seed, fromIndex, k, threshold, d[k][0], d[k])
  }

  /** The rows of a dealing, for the positions `1 ..= n`. */
  function RowsOf(p: nat, d: Dealing, n: nat): seq<ShareRow>
    requires p > 0
  {
    seq(n, i requires 0 <= i < n => RowFor(p, d, i + 1))
  }

  lemma {:induction false} RowAt(p: nat, d: Dealing, n: nat, j: nat)
    requires p > 0 && 1 <= j <= n
    ensures RowsOf(p, d, n)[j - 1] == RowFor(p, d, j) && Canonical(p, RowFor(p, d, j).values)
  {
  }

  /** A contribution that commits to `rows`, whatever they are, and sends every position its row. */
  ghost predicate Publishes(h: Hasher, kem: Kem, signer: Signer, round: Round, pks: seq<seq<byte>>, coins: nat -> nat,
                            signKey: seq<byte>, rows: seq<ShareRow>, out: Output)
  {
    && |pks| == round.n == |rows| == |out.envelopes|
    && HeaderMatches(out.commitment, round)
    && signer.sign(signKey, CommitPreimage(out.commitment)) == Some(out.commitment.signature)
    && out.commitment.root == CommittedRoot(h, LeavesOf(h, round.epoch, round.fromIndex, rows), round.epoch, round.fromIndex)
    && AllAddressed(h, kem, round, pks, coins, rows, out.commitment.root, out.envelopes)
  }

  /** A contribution that hands every position its row of `d`. */
  ghost predicate Delivers(h: Hasher, p: nat, kem: Kem, signer: Signer, round: Round, pks: seq<seq<byte>>,
                           coins: nat -> nat, signKey: seq<byte>, d: Dealing, out: Output)
    requires p > 0
  {
    && 1 <= round.fromIndex <= round.n
    && Publishes(h, kem, signer, round, pks, coins, signKey, RowsOf(p, d, round.n), out)
    && out.ownRow == RowFor(p, d, round.fromIndex) && out.ownProof == out.envelopes[round.fromIndex - 1].1
  }

  /** The envelope carries the row under the recipient's key, and the proof places it at position `i`. */
  ghost predicate Addressed(h: Hasher, kem: Kem, round: Round, pk: seq<byte>, coin: nat, row: ShareRow, root: Digest,
                            i: nat, sent: (Envelope, MerkleProof))
  {
    && Encrypted(h, kem, row, pk, coin, round.epoch, round.fromIndex) == Some(sent.0)
    && sent.1.leafIndex == i
    && Accepts(h, root, LeafHash(h, round.epoch, round.fromIndex, row), sent.1)
  }

  ghost predicate AllAddressed(h: Hasher, kem: Kem, round: Round, pks: seq<seq<byte>>, coins: nat -> nat,
                               rows: seq<ShareRow>, root: Digest, sent: seq<(Envelope, MerkleProof)>)
  {
    && |pks| == |rows| == |sent|
    && forall i: nat :: i < |rows| ==> Addressed(h, kem, round, pks[i], coins(i), rows[i], root, i, sent[i])
  }

  lemma {:induction false} AddressedIsAccepted(h: Hasher, p: nat, kem: Kem, round: Round, pk: seq<byte>, coin: nat,
                                               row: ShareRow, root: Digest, i: nat, sent: (Envelope, MerkleProof),
                                               sk: seq<byte>)
    requires p <= U64 && Canonical(p, row.values) && row.receiver == i + 1 < U32 && KeyPair(kem, pk, sk)
    requires Addressed(h, kem, round, pk, coin, row, root, i, sent)
    ensures Checked(h, p, kem, sent.0, sent.1, root, round, i + 1, sk) == Ok(row)
  {
    EnvelopeDelivers(h, p, kem, row, pk, sk, coin, round.epoch, round.fromIndex);
  }

  /** Every recipient accepts the row that was committed for it, on a polynomial or not. */
  lemma {:induction false} PublishedRowAccepted(h: Hasher, p: nat, kem: Kem, signer: Signer, round: Round,
                                                pks: seq<seq<byte>>, coins: nat -> nat, signKey: seq<byte>,
                                                rows: seq<ShareRow>, out: Output, pk: seq<byte>, j: nat, sk: seq<byte>)
    requires p <= U64 && round.n < U32 && 1 <= j <= round.n
    requires Publishes(h, kem, signer, round, pks, coins, signKey, rows, out)
    requires Canonical(p, rows[j - 1].values) && rows[j - 1].receiver == j
    requires SigningPair(signer, pk, signKey) && KeyPair(kem, pks[j - 1], sk)
    ensures Received(h, p, kem, signer, out.envelopes[j - 1].0, out.envelopes[j - 1].1, out.commitment, pk, round, j, sk)
         == Ok(rows[j - 1])
  {
    AddressedIsAccepted(h, p, kem, round, pks[j - 1], coins(j - 1), rows[j - 1], out.commitment.root, j - 1,
                        out.envelopes[j - 1], sk);
  }

  /**
   Every recipient of an honest contribution accepts it and recovers the contributor's
   polynomials evaluated at its own index.
   */
  lemma {:induction false} EveryRecipientAccepts(h: Hasher, p: nat, kem: Kem, signer: Signer, round: Round,
                                                 pks: seq<seq<byte>>, coins: nat -> nat, signKey: seq<byte>,
                                                 d: Dealing, out: Output, pk: seq<byte>, j: nat, sk: seq<byte>)
    requires 1 < p <= U64 && round.n < U32 && 1 <= j <= round.n
    requires Delivers(h, p, kem, signer, round, pks, coins, signKey, d, out)
    requires SigningPair(signer, pk, signKey) && KeyPair(kem, pks[j - 1], sk)
    ensures Received(h, p, kem, signer, out.envelopes[j - 1].0, out.envelopes[j - 1].1, out.commitment, pk, round, j, sk)
         == Ok(RowFor(p, d, j))
  {
    RowAt(p, d, round.n, j);
    PublishedRowAccepted(h, p, kem, signer, round, pks, coins, signKey, RowsOf(p, d, round.n), out, pk, j, sk);
  }

  /** Some seed element cannot be sampled. */
  ghost predicate SecretExhausted(p: nat, h: Hasher, seed: Digest, fromIndex: nat)
  {
    exists k :: 0 <= k < SEED_ELEMENTS && Sample(p, h, SecretKey(seed, fromIndex, k)).None?
  }

  /** Some coefficient of the first `n` polynomials cannot be sampled. */
  ghost predicate CoefficientsExhausted(p: nat, h: Hasher, seed: Digest, fromIndex: nat, threshold: nat, n: nat)
  {
    exists e: nat, k: nat :: e < n && 1 <= k < threshold && Sample(p, h, CoeffKey(seed, fromIndex, e, k)).None?
  }

  ghost predicate Exhausted(p: nat, h: Hasher, seed: Digest, fromIndex: nat, threshold: nat)
  {
    SecretExhausted(p, h, seed, fromIndex) || CoefficientsExhausted(p, h, seed, fromIndex, threshold, SEED_ELEMENTS)
  }

  method SampleSecret(p: nat, h: Hasher, seed: Digest, fromIndex: nat) returns (r: Option<Values>)
    ensures r.Some? ==> forall k :: 0 <= k < SEED_ELEMENTS ==>
                                      Sample(p, h, SecretKey(seed, fromIndex, k)) == Some(r.value[k])
    ensures r.None? <==> SecretExhausted(p, h, seed, fromIndex)
  {
    var secret: seq<nat> := [];
    for k := 0 to SEED_ELEMENTS
      invariant |secret| == k
      invariant forall i :: 0 <= i < k ==> Sample(p, h, SecretKey(seed, fromIndex, i)) == Some(secret[i])
    {
      var v := SampleGoldilocks(p, Draws(h, SecretKey(seed, fromIndex, k)));
      if v.None? {
        return None;
      }
      secret := secret + [v.value];
    }
    r := Some(secret);
  }

  /** `ys[k][j - 1]` is the value at `j` of the polynomial for element `k`. */
  ghost predicate Evaluates(p: nat, d: seq<seq<nat>>, n: nat, ys: seq<seq<nat>>)
    requires p > 0
  {
    |ys| == |d| && forall k :: 0 <= k < |d| ==> IsColumn(p, d[k], n, ys[k])
  }

  ghost predicate IsColumn(p: nat, poly: seq<nat>, n: nat, column: seq<nat>)
    requires p > 0
  {
    |column| == n && forall j :: 1 <= j <= n ==> column[j - 1] == Eval(poly, j) % p
  }

  method SplitSecret(p: nat, h: Hasher, secret: Values, n: nat, threshold: nat, seed: Digest, fromIndex: nat)
    returns (r: Option<seq<seq<nat>>>, ghost d: seq<seq<nat>>)
    requires p > 1
    ensures r.Some? ==> |d| == SEED_ELEMENTS && Evaluates(p, d, n, r.value)
    ensures r.Some? ==> forall k :: 0 <= k < SEED_ELEMENTS ==>
                                      IsSharingPolynomial(p, h, seed, fromIndex, k, threshold, secret[k], d[k])
    ensures r.None? <==> CoefficientsExhausted(p, h, seed, fromIndex, threshold, SEED_ELEMENTS)
  {
    d := [];
    var ys: seq<seq<nat>> := [];
    for k := 0 to SEED_ELEMENTS
      invariant |d| == k && Evaluates(p, d, n, ys)
      invariant forall i :: 0 <= i < k ==> IsSharingPolynomial(p, h, seed, fromIndex, i, threshold, secret[i], d[i])
      invariant !CoefficientsExhausted(p, h, seed, fromIndex, threshold, k)
    {
      var column, poly := ShamirSplitY(p, h, secret[k], n, threshold, seed, fromIndex, k);
      if column.None? {
        return None, d;
      }
      ys, d := ys + [column.value], d + [poly];
    }
    r := Some(ys);
  }

  method BuildRows(p: nat, h: Hasher, ys: seq<seq<nat>>, n: nat, epoch: nat, fromIndex: nat, ghost d: Dealing)
    returns (rows: seq<ShareRow>, leaves: seq<Digest>)
    requires p > 0 && Evaluates(p, d, n, ys)
    ensures rows == RowsOf(p, d, n) && leaves == LeavesOf(h, epoch, fromIndex, rows)
  {
    rows, leaves := [], [];
    for j := 1 to n + 1
      invariant |rows| == j - 1 == |leaves|
      invariant forall i :: 0 <= i < j - 1 ==> rows[i] == RowFor(p, d, i + 1)
      invariant forall i :: 0 <= i < j - 1 ==> leaves[i] == LeafHash(h, epoch, fromIndex, rows[i])
    {
      var values := seq(SEED_ELEMENTS, k requires 0 <= k < SEED_ELEMENTS => ys[k][j - 1]);
      assert values == RowFor(p, d, j).values;
      var row := ShareRow(j, values);
      leaves := leaves + [LeafHash(h, epoch, fromIndex, row)];
      rows := rows + [row];
    }
  }

  /** Some recipient's key does not take an encapsulation. */
  ghost predicate CannotEncapsulate(kem: Kem, pks: seq<seq<byte>>, coins: nat -> nat)
  {
    exists i: nat :: i < |pks| && kem.encapsulate(pks[i], coins(i)).None?
  }

  method EncryptAll(h: Hasher, kem: Kem, rows: seq<ShareRow>, leaves: seq<Digest>, round: Round, pks: seq<seq<byte>>,
                    coins: nat -> nat)
    returns (r: Option<seq<(Envelope, MerkleProof)>>)
    requires |pks| == |rows| && leaves == LeavesOf(h, round.epoch, round.fromIndex, rows)
    ensures r.Some? ==> AllAddressed(h, kem, round, pks, coins, rows,
                                     CommittedRoot(h, leaves, round.epoch, round.fromIndex), r.value)
    ensures r.None? <==> CannotEncapsulate(kem, pks, coins)
  {
    var sent: seq<(Envelope, MerkleProof)> := [];
    ghost var root := CommittedRoot(h, leaves, round.epoch, round.fromIndex);
    for i := 0 to |rows|
      invariant |sent| == i
      invariant forall j :: 0 <= j < i ==> Addressed(h, kem, round, pks[j], coins(j), rows[j], root, j, sent[j])
      invariant forall j: nat :: j < i ==> kem.encapsulate(pks[j], coins(j)).Some?
    {
      var proof := GenerateMerkleProof(h, leaves, i, round.epoch, round.fromIndex);
      var e := EncryptShareRow(h, kem, rows[i], pks[i], coins(i), round.epoch, round.fromIndex);
      if e.None? {
        return None;
      }
      sent := sent + [(e.value, proof.value)];
      assert Addressed(h, kem, round, pks[i], coins(i), rows[i], root, i, (e.value, proof.value));
    }
    r := Some(sent);
  }

  method Deal(p: nat, h: Hasher, seed: Digest, round: Round) returns (r: Option<seq<seq<nat>>>, ghost d: Dealing)
    requires p > 1
    ensures r.Some? ==> IsDealing(p, h, seed, round.fromIndex, round.threshold, d) && Evaluates(p, d, round.n, r.value)
    ensures r.None? <==> Exhausted(p, h, seed, round.fromIndex, round.threshold)
  {
    d := seq(SEED_ELEMENTS, i => []);
    var secret := SampleSecret(p, h, seed, round.fromIndex);
    if secret.None? {
      return None, d;
    }
    var ys, polys := SplitSecret(p, h, secret.value, round.n, round.threshold, seed, round.fromIndex);
    if ys.None? {
      return None, d;
    }
    r, d := ys, polys;
  }

  /** The commitment to rows before it is signed. */
  ghost function Unsigned(h: Hasher, round: Round, rows: seq<ShareRow>): Commitment
  {
    Commitment(round.epoch, round.fromIndex, round.n, round.threshold,
               CommittedRoot(h, LeavesOf(h, round.epoch, round.fromIndex, rows), round.epoch, round.fromIndex), [])
  }

  ghost predicate CannotSign(h: Hasher, signer: Signer, round: Round, signKey: seq<byte>, rows: seq<ShareRow>)
  {
    signer.sign(signKey, CommitPreimage(Unsigned(h, round, rows))).None?
  }

  /** Commits to the rows, signs the commitment and encrypts every row; nothing here looks at the values. */
  method Publish(h: Hasher, kem: Kem, signer: Signer, round: Round, pks: seq<seq<byte>>, coins: nat -> nat,
                 signKey: seq<byte>, rows: seq<ShareRow>, leaves: seq<Digest>)
    returns (r: Result<Output, ContributeError>)
    requires 1 <= round.fromIndex <= round.n == |pks| == |rows| && leaves == LeavesOf(h, round.epoch, round.fromIndex, rows)
    ensures r.Ok? ==>
              && Publishes(h, kem, signer, round, pks, coins, signKey, rows, r.value)
              && r.value.ownRow == rows[round.fromIndex - 1] && r.value.ownProof == r.value.envelopes[round.fromIndex - 1].1
    ensures r.Err? <==> CannotSign(h, signer, round, signKey, rows) || CannotEncapsulate(kem, pks, coins)
    ensures r.Err? ==>
      r.error == if CannotSign(h, signer, round, signKey, rows) then SigningFailed else EncapsulationFailed
  {
    var root := ComputeMerkleRoot(h, leaves, round.epoch, round.fromIndex);
    var unsigned := Commitment(round.epoch, round.fromIndex, round.n, round.threshold, root, []);
    assert unsigned == Unsigned(h, round, rows);
    var signature := signer.sign(signKey, CommitPreimage(unsigned));
    if signature.None? {
      return Err(SigningFailed);
    }
    var sent := EncryptAll(h, kem, rows, leaves, round, pks, coins);
    if sent.None? {
      return Err(EncapsulationFailed);
    }
    var own := round.fromIndex - 1;
    r := Ok(Output(unsigned.(signature := signature.value), sent.value, rows[own], sent.value[own].1));
  }

  predicate ValidRound(round: Round, pks: seq<seq<byte>>)
  {
    1 <= round.fromIndex <= round.n && 1 <= round.threshold <= round.n && |pks| == round.n
  }

  /**
   A contribution, when one is produced, shares freshly sampled polynomials and delivers
   every row; each error has its cause and only that one, in the order they are checked.
   */
  method GenerateContribution(h: Hasher, p: nat, kem: Kem, signer: Signer, seed: Digest, round: Round,
                              pks: seq<seq<byte>>, coins: nat -> nat, signKey: seq<byte>)
    returns (r: Result<Output, ContributeError>, ghost d: Dealing)
    requires p > 1
    ensures r == Err(FromIndexOutOfRange) <==> !(1 <= round.fromIndex <= round.n)
    ensures r == Err(ThresholdOutOfRange) <==> 1 <= round.fromIndex <= round.n && !(1 <= round.threshold <= round.n)
    ensures r == Err(WrongKeyCount) <==>
      1 <= round.fromIndex <= round.n && 1 <= round.threshold <= round.n && |pks| != round.n
    ensures r == Err(SamplingExhausted) <==>
      ValidRound(round, pks) && Exhausted(p, h, seed, round.fromIndex, round.threshold)
    ensures r == Err(SigningFailed) ==> CannotSign(h, signer, round, signKey, RowsOf(p, d, round.n))
    ensures r == Err(EncapsulationFailed) ==> CannotEncapsulate(kem, pks, coins)
    ensures r.Ok? ==> !CannotSign(h, signer, round, signKey, RowsOf(p, d, round.n)) && !CannotEncapsulate(kem, pks, coins)
    ensures r.Ok? || r == Err(SigningFailed) || r == Err(EncapsulationFailed) ==>
              IsDealing(p, h, seed, round.fromIndex, round.threshold, d)
    ensures r.Ok? ==> Delivers(h, p, kem, signer, round, pks, coins, signKey, d, r.value)
  {
    d := seq(SEED_ELEMENTS, i => []);
    if round.fromIndex == 0 || round.fromIndex > round.n {
      return Err(FromIndexOutOfRange), d;
    }
    if round.threshold == 0 || round.threshold > round.n {
      return Err(ThresholdOutOfRange), d;
    }
    if |pks| != round.n {
      return Err(WrongKeyCount), d;
    }
    var ys, dealt := Deal(p, h, seed, round);
    if ys.None? {
      return Err(SamplingExhausted), d;
    }
    d := dealt;
    var rows, leaves := BuildRows(p, h, ys.value, round.n, round.epoch, round.fromIndex, d);
    RowAt(p, d, round.n, round.fromIndex);
    r := Publish(h, kem, signer, round, pks, coins, signKey, rows, leaves);
  }

  /**
   When every contributor of an arbitrary set deals honestly with the same threshold, any
   quorum of positions recovers the sum of the sampled secrets.
   */
  lemma {:induction false} HonestCeremonyRecovers(p: nat, h: Hasher, seeds: seq<Digest>, indices: seq<nat>, threshold: nat,
                                                  ds: seq<Dealing>, s: set<nat>, k: nat)
    requires IsPrime(p) && k < SEED_ELEMENTS && threshold >= 1 && |seeds| == |indices| == |ds|
    requires forall i :: 0 <= i < |ds| ==> IsDealing(p, h, seeds[i], indices[i], threshold, ds[i])
    requires |s| >= threshold && forall x :: x in s ==> x < p
    ensures DegreesBelow(ds, threshold)
    ensures AtZero(p, s, MasterValues(p, ds, k)) % p == MasterSecretOf(ds, k) % p
  {
    forall i, m | 0 <= i < |ds| && 0 <= m < SEED_ELEMENTS
      ensures 0 < |ds[i][m]| <= threshold
    {
      assert IsDealing(p, h, seeds[i], indices[i], threshold, ds[i]);
    }
    MasterSecretRecovered(p, ds, threshold, s, k);
  }
}
