/**
 What a block hash commits to: headers, the certificate digest inside them, and the
 fallback proof that carries a proposal's view.
 */
module Headers {
  import opened Prelude
  import opened Bytes
  import opened Certificates

  datatype Header = Header(slot: u64, epoch: u64, parentHash: Digest, proposer: Digest, vrfProof: seq<byte>,
                           qcPrevious: QuorumCert, txRoot: Digest, stateRoot: Digest, timestamp: u64)

  // ---------- Certificate digest ----------

  /** Bits `i .. i + n` of the bitmap as a number, lowest bit first. */
  function BitsFrom(b: Bitmap, i: nat, n: nat): (v: nat)
    ensures v < Pow2(n)
    decreases n
  {
    if n == 0 then 0 else (if i in b then 1 else 0) + 2 * BitsFrom(b, i + 1, n - 1)
  }

  /** Byte `k` of the bitmap's little-endian form. */
  function BitmapByte(b: Bitmap, k: nat): (v: nat)
    ensures v < 256
  {
    assert Pow2(8) == 256;
    BitsFrom(b, 8 * k, 8)
  }

  function BitmapBytes(b: Bitmap): (s: seq<byte>)
    ensures |s| == 16
  {
    seq(16, k requires 0 <= k < 16 => BitmapByte(b, k))
  }

  lemma {:induction false} BitmapBytesInjective(a: Bitmap, b: Bitmap)
    requires BitmapBytes(a) == BitmapBytes(b)
    ensures a == b
  {
    forall i: nat
      ensures i in a <==> i in b
    {
      if i < 128 {
        var k := i / 8;
        assert BitmapBytes(a)[k] == BitmapByte(a, k) && BitmapBytes(b)[k] == BitmapByte(b, k);
        assert BitmapByte(a, k) == BitmapByte(b, k);
        assert i == 8 * k + i % 8;
        SameBits(a, b, 8 * k, 8, i);
      }
    }
  }

  lemma {:induction false} SameBits(a: Bitmap, b: Bitmap, i: nat, n: nat, j: nat)
    requires BitsFrom(a, i, n) == BitsFrom(b, i, n) && i <= j < i + n
    ensures j in a <==> j in b
    decreases n
  {
    assert BitsFrom(a, i, n) % 2 == (if i in a then 1 else 0);
    assert BitsFrom(b, i, n) % 2 == (if i in b then 1 else 0);
    if i < j {
      SameBits(a, b, i + 1, n - 1, j);
    }
  }

  /** The certificate's digest input; the signatures are not part of it. */
  function QcPreimage(qc: QuorumCert): (s: seq<byte>)
    ensures |s| == 56
  {
    Le(qc.slot, 8) + qc.blockHash + BitmapBytes(qc.bitmap)
  }

  lemma {:induction false} QcPreimageInjective(a: QuorumCert, b: QuorumCert)
    requires QcPreimage(a) == QcPreimage(b)
    ensures a.slot == b.slot && a.blockHash == b.blockHash && a.bitmap == b.bitmap
  {
    var s, t := QcPreimage(a), QcPreimage(b);
    assert s[..8] == Le(a.slot, 8) && t[..8] == Le(b.slot, 8);
    assert s[8..40] == a.blockHash && t[8..40] == b.blockHash;
    assert s[40..] == BitmapBytes(a.bitmap) && t[40..] == BitmapBytes(b.bitmap);
    Pow256Widths();
    LeInjective(a.slot, b.slot, 8);
    BitmapBytesInjective(a.bitmap, b.bitmap);
  }

  // ---------- Block hash ----------

  /** Everything in the header except the state root; the certificate and the proof go in hashed. */
  function HeaderPreimage(h: Hasher, hd: Header): (s: seq<byte>)
    ensures |s| == 184
  {
    Le(hd.slot, 8) + Le(hd.epoch, 8) + hd.parentHash + hd.proposer + h(hd.vrfProof) + hd.txRoot
    + Le(hd.timestamp, 8) + h(QcPreimage(hd.qcPrevious))
  }

  function BlockHash(h: Hasher, hd: Header): Digest
  {
    h(HeaderPreimage(h, hd))
  }

  /** What hashing the header feeds to the hash function along the way to its slot and its view. */
  function HashInputs(h: Hasher, hd: Header): set<seq<byte>>
  {
    {HeaderPreimage(h, hd), hd.vrfProof}
  }

  /** A block hash fixes the slot and the proof bytes, hence the proposal's view. */
  lemma {:induction false} BlockHashFixesView(h: Hasher, a: Header, b: Header)
    requires InjectiveOn(h, HashInputs(h, a) + HashInputs(h, b))
    requires BlockHash(h, a) == BlockHash(h, b)
    ensures a.slot == b.slot && a.vrfProof == b.vrfProof && ProposalView(a) == ProposalView(b)
  {
    var s, t := HeaderPreimage(h, a), HeaderPreimage(h, b);
    assert s == t;
    assert s[..8] == Le(a.slot, 8) && t[..8] == Le(b.slot, 8);
    assert s[80..112] == h(a.vrfProof) && t[80..112] == h(b.vrfProof);
    Pow256Widths();
    LeInjective(a.slot, b.slot, 8);
  }

  // ---------- Fallback proofs ----------

  const FALLBACK_MARKER: seq<byte> := Ascii("FALLBACK")

  function EncodeFallbackProof(vcSlot: u64, view: u64): seq<byte>
  {
    FALLBACK_MARKER + Le(vcSlot, 8) + Le(view, 8)
  }

  function DecodeFallbackProof(proof: seq<byte>): (r: Option<(u64, u64)>)
  {
    if |proof| < 8 || proof[..8] != FALLBACK_MARKER then None
    else if |proof| < 24 then None
    else Some((ReadU64(proof[8..16]), ReadU64(proof[16..24])))
  }

  /** A happy-path proposal carries raw VRF bytes and is at view 0. */
  function ProposalView(hd: Header): u64
  {
    match DecodeFallbackProof(hd.vrfProof)
    case Some((_, v)) => v
    case None => 0
  }

  /**
   A decoded proof is the encoding of what it decodes to, up to trailing bytes,
   and encoding then decoding loses nothing.
   */
  lemma {:induction false} FallbackProofRoundTrip(vcSlot: u64, view: u64, tail: seq<byte>, proof: seq<byte>)
    ensures DecodeFallbackProof(EncodeFallbackProof(vcSlot, view) + tail) == Some((vcSlot, view))
    ensures DecodeFallbackProof(proof).Some? ==>
              var (s, v) := DecodeFallbackProof(proof).value;
              EncodeFallbackProof(s, v) <= proof
  {
    FallbackDecodes(vcSlot, view, tail);
    if DecodeFallbackProof(proof).Some? {
      assert proof[..24] == proof[..8] + proof[8..16] + proof[16..24];
    }
  }

  lemma {:induction false} FallbackDecodes(vcSlot: u64, view: u64, tail: seq<byte>)
    ensures DecodeFallbackProof(EncodeFallbackProof(vcSlot, view) + tail) == Some((vcSlot, view))
  {
    var full := EncodeFallbackProof(vcSlot, view) + tail;
    assert full[..8] == FALLBACK_MARKER && full[8..16] == Le(vcSlot, 8) && full[16..24] == Le(view, 8);
    ReadBack(vcSlot, 0);
    ReadBack(view, 0);
  }
}
