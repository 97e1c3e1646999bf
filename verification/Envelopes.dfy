/**
 Encrypted share envelopes: a key-encapsulation secret keys a hash keystream and a hash
 MAC, both bound to the round, the contributor and the recipient.
 */
module Envelopes {
  import opened Prelude
  import opened Bytes
  import opened Shamir
  import opened Merkle
  import opened Codecs

  const KEYSTREAM_DOMAIN: seq<byte> := Ascii("PYDE_DKG_AEAD_KS_V1\0")
  const MAC_DOMAIN: seq<byte> := Ascii("PYDE_DKG_AEAD_MAC_V1\0")

  /**
   The key-encapsulation mechanism: encapsulation consumes a public key and fresh
   randomness; either side may fail. Decapsulation also fails on malformed ciphertexts.
   */
  datatype Kem = Kem(encapsulate: (seq<byte>, nat) -> Option<(seq<byte>, Digest)>,
                     decapsulate: (seq<byte>, seq<byte>) -> Option<Digest>)

  /** Decapsulating with `sk` undoes encapsulating with `pk`. */
  ghost predicate KeyPair(kem: Kem, pk: seq<byte>, sk: seq<byte>)
  {
    forall coin: nat ::
      match kem.encapsulate(pk, coin)
      case None => true
      case Some((ct, secret)) => kem.decapsulate(sk, ct) == Some(secret)
  }

  /** What an envelope is bound to. */
  datatype Binding = Binding(secret: Digest, kemCiphertext: seq<byte>, epoch: nat, fromIndex: nat, recipient: nat)

  function BindingBytes(b: Binding): seq<byte>
  {
    b.secret + b.kemCiphertext + Le(b.epoch, 8) + Le(b.fromIndex, 4) + Le(b.recipient, 4)
  }

  function Block(h: Hasher, b: Binding, counter: nat): Digest
  {
    h(KEYSTREAM_DOMAIN + BindingBytes(b) + Le(counter, 8))
  }

  /** Byte `i` of the keystream comes from block `i / 32`. */
  function Keystream(h: Hasher, b: Binding, len: nat): (s: seq<byte>)
    ensures |s| == len
  {
    seq(len, i requires 0 <= i < len => Block(h, b, i / 32)[i % 32])
  }

  function MacInput(b: Binding, ciphertext: seq<byte>): seq<byte>
  {
    MAC_DOMAIN + BindingBytes(b) + ciphertext
  }

  function Mac(h: Hasher, b: Binding, ciphertext: seq<byte>): Digest
  {
    h(MacInput(b, ciphertext))
  }

  method DeriveKeystream(h: Hasher, b: Binding, len: nat) returns (out: seq<byte>)
    ensures out == Keystream(h, b, len)
  {
    out := [];
    var counter := 0;
    while |out| < len
      invariant |out| == 32 * counter
      invariant forall i :: 0 <= i < |out| ==> out[i] == Block(h, b, i / 32)[i % 32]
      decreases len - |out|
    {
      var block := Block(h, b, counter);
      out := out + block;
      counter := counter + 1;
    }
    out := out[..len];
  }

  /** Exclusive or of the low `n` bits. */
  function XorBits(a: nat, k: nat, n: nat): (r: nat)
    ensures r < Pow2(n)
  {
    if n == 0 then 0 else (if a % 2 == k % 2 then 0 else 1) + 2 * XorBits(a / 2, k / 2, n - 1)
  }

  function XorByte(a: byte, k: byte): byte
  {
    assert Pow2(8) == 256;
    XorBits(a, k, 8)
  }

  lemma {:induction false} XorBitsTwice(a: nat, k: nat, n: nat)
    requires a < Pow2(n)
    ensures XorBits(XorBits(a, k, n), k, n) == a
  {
    if n > 0 {
      var r := XorBits(a, k, n);
      assert r % 2 == (if a % 2 == k % 2 then 0 else 1) && r / 2 == XorBits(a / 2, k / 2, n - 1);
      XorBitsTwice(a / 2, k / 2, n - 1);
    }
  }

  function Xor(a: seq<byte>, k: seq<byte>): (s: seq<byte>)
    requires |a| == |k|
    ensures |s| == |a|
  {
    seq(|a|, i requires 0 <= i < |a| => XorByte(a[i], k[i]))
  }

  method XorBytes(a: seq<byte>, k: seq<byte>) returns (out: seq<byte>)
    requires |a| == |k|
    ensures out == Xor(a, k)
  {
    out := [];
    for i := 0 to |a|
      invariant |out| == i && forall j :: 0 <= j < i ==> out[j] == XorByte(a[j], k[j])
    {
      out := out + [XorByte(a[i], k[i])];
    }
  }

  lemma {:induction false} XorTwice(a: seq<byte>, k: seq<byte>)
    requires |a| == |k|
    ensures Xor(Xor(a, k), k) == a
  {
    forall i | 0 <= i < |a|
      ensures Xor(Xor(a, k), k)[i] == a[i]
    {
      assert Pow2(8) == 256;
      XorBitsTwice(a[i], k[i], 8);
    }
  }

  // ---------- Sealing and opening ----------

  function Sealed(h: Hasher, b: Binding, plaintext: seq<byte>): Envelope
  {
    var ciphertext := Xor(plaintext, Keystream(h, b, |plaintext|));
    Envelope(b.kemCiphertext, ciphertext, Mac(h, b, ciphertext))
  }

  predicate MacHolds(h: Hasher, b: Binding, e: Envelope)
  {
    Mac(h, b, e.ciphertext) == e.mac
  }

  function Plaintext(h: Hasher, b: Binding, e: Envelope): seq<byte>
  {
    Xor(e.ciphertext, Keystream(h, b, |e.ciphertext|))
  }

  /** Opening what was sealed under the same binding gives the plaintext back. */
  lemma {:induction false} OpenSealed(h: Hasher, b: Binding, plaintext: seq<byte>)
    ensures MacHolds(h, b, Sealed(h, b, plaintext)) && Plaintext(h, b, Sealed(h, b, plaintext)) == plaintext
  {
    XorTwice(plaintext, Keystream(h, b, |plaintext|));
  }

  predicate BindingFits(b: Binding)
  {
    b.epoch < U64 && b.fromIndex < U32 && b.recipient < U32
  }

  lemma {:induction false} BindingBytesInjective(b: Binding, b': Binding)
    requires BindingFits(b) && BindingFits(b') && |b.kemCiphertext| == |b'.kemCiphertext|
    requires BindingBytes(b) == BindingBytes(b')
    ensures b == b'
  {
    var x, y, k := BindingBytes(b), BindingBytes(b'), 32 + |b.kemCiphertext|;
    assert b.secret == x[..32] && b'.secret == y[..32];
    assert b.kemCiphertext == x[32..k] && b'.kemCiphertext == y[32..k];
    assert Le(b.epoch, 8) == x[k..k + 8] && Le(b'.epoch, 8) == y[k..k + 8];
    assert Le(b.fromIndex, 4) == x[k + 8..k + 12] && Le(b'.fromIndex, 4) == y[k + 8..k + 12];
    assert Le(b.recipient, 4) == x[k + 12..] && Le(b'.recipient, 4) == y[k + 12..];
    Pow256Widths();
    LeInjective(b.epoch, b'.epoch, 8);
    LeInjective(b.fromIndex, b'.fromIndex, 4);
    LeInjective(b.recipient, b'.recipient, 4);
  }

  /** An envelope's MAC holds for one round, contributor, recipient and secret only. */
  lemma {:induction false} MacFixesBinding(h: Hasher, b: Binding, b': Binding, e: Envelope)
    requires BindingFits(b) && BindingFits(b') && |b.kemCiphertext| == |b'.kemCiphertext|
    requires InjectiveOn(h, {MacInput(b, e.ciphertext), MacInput(b', e.ciphertext)})
    requires MacHolds(h, b, e) && MacHolds(h, b', e)
    ensures b == b'
  {
    var x, y, n, m := MacInput(b, e.ciphertext), MacInput(b', e.ciphertext), |MAC_DOMAIN|, |BindingBytes(b)|;
    assert x == y;
    assert BindingBytes(b) == x[n..n + m] && BindingBytes(b') == y[n..n + m];
    BindingBytesInjective(b, b');
  }

  const ZERO_SECRET: Digest := seq(32, i => 0)

  /** The recipient's secret; a fixed one stands in when decapsulation fails. */
  function RecoveredSecret(kem: Kem, sk: seq<byte>, ct: seq<byte>): Digest
  {
    match kem.decapsulate(sk, ct)
    case Some(secret) => secret
    case None => ZERO_SECRET
  }

  /** The row an envelope carries for `recipient` under a given secret. */
  function OpenWith(h: Hasher, p: nat, b: Binding, e: Envelope): Option<ShareRow>
  {
    if !MacHolds(h, b, e) then None
    else
      match RowFromBytes(p, Plaintext(h, b, e))
      case None => None
      case Some(row) => if row.receiver == b.recipient then Some(row) else None
  }

  function Decrypted(h: Hasher, p: nat, kem: Kem, e: Envelope, sk: seq<byte>, epoch: nat, fromIndex: nat,
                     expected: nat): Option<ShareRow>
  {
    OpenWith(h, p, Binding(RecoveredSecret(kem, sk, e.kemCiphertext), e.kemCiphertext, epoch, fromIndex, expected), e)
  }

  function Encrypted(h: Hasher, kem: Kem, row: ShareRow, pk: seq<byte>, coin: nat, epoch: nat, fromIndex: nat)
    : Option<Envelope>
  {
    match kem.encapsulate(pk, coin)
    case None => None
    case Some((ct, secret)) => Some(Sealed(h, Binding(secret, ct, epoch, fromIndex, row.receiver), RowBytes(row)))
  }

  method EncryptShareRow(h: Hasher, kem: Kem, row: ShareRow, pk: seq<byte>, coin: nat, epoch: nat, fromIndex: nat)
    returns (r: Option<Envelope>)
    ensures r == Encrypted(h, kem, row, pk, coin, epoch, fromIndex)
  {
    var capsule := kem.encapsulate(pk, coin);
    if capsule.None? {
      return None;
    }
    var (ct, secret) := capsule.value;
    var b := Binding(secret, ct, epoch, fromIndex, row.receiver);
    var plaintext := RowBytes(row);
    var keystream := DeriveKeystream(h, b, |plaintext|);
    var ciphertext := XorBytes(plaintext, keystream);
    r := Some(Envelope(ct, ciphertext, Mac(h, b, ciphertext)));
  }

  method DecryptShareRow(h: Hasher, p: nat, kem: Kem, e: Envelope, sk: seq<byte>, epoch: nat, fromIndex: nat,
                         expected: nat)
    returns (r: Option<ShareRow>)
    ensures r == Decrypted(h, p, kem, e, sk, epoch, fromIndex, expected)
  {
    var b := Binding(RecoveredSecret(kem, sk, e.kemCiphertext), e.kemCiphertext, epoch, fromIndex, expected);
    if Mac(h, b, e.ciphertext) != e.mac {
      return None;
    }
    var keystream := DeriveKeystream(h, b, |e.ciphertext|);
    var plaintext := XorBytes(e.ciphertext, keystream);
    var row := DecodeRow(p, plaintext);
    if row.None? || row.value.receiver != expected {
      return None;
    }
    return row;
  }

  /** The recipient of an envelope recovers the row that was encrypted. */
  lemma {:induction false} EnvelopeDelivers(h: Hasher, p: nat, kem: Kem, row: ShareRow, pk: seq<byte>, sk: seq<byte>,
                                            coin: nat, epoch: nat, fromIndex: nat)
    requires p <= U64 && Canonical(p, row.values) && row.receiver < U32 && KeyPair(kem, pk, sk)
    requires Encrypted(h, kem, row, pk, coin, epoch, fromIndex).Some?
    ensures Decrypted(h, p, kem, Encrypted(h, kem, row, pk, coin, epoch, fromIndex).value, sk, epoch, fromIndex,
                      row.receiver) == Some(row)
  {
    var (ct, secret) := kem.encapsulate(pk, coin).value;
    OpenSealed(h, Binding(secret, ct, epoch, fromIndex, row.receiver), RowBytes(row));
    RowRoundTrip(p, row);
  }
}
