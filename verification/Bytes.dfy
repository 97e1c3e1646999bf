/**
 Byte strings, the little-endian codecs behind every `to_le_bytes`, and hash
 functions on byte strings.
 */
module Bytes {
  import opened Prelude

  type byte = x: int | 0 <= x < 256

  /** A domain tag, as bytes. */
  function Ascii(s: string): (b: seq<byte>)
    ensures |b| == |s|
  {
    seq(|s|, i requires 0 <= i < |s| => s[i] as int % 256)
  }

  /** A 32-byte hash output. */
  type Digest = s: seq<byte> | |s| == 32 witness seq(32, i => 0)

  /** Poseidon2 as the program uses it: some function from byte strings to digests. */
  type Hasher = seq<byte> -> Digest

  /** No two of the inputs in `s` collide under `h`. */
  ghost predicate InjectiveOn(h: Hasher, s: set<seq<byte>>)
  {
    forall x, y :: x in s && y in s && h(x) == h(y) ==> x == y
  }

  function Pow256(k: nat): (v: nat)
    ensures v >= 1
  {
    if k == 0 then 1 else 256 * Pow256(k - 1)
  }

  lemma Pow256Widths()
    ensures Pow256(4) == U32 && Pow256(7) == 0x100_0000_0000_0000 && Pow256(8) == U64
  {
    assert Pow256(4) == 256 * 256 * 256 * 256;
    assert Pow256(7) == 256 * 256 * 256 * Pow256(4);
  }

  /** The low `k` bytes of `x`, least significant first: `(x as uN).to_le_bytes()`. */
  function Le(x: nat, k: nat): (s: seq<byte>)
    ensures |s| == k
  {
    if k == 0 then [] else [x % 256] + Le(x / 256, k - 1)
  }

  function FromLe(s: seq<byte>): nat
  {
    if s == [] then 0 else s[0] + 256 * FromLe(s[1..])
  }

  lemma {:induction false} FromLeBound(s: seq<byte>)
    ensures FromLe(s) < Pow256(|s|)
  {
    if s != [] {
      FromLeBound(s[1..]);
    }
  }

  /** Reading back what was written recovers every number that fits the width. */
  lemma {:induction false} FromLeOfLe(x: nat, k: nat)
    requires x < Pow256(k)
    ensures FromLe(Le(x, k)) == x
  {
    if k > 0 {
      FromLeOfLe(x / 256, k - 1);
      assert Le(x, k)[1..] == Le(x / 256, k - 1);
    }
  }

  /** Writing what was read recovers the bytes. */
  lemma {:induction false} LeOfFromLe(s: seq<byte>)
    ensures Le(FromLe(s), |s|) == s
  {
    if s != [] {
      LeOfFromLe(s[1..]);
      assert FromLe(s) % 256 == s[0] && FromLe(s) / 256 == FromLe(s[1..]);
      assert s == [s[0]] + s[1..];
    }
  }

  lemma {:induction false} LeInjective(x: nat, y: nat, k: nat)
    requires x < Pow256(k) && y < Pow256(k) && Le(x, k) == Le(y, k)
    ensures x == y
  {
    FromLeOfLe(x, k);
    FromLeOfLe(y, k);
  }

  function ReadU32(s: seq<byte>): (v: u32)
    requires |s| == 4
    ensures Le(v, 4) == s
  {
    FromLeBound(s);
    Pow256Widths();
    LeOfFromLe(s);
    FromLe(s)
  }

  function ReadU64(s: seq<byte>): (v: u64)
    requires |s| == 8
    ensures Le(v, 8) == s
  {
    FromLeBound(s);
    Pow256Widths();
    LeOfFromLe(s);
    FromLe(s)
  }

  lemma {:induction false} ReadBack(x: u64, y: u32)
    ensures ReadU64(Le(x, 8)) == x && ReadU32(Le(y, 4)) == y
  {
    Pow256Widths();
    FromLeOfLe(x, 8);
    FromLeOfLe(y, 4);
  }

  /** The middle of three joined pieces. */
  lemma {:induction false} Middle<T>(before: seq<T>, piece: seq<T>, after: seq<T>)
    ensures (before + piece + after)[|before|..|before| + |piece|] == piece
  {
  }
}
