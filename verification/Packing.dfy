/**
 How byte strings enter the field hash: seven bytes per element, little-endian, and
 the length at the end.
 */
module Packing {
  import opened Prelude
  import opened Bytes

  /** 2^64 - 2^32 + 1 */
  const GOLDILOCKS: nat := 0xFFFF_FFFF_0000_0001

  /** No byte slice is longer than `isize::MAX`. */
  const MAX_LEN: nat := 0x7FFF_FFFF_FFFF_FFFF

  /** The bytes at the bottom of an eight-byte buffer of zeros, read as a number and taken into the field. */
  function Element(chunk: seq<byte>): nat
    requires |chunk| <= 7
  {
    FromLe(chunk + seq(8 - |chunk|, i => 0)) % GOLDILOCKS
  }

  function Chunks(data: seq<byte>): seq<nat>
  {
    if |data| <= 7 then [Element(data)] else [Element(data[..7])] + Chunks(data[7..])
  }

  function Elements(data: seq<byte>): seq<nat>
  {
    if data == [] then [0] else Chunks(data) + [|data| % GOLDILOCKS]
  }

  method BytesToElements(data: seq<byte>) returns (elements: seq<nat>)
    ensures elements == Elements(data)
  {
    if data == [] {
      return [0];
    }
    elements := [];
    var pos := 0;
    while pos < |data|
      invariant 0 <= pos <= |data|
      invariant if pos < |data| then elements + Chunks(data[pos..]) == Chunks(data) else elements == Chunks(data)
    {
      var rest := data[pos..];
      var chunk := if |rest| < 7 then rest else rest[..7];
      assert |rest| > 7 ==> rest[7..] == data[pos + 7..];
      assert |rest| == 7 ==> rest[..7] == rest;
      elements := elements + [Element(chunk)];
      pos := pos + |chunk|;
    }
    elements := elements + [|data| % GOLDILOCKS];
  }

  lemma {:induction false} ZeroPadding(chunk: seq<byte>, zeros: nat)
    ensures FromLe(chunk + seq(zeros, i => 0)) == FromLe(chunk)
  {
    var padded := chunk + seq(zeros, i => 0);
    if chunk == [] {
      if zeros > 0 {
        assert padded[1..] == [] + seq(zeros - 1, i => 0);
        ZeroPadding([], zeros - 1);
      }
    } else {
      assert padded[1..] == chunk[1..] + seq(zeros, i => 0);
      ZeroPadding(chunk[1..], zeros);
    }
  }

  /** A chunk is its own field element: nothing is reduced, and the element gives the bytes back. */
  lemma {:induction false} ElementIsChunk(chunk: seq<byte>)
    requires |chunk| <= 7
    ensures Element(chunk) == FromLe(chunk) < GOLDILOCKS
    ensures Le(Element(chunk), |chunk|) == chunk
  {
    ZeroPadding(chunk, 8 - |chunk|);
    FromLeBound(chunk);
    WidthGrows(|chunk|, 7);
    Pow256Widths();
    LeOfFromLe(chunk);
  }

  lemma {:induction false} WidthGrows(a: nat, b: nat)
    requires a <= b
    ensures Pow256(a) <= Pow256(b)
  {
    if a < b {
      WidthGrows(a, b - 1);
    }
  }

  lemma {:induction false} ChunksInjective(a: seq<byte>, b: seq<byte>)
    requires |a| == |b| && Chunks(a) == Chunks(b)
    ensures a == b
  {
    if |a| <= 7 {
      assert Chunks(a)[0] == Chunks(b)[0];
      ElementIsChunk(a);
      ElementIsChunk(b);
    } else {
      ElementIsChunk(a[..7]);
      ElementIsChunk(b[..7]);
      assert Chunks(a)[0] == Chunks(b)[0];
      assert Chunks(a)[1..] == Chunks(a[7..]) && Chunks(b)[1..] == Chunks(b[7..]);
      ChunksInjective(a[7..], b[7..]);
      assert a == a[..7] + a[7..] && b == b[..7] + b[7..];
    }
  }

  /** Different byte strings, the empty one included, enter the hash as different element sequences. */
  lemma {:induction false} ElementsInjective(a: seq<byte>, b: seq<byte>)
    requires |a| <= MAX_LEN && |b| <= MAX_LEN
    requires Elements(a) == Elements(b)
    ensures a == b
  {
    if a != [] && b != [] {
      var m, n := |Chunks(a)|, |Chunks(b)|;
      assert Elements(a)[m] == |a| && Elements(b)[n] == |b|;
      assert m == n;
      assert Elements(a)[..m] == Chunks(a) && Elements(b)[..m] == Chunks(b);
      ChunksInjective(a, b);
    }
  }
}
