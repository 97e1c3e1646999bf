/**
 Vocabulary shared by every component: failure types, the bounds of the machine
 integers the program uses, and cardinality facts about finite sets of indices.
 */
module Prelude {

  datatype Option<+T> = None | Some(value: T)

  datatype Result<+T, +E> = Ok(value: T) | Err(error: E)

  /** One more than `u32::MAX`. */
  const U32: nat := 0x1_0000_0000

  /** One more than `u64::MAX`. */
  const U64: nat := 0x1_0000_0000_0000_0000

  function Pow2(n: nat): (v: nat)
    ensures v >= 1
  {
    if n == 0 then 1 else 2 * Pow2(n - 1)
  }

  type u32 = x: int | 0 <= x < U32

  type u64 = x: int | 0 <= x < U64

  /** The indices `0 .. n`. */
  function Range(n: nat): (r: set<nat>)
    ensures forall i: nat :: i in r <==> i < n
  {
    if n == 0 then {} else Range(n - 1) + {n - 1}
  }

  lemma {:induction false} RangeSize(n: nat)
    ensures |Range(n)| == n
  {
    if n > 0 {
      RangeSize(n - 1);
    }
  }

  lemma {:induction false} SubsetSize<T>(a: set<T>, b: set<T>)
    requires a <= b
    ensures |a| <= |b|
  {
    assert b == a + (b - a);
  }

  /** Two subsets of `u` overlap at least as much as their sizes force them to. */
  lemma {:induction false} OverlapSize<T>(a: set<T>, b: set<T>, u: set<T>)
    requires a <= u && b <= u
    ensures |a * b| >= |a| + |b| - |u|
  {
    assert |a + b| == |a| + |b| - |a * b|;
    SubsetSize(a + b, u);
  }
}
