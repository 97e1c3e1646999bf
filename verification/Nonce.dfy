/**
 The nonce window: a 64-bit base and a 16-bit bitmap standing for the set of nonces
 an account has consumed.
 */
module Nonce {
  import opened Prelude

  const WINDOW: nat := 16

  datatype NonceError = BelowWindow | AboveWindow | AlreadyUsed

  type u16 = x: int | 0 <= x < 0x1_0000

  datatype Window = Window(base: u64, used: u16)

  /** `u & (1 << bit) != 0` */
  predicate BitSet(u: nat, bit: nat)
    decreases bit
  {
    if bit == 0 then u % 2 == 1 else BitSet(u / 2, bit - 1)
  }

  /** `u | (1 << bit)` */
  function WithBit(u: nat, bit: nat): nat
  {
    if BitSet(u, bit) then u else u + Pow2(bit)
  }

  /** The set the window stands for: everything below the base, and the marked nonces above it. */
  predicate Consumed(w: Window, n: u64)
  {
    n < w.base || (n < w.base + WINDOW && BitSet(w.used, n - w.base))
  }

  predicate InWindow(w: Window, n: u64)
  {
    w.base <= n < w.base + WINDOW
  }

  // ---------- Bit facts ----------

  lemma {:induction false} WithBitSets(u: nat, b: nat, c: nat)
    ensures BitSet(WithBit(u, b), c) <==> b == c || BitSet(u, c)
    decreases c
  {
    if b > 0 && !BitSet(u, b) {
      assert (u + Pow2(b)) / 2 == u / 2 + Pow2(b - 1) && (u + Pow2(b)) % 2 == u % 2;
    }
    if c > 0 && b > 0 {
      WithBitSets(u / 2, b - 1, c - 1);
    }
  }

  /** Bits past the width of a number are clear, and setting one inside the width stays inside. */
  lemma {:induction false} WidthBound(u: nat, b: nat, width: nat)
    requires u < Pow2(width)
    ensures b >= width ==> !BitSet(u, b)
    ensures b < width ==> WithBit(u, b) < Pow2(width)
    decreases width
  {
    if width == 0 {
      ZeroBits(b);
    } else if b > 0 {
      WidthBound(u / 2, b - 1, width - 1);
    }
  }

  lemma {:induction false} ZeroBits(b: nat)
    ensures !BitSet(0, b)
  {
    if b > 0 {
      ZeroBits(b - 1);
    }
  }

  lemma {:induction false} SixteenBits(u: u16, b: nat)
    ensures b >= 16 ==> !BitSet(u, b)
    ensures b < 16 ==> WithBit(u, b) < 0x1_0000
  {
    assert Pow2(8) == 0x100;
    assert Pow2(12) == 0x1000;
    assert Pow2(16) == 0x1_0000;
    WidthBound(u, b, 16);
  }

  // ---------- The operations on values ----------

  /** The bit to set for `n`. The upper bound is dropped when `base + 16` does not fit in 64 bits. */
  function Validated(w: Window, n: u64): (r: Result<nat, NonceError>)
    ensures r.Ok? <==> InWindow(w, n) && !Consumed(w, n)
    ensures r.Ok? ==> r.value == n - w.base
    ensures r == Err(BelowWindow) <==> n < w.base
    ensures r == Err(AlreadyUsed) <==> InWindow(w, n) && Consumed(w, n)
  {
    if n < w.base then Err(BelowWindow)
    else if w.base + WINDOW < U64 && n >= w.base + WINDOW then Err(AboveWindow)
    else if BitSet(w.used, n - w.base) then Err(AlreadyUsed)
    else Ok(n - w.base)
  }

  function Marked(w: Window, bit: nat): Window
    requires bit < 16
  {
    SixteenBits(w.used, bit);
    w.(used := WithBit(w.used, bit))
  }

  function Slid(w: Window): Window
    requires w.base + 1 < U64
  {
    Window(w.base + 1, w.used / 2)
  }

  /** Slide past consumed nonces at the base, stopping for good at the last 64-bit nonce. */
  function Advanced(w: Window): (r: Window)
    decreases U64 - w.base
  {
    if w.used % 2 == 1 && w.base + 1 < U64 then Advanced(Slid(w)) else w
  }

  function NonceUsed(w: Window, n: u64): (r: (Window, Result<(), NonceError>))
  {
    match Validated(w, n)
    case Err(e) => (w, Err(e))
    case Ok(bit) => (Advanced(Marked(w, bit)), Ok(()))
  }

  lemma {:induction false} MarkedConsumes(w: Window, n: u64, m: u64)
    requires InWindow(w, n)
    ensures Consumed(Marked(w, n - w.base), m) <==> m == n || Consumed(w, m)
  {
    if InWindow(w, m) {
      WithBitSets(w.used, n - w.base, m - w.base);
    }
  }

  lemma {:induction false} SlidConsumes(w: Window, m: u64)
    requires w.base + 1 < U64 && w.used % 2 == 1
    ensures Consumed(Slid(w), m) <==> Consumed(w, m)
  {
    if w.base < m <= w.base + WINDOW {
      SixteenBits(w.used, m - w.base);
    }
  }

  /** Advancing forgets and invents nothing, and leaves a base that is free or is the last nonce there is. */
  lemma {:induction false} AdvancedConsumes(w: Window, m: u64)
    ensures Consumed(Advanced(w), m) <==> Consumed(w, m)
    ensures BitSet(Advanced(w).used, 0) ==> Advanced(w).base == U64 - 1
    decreases U64 - w.base
  {
    if w.used % 2 == 1 && w.base + 1 < U64 {
      SlidConsumes(w, m);
      AdvancedConsumes(Slid(w), m);
    }
  }

  /** One call adds exactly the accepted nonce to the set, and nothing otherwise. */
  lemma {:induction false} NonceUsedRefinesSet(w: Window, n: u64, m: u64)
    ensures NonceUsed(w, n).1.Ok? <==> InWindow(w, n) && !Consumed(w, n)
    ensures Consumed(NonceUsed(w, n).0, m) <==> Consumed(w, m) || (NonceUsed(w, n).1.Ok? && m == n)
  {
    if NonceUsed(w, n).1.Ok? {
      MarkedConsumes(w, n, m);
      AdvancedConsumes(Marked(w, n - w.base), m);
    }
  }

  // ---------- The account's nonce state ----------

  class NonceState {
    var base: u64
    var used: u16

    ghost function Value(): Window
      reads this
    {
      Window(base, used)
    }

    constructor WithBase(base: u64)
      ensures Value() == Window(base, 0)
    {
      this.base, used := base, 0;
    }

    method Validate(nonce: u64) returns (r: Result<nat, NonceError>)
      ensures r == Validated(Value(), nonce)
    {
      if nonce < base {
        return Err(BelowWindow);
      }
      if base + WINDOW < U64 {
        if nonce >= base + WINDOW {
          return Err(AboveWindow);
        }
      }
      var bit := nonce - base;
      if BitSet(used, bit) {
        return Err(AlreadyUsed);
      }
      r := Ok(bit);
    }

    method UseNonce(nonce: u64) returns (r: Result<(), NonceError>)
      modifies this
      ensures (Value(), r) == NonceUsed(old(Value()), nonce)
    {
      var bit := Validate(nonce);
      if bit.Err? {
        return Err(bit.error);
      }
      SixteenBits(used, bit.value);
      used := WithBit(used, bit.value);
      Advance();
      r := Ok(());
    }

    method Advance()
      modifies this
      ensures Value() == Advanced(old(Value()))
    {
      while used % 2 == 1
        invariant Advanced(Value()) == Advanced(old(Value()))
        decreases U64 - base
      {
        if base + 1 < U64 {
          used := used / 2;
          base := base + 1;
        } else {
          break;
        }
      }
    }
  }

  // ---------- Runs ----------

  /** The window and the accepted nonces, in order, after a sequence of requests from a fresh account. */
  function Replay(start: u64, requests: seq<u64>): (Window, seq<u64>)
  {
    if requests == [] then (Window(start, 0), [])
    else
      var (w, accepted) := Replay(start, requests[..|requests| - 1]);
      var n := requests[|requests| - 1];
      var (w', r) := NonceUsed(w, n);
      (w', if r.Ok? then accepted + [n] else accepted)
  }

  lemma {:induction false} FreshWindow(start: u64, m: u64)
    ensures Consumed(Window(start, 0), m) <==> m < start
  {
    if start <= m {
      ZeroBits(m - start);
    }
  }

  /** The bitmap is the set: a nonce is consumed exactly if it is below the start or was accepted in the run. */
  lemma {:induction false} WindowIsAcceptedSet(start: u64, requests: seq<u64>, m: u64)
    ensures var (w, accepted) := Replay(start, requests);
            Consumed(w, m) <==> m < start || m in accepted
  {
    if requests == [] {
      FreshWindow(start, m);
    } else {
      var k := |requests| - 1;
      WindowIsAcceptedSet(start, requests[..k], m);
      NonceUsedRefinesSet(Replay(start, requests[..k]).0, requests[k], m);
    }
  }

  /** No nonce is ever accepted twice. */
  lemma {:induction false} NoReplay(start: u64, requests: seq<u64>)
    ensures var accepted := Replay(start, requests).1;
            forall i, j :: 0 <= i < j < |accepted| ==> accepted[i] != accepted[j]
  {
    if requests != [] {
      var k := |requests| - 1;
      NoReplay(start, requests[..k]);
      WindowIsAcceptedSet(start, requests[..k], requests[k]);
      NonceUsedRefinesSet(Replay(start, requests[..k]).0, requests[k], requests[k]);
    }
  }

  /**
   The base is the least unused nonce after every run, so the account can always
   continue with it, until every nonce up to `u64::MAX` is gone.
   */
  lemma {:induction false} BaseIsLeastUnused(start: u64, requests: seq<u64>)
    ensures var w := Replay(start, requests).0;
            && (forall m: u64 :: m < w.base ==> Consumed(w, m))
            && (|| (!Consumed(w, w.base) && NonceUsed(w, w.base).1.Ok?)
                || (w.base == U64 - 1 && forall m: u64 :: Consumed(w, m)))
  {
    var w := Replay(start, requests).0;
    if requests == [] {
      FreshWindow(start, start);
    } else {
      var k := |requests| - 1;
      BaseIsLeastUnused(start, requests[..k]);
      var before := Replay(start, requests[..k]).0;
      var r := Validated(before, requests[k]);
      if r.Ok? {
        AdvancedConsumes(Marked(before, r.value), requests[k]);
      }
    }
  }
}
