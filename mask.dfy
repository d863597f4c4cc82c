/** The uniqueness mask (update/main.go:125, 161-166). It starts at 1 and
    only ever grows by `(mask << 1) | 1`, so it is always a run of low one
    bits, 2^k - 1 with k >= 1. */
module Mask {

  /** The initial mask. */
  const Initial: bv32 := 1

  /** One widening step: shift the mask left and set bit 0. Bit 0 is always
      set, and a mask of low ones keeps all its bits. */
  function Grow(m: bv32): (r: bv32)
    ensures r & 1 == 1
    ensures IsLowMask(m) ==> Within(m, r)
  {
    (m << 1) | 1
  }

  /** `m` is 2^k - 1 for some k (possibly 0): its set bits are exactly the low
      ones, so adding 1 carries through all of them and clears every set bit. */
  predicate IsLowMask(m: bv32) {
    m & (m + 1) == 0
  }

  /** The masks the generator can hold: 2^k - 1 with k >= 1. */
  predicate IsMask(m: bv32) {
    IsLowMask(m) && m != 0
  }

  /** The initial mask is one, and widening keeps a mask a mask. */
  lemma GrowIsMask(m: bv32)
    ensures IsMask(Initial)
    ensures IsLowMask(m) ==> IsMask(Grow(m))
  {
  }

  /** Widening strictly increases the mask until every bit is set, and then
      leaves it unchanged. */
  lemma GrowIncreases(m: bv32)
    requires IsLowMask(m)
    ensures m != 0xffff_ffff ==> m < Grow(m)
    ensures m == 0xffff_ffff ==> Grow(m) == m
    ensures m <= Grow(m)
  {
  }

  /** No mask lies strictly between a mask and its widening. */
  lemma NoMaskBetween(m: bv32, m': bv32)
    requires IsLowMask(m) && IsLowMask(m')
    requires m <= m' < Grow(m)
    ensures m' == m
  {
  }

  /** A mask below a wider one is still below it after one widening. */
  lemma GrowStaysBelow(m: bv32, w: bv32)
    requires IsLowMask(m) && IsLowMask(w) && m < w
    ensures Grow(m) <= w
  {
  }

  /** `a` and `b` differ in a bit of `m`: the mask tells them apart. */
  predicate Apart(a: bv32, b: bv32, m: bv32) {
    a & m != b & m
  }

  /** Hashes told apart by a mask stay apart under every wider mask. */
  lemma WidenKeepsApart(m: bv32, m': bv32, a: bv32, b: bv32)
    requires IsLowMask(m) && IsLowMask(m') && m <= m'
    requires Apart(a, b, m)
    ensures Apart(a, b, m')
  {
  }

  /** Under the full mask two different hashes stay different. */
  lemma FullMaskKeepsApart(a: bv32, b: bv32)
    requires a != b
    ensures Apart(a, b, 0xffff_ffff)
  {
  }

  /** Under the full mask only equal hashes collide. */
  lemma FullMaskSeparates(h: bv32, hs: set<bv32>)
    requires h !in hs
    ensures Separates(0xffff_ffff, h, hs)
  {
    forall x | x in hs
      ensures Apart(h, x, 0xffff_ffff)
    {
      FullMaskKeepsApart(h, x);
    }
  }

  /** `m` tells the new hash `h` apart from every stored hash in `hs`. */
  predicate Separates(m: bv32, h: bv32, hs: set<bv32>) {
    forall x :: x in hs ==> Apart(h, x, m)
  }

  /** The mask the widening loop stops at when it starts from `m`: widen until
      `h` is told apart from every stored hash, or until every bit is set. It is
      a function of the SET of stored hashes, so the order in which the Go map
      hands them out cannot change it. */
  function LeastMask(m: bv32, h: bv32, hs: set<bv32>): (r: bv32)
    requires IsLowMask(m)
    ensures IsLowMask(r) && Within(m, r)
    ensures m != 0 ==> r != 0
    decreases 0xffff_ffff - m
  {
    if m == 0xffff_ffff || Separates(m, h, hs) then m
    else
      GrowIncreases(m);
      GrowIsMask(m);
      LeastMask(Grow(m), h, hs)
  }

  /** When `h` differs from every stored hash, the loop's final mask separates it. */
  lemma {:induction false} LeastMaskSeparates(m: bv32, h: bv32, hs: set<bv32>)
    requires IsLowMask(m)
    requires h !in hs
    ensures Separates(LeastMask(m, h, hs), h, hs)
    decreases 0xffff_ffff - m
  {
    if m == 0xffff_ffff || Separates(m, h, hs) {
      LeastMaskStops(m, h, hs);
      if m == 0xffff_ffff {
        FullMaskSeparates(h, hs);
      }
    } else {
      GrowIncreases(m);
      GrowIsMask(m);
      LeastMaskSeparates(Grow(m), h, hs);
    }
  }

  /** The loop stops at once when the mask is already full or already separates. */
  lemma LeastMaskStops(m: bv32, h: bv32, hs: set<bv32>)
    requires IsLowMask(m)
    requires m == 0xffff_ffff || Separates(m, h, hs)
    ensures LeastMask(m, h, hs) == m
  {
  }

  /** Every mask from `m` up to, but not including, the loop's final mask fails
      to separate `h`: the final mask is the least one that works. */
  lemma {:induction false} BelowLeastMaskFails(m: bv32, m': bv32, h: bv32, hs: set<bv32>)
    requires IsLowMask(m) && IsLowMask(m')
    requires m <= m' < LeastMask(m, h, hs)
    ensures !Separates(m', h, hs)
    decreases 0xffff_ffff - m
  {
    if m == 0xffff_ffff || Separates(m, h, hs) {
      LeastMaskStops(m, h, hs);
    } else if m != m' {
      GrowIncreases(m);
      GrowIsMask(m);
      if m' < Grow(m) {
        NoMaskBetween(m, m');
      }
      BelowLeastMaskFails(Grow(m), m', h, hs);
    }
  }

  /** Conversely, a mask at or above `m` that separates `h`, while every
      narrower mask from `m` up fails, is exactly `LeastMask(m, h, hs)`. */
  lemma {:induction false} LeastMaskUnique(m: bv32, w: bv32, h: bv32, hs: set<bv32>)
    requires IsLowMask(m) && IsLowMask(w) && m <= w
    requires Separates(w, h, hs)
    requires forall m' :: IsLowMask(m') && m <= m' < w ==> !Separates(m', h, hs)
    ensures LeastMask(m, h, hs) == w
    decreases 0xffff_ffff - m
  {
    if m < w {
      assert !Separates(m, h, hs);
      GrowIncreases(m);
      GrowIsMask(m);
      GrowStaysBelow(m, w);
      LeastMaskUnique(Grow(m), w, h, hs);
    }
  }

  /** A mask that separates `h` from some hashes still does after widening. */
  lemma SeparatesAfterGrow(m: bv32, h: bv32, hs: set<bv32>)
    requires IsLowMask(m) && Separates(m, h, hs)
    ensures Separates(Grow(m), h, hs)
  {
    forall x | x in hs
      ensures Apart(h, x, Grow(m))
    {
      GrowKeepsApart(m, h, x);
    }
  }

  /** One widening step keeps apart what the mask told apart. */
  lemma GrowKeepsApart(m: bv32, a: bv32, b: bv32)
    requires IsLowMask(m)
    requires Apart(a, b, m)
    ensures Apart(a, b, Grow(m))
  {
  }

  /** Hashes already separated by the starting mask do not change where the
      widening stops. */
  lemma {:induction false} LeastMaskIgnoresSeparated(m: bv32, h: bv32, d: set<bv32>, e: set<bv32>)
    requires IsLowMask(m) && Separates(m, h, d)
    ensures LeastMask(m, h, e) == LeastMask(m, h, d + e)
    decreases 0xffff_ffff - m
  {
    if m == 0xffff_ffff || Separates(m, h, e) {
      LeastMaskStops(m, h, e);
      LeastMaskStops(m, h, d + e);
    } else {
      assert !Separates(m, h, d + e);
      GrowIncreases(m);
      GrowIsMask(m);
      SeparatesAfterGrow(m, h, d);
      LeastMaskIgnoresSeparated(Grow(m), h, d, e);
    }
  }

  /** Widening against `d` and then against `e` ends where widening against
      both at once does: the order in which the stored hashes are visited
      cannot change the final mask. */
  lemma {:induction false} LeastMaskCompose(m: bv32, h: bv32, d: set<bv32>, e: set<bv32>)
    requires IsLowMask(m)
    ensures LeastMask(LeastMask(m, h, d), h, e) == LeastMask(m, h, d + e)
    decreases 0xffff_ffff - m
  {
    if m == 0xffff_ffff {
      LeastMaskStops(m, h, d);
      LeastMaskStops(m, h, e);
      LeastMaskStops(m, h, d + e);
    } else if Separates(m, h, d) {
      LeastMaskStops(m, h, d);
      LeastMaskIgnoresSeparated(m, h, d, e);
    } else {
      assert !Separates(m, h, d + e);
      GrowIncreases(m);
      GrowIsMask(m);
      LeastMaskCompose(Grow(m), h, d, e);
    }
  }

  /** Every set bit of `a` is a set bit of `b`. */
  predicate Within(a: bv32, b: bv32) {
    a & b == a
  }

  /** A value ANDed with a mask lies within both. */
  lemma AndWithin(x: bv32, m: bv32)
    ensures Within(x & m, m) && Within(x & m, x)
  {
  }

  /** For masks, lying within is being at most. */
  lemma WithinIsBelow(a: bv32, b: bv32)
    requires IsLowMask(a) && IsLowMask(b)
    ensures Within(a, b) <==> a <= b
  {
  }

  /** Widening stops within any mask from `m` up that separates `h`. */
  lemma {:induction false} LeastMaskBelow(m: bv32, w: bv32, h: bv32, hs: set<bv32>)
    requires IsLowMask(m) && IsLowMask(w) && m <= w
    requires Separates(w, h, hs)
    ensures Within(LeastMask(m, h, hs), w)
    decreases 0xffff_ffff - m
  {
    if m == 0xffff_ffff || Separates(m, h, hs) {
      LeastMaskStops(m, h, hs);
      WithinIsBelow(m, w);
    } else {
      assert m != w;
      GrowIncreases(m);
      GrowIsMask(m);
      GrowStaysBelow(m, w);
      LeastMaskBelow(Grow(m), w, h, hs);
    }
  }

  /** `m` tells every two different hashes of `hs` apart. */
  predicate SeparatesAll(m: bv32, hs: set<bv32>) {
    forall a, b :: a in hs && b in hs && a != b ==> Apart(a, b, m)
  }

  /** Every mask the generator can hold contains the initial one. */
  lemma InitialIsLeast(w: bv32)
    requires IsMask(w)
    ensures Within(Initial, w)
  {
  }

  /** Two masks each within the other are the same mask. */
  lemma WithinAntisymmetric(a: bv32, b: bv32)
    requires Within(a, b) && Within(b, a)
    ensures a == b
  {
  }

  /** A stored hash equal to the new one collides under every mask, which is
      why the widening loop can never end in that case. */
  lemma FullCollisionNeverSeparates(h: bv32, hs: set<bv32>, m: bv32)
    requires h in hs
    ensures !Separates(m, h, hs)
  {
  }
}
