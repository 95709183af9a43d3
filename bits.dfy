/**
 * The `uint64_t` bit tricks of `glt::next_pow2` and `glt::is_pow2`, on
 * `bv64` so that wrap-around is the machine's.
 */
module Bits {
  const TopBit: bv64 := 0x8000_0000_0000_0000

  /** `is_pow2(x)`: non-zero, and clearing the lowest set bit leaves nothing. */
  predicate IsPow2(x: bv64) {
    x != 0 && x & (x - 1) == 0
  }

  /** 2 to the power `k`. */
  function Pow2(k: bv64): bv64
    requires k < 64
  {
    1 << k
  }

  lemma Pow2IsPow2(k: bv64)
    requires k < 64
    ensures IsPow2(Pow2(k))
  {
  }

  lemma Pow2Step(k: bv64)
    requires k < 63
    ensures Pow2(k + 1) == Pow2(k) << 1
  {
  }

  lemma Pow2Last()
    ensures Pow2(63) == TopBit
  {
  }

  /** A power of two below another one is at most half of it. */
  lemma Double(x: bv64, p: bv64)
    requires IsPow2(x) && IsPow2(p) && p < x
    ensures p < TopBit && p << 1 <= x
  {
  }

  /** One step up the powers of two below a power of two `x`. */
  lemma PowerStep(x: bv64, k: bv64)
    requires IsPow2(x) && k < 64 && Pow2(k) <= x && Pow2(k) != x
    ensures k < 63 && Pow2(k + 1) <= x
  {
    Pow2IsPow2(k);
    Double(x, Pow2(k));
    Pow2Last();
    assert k != 63;
    Pow2Step(k);
  }

  /** Climbing from 2^k, a power of two `x` is met on the way. */
  lemma {:induction false} PowerFrom(x: bv64, k: bv64)
    requires IsPow2(x) && k < 64 && Pow2(k) <= x
    ensures exists j: bv64 | k <= j < 64 :: x == Pow2(j)
    decreases 64 - k
  {
    if Pow2(k) != x {
      PowerStep(x, k);
      PowerFrom(x, k + 1);
    }
  }

  /** `is_pow2` holds exactly of the 64 powers of two; in particular not of 0. */
  lemma IsPow2Exact(x: bv64)
    ensures IsPow2(x) <==> exists k: bv64 | k < 64 :: x == Pow2(k)
    ensures !IsPow2(0)
  {
    if IsPow2(x) {
      PowerFrom(x, 0);
    } else if exists k: bv64 | k < 64 :: x == Pow2(k) {
      var k: bv64 :| k < 64 && x == Pow2(k);
      Pow2IsPow2(k);
    }
  }

  /** The six `x |= x >> 2^i` steps: every bit below the highest set bit becomes set. */
  function Smear(y: bv64): bv64 {
    var a := y | (y >> 1);
    var b := a | (a >> 2);
    var c := b | (b >> 4);
    var d := c | (c >> 8);
    var e := d | (d >> 16);
    e | (e >> 32)
  }

  /** `next_pow2(x)`: smear `x - 1` and add one, wrapping as `uint64_t` does. */
  function NextPow2(x: bv64): bv64 {
    Smear(x - 1) + 1
  }

  /** Half of one more than the smear of `y`: the highest set bit of `y`. */
  function Half(y: bv64): bv64 {
    (Smear(y) + 1) >> 1
  }

  /** One less than the rounded value covers every bit of `x - 1`. */
  lemma RoundCovers(x: bv64, r: bv64)
    requires r == NextPow2(x)
    ensures (x - 1) & !(r - 1) == 0
  {
  }

  /** The rounded value is a single bit, or zero. */
  lemma RoundIsBit(x: bv64, r: bv64)
    requires x <= TopBit && r == NextPow2(x)
    ensures r & (r - 1) == 0
  {
  }

  /** The rounded value is not zero while the answer fits. */
  lemma RoundNonZero(x: bv64, r: bv64)
    requires x != 0 && x <= TopBit && r == NextPow2(x)
    ensures r != 0
  {
  }

  /** A non-zero bit `r` such that `r - 1` covers `x - 1` is at least `x`. */
  lemma CoverIsAbove(x: bv64, r: bv64)
    requires x != 0 && r != 0 && r & (r - 1) == 0 && (x - 1) & !(r - 1) == 0
    ensures x <= r
  {
  }

  /** Rounding up never goes below `x` while the answer fits. */
  lemma RoundIsAbove(x: bv64, r: bv64)
    requires x != 0 && x <= TopBit && r == NextPow2(x)
    ensures x <= r
  {
    RoundCovers(x, r);
    RoundNonZero(x, r);
    RoundIsBit(x, r);
    CoverIsAbove(x, r);
  }

  /** Rounding up lands on a power of two while the answer fits. */
  lemma RoundIsPow2(x: bv64, r: bv64)
    requires x != 0 && x <= TopBit && r == NextPow2(x)
    ensures IsPow2(r)
  {
    RoundNonZero(x, r);
    RoundIsBit(x, r);
  }

  /** For `x == 0`, and above 2^63 where the answer does not fit, `uint64_t` wraps to 0. */
  lemma RoundWraps(x: bv64, r: bv64)
    requires (x == 0 || TopBit < x) && r == NextPow2(x)
    ensures r == 0
  {
  }

  /** A power of two rounds to itself. */
  lemma RoundFixes(x: bv64, r: bv64)
    requires IsPow2(x) && r == NextPow2(x)
    ensures r == x
  {
  }

  /** Between 2 and 2^63, `x - 1` is non-zero and below 2^63. */
  lemma Predecessor(x: bv64)
    requires x != 0 && x != 1 && x <= TopBit
    ensures x - 1 != 0 && x - 1 < TopBit
  {
  }

  /** The highest set bit of a mask `s`. */
  function Top(s: bv64): bv64 {
    s & !(s >> 1)
  }

  /** Smearing makes a mask. */
  lemma SmearIsMask(y: bv64)
    ensures Smear(y) & (Smear(y) + 1) == 0
  {
  }

  /** Smearing adds no bit above the highest set bit of `y`. */
  lemma SmearStaysLow(y: bv64)
    requires y & TopBit == 0
    ensures Smear(y) & TopBit == 0
  {
  }

  /** The top bit of the smear is a bit of `y`. */
  lemma SmearTopInY(y: bv64)
    ensures Top(Smear(y)) & !y == 0
  {
  }

  /** The smear of a non-zero `y` has a top bit. */
  lemma SmearHasTop(y: bv64)
    requires y != 0
    ensures Top(Smear(y)) != 0
  {
  }

  /** One more than a mask below 2^63, halved, is the mask's top bit. */
  lemma MaskHalf(s: bv64)
    requires s & (s + 1) == 0 && s & TopBit == 0
    ensures (s + 1) >> 1 == Top(s)
  {
  }

  /** The highest set bit of a non-zero `y` below 2^63 survives the smear. */
  lemma TopSurvives(y: bv64)
    requires y != 0 && y < TopBit
    ensures y & Half(y) != 0
  {
    assert y & TopBit == 0;
    SmearStaysLow(y);
    SmearIsMask(y);
    MaskHalf(Smear(y));
    SmearTopInY(y);
    SmearHasTop(y);
  }

  /** Half the rounded value is the highest set bit of `x - 1`. */
  lemma HalfInPredecessor(x: bv64, r: bv64)
    requires x != 0 && x != 1 && x <= TopBit && r == NextPow2(x)
    ensures (x - 1) & (r >> 1) != 0
  {
    Predecessor(x);
    TopSurvives(x - 1);
  }

  /** Half the rounded value has at most one bit set. */
  lemma HalfIsBit(x: bv64, r: bv64)
    requires x <= TopBit && r == NextPow2(x)
    ensures (r >> 1) & ((r >> 1) - 1) == 0
  {
    RoundIsBit(x, r);
    HalveBit(r);
  }

  /** Half of a single bit is a single bit, or zero. */
  lemma HalveBit(r: bv64)
    requires r & (r - 1) == 0
    ensures (r >> 1) & ((r >> 1) - 1) == 0
  {
  }

  /** A single bit `p` set in `x - 1` leaves a bit of `x` at or above it. */
  lemma BitInSuccessor(x: bv64, p: bv64)
    requires x != 0 && (x - 1) & p != 0 && p & (p - 1) == 0
    ensures x & !(p - 1) != 0 && x != p
  {
  }

  /** A single bit below which `x` has a set bit, other than `x` itself, is below `x`. */
  lemma BitUnder(x: bv64, p: bv64)
    requires p & (p - 1) == 0 && x & !(p - 1) != 0 && x != p
    ensures p < x
  {
  }

  /** A single bit set in `x - 1` is below `x`. */
  lemma BitBelow(x: bv64, p: bv64)
    requires x != 0 && (x - 1) & p != 0 && p & (p - 1) == 0
    ensures p < x
  {
    BitInSuccessor(x, p);
    BitUnder(x, p);
  }

  /** `r >> 1`, as a function so that lemma arguments need no shift. */
  function Halve(r: bv64): bv64 {
    r >> 1
  }

  /** `h`, half of `r` and a single bit set in `x - 1`, is below `x`. */
  lemma NamedHalfBelow(x: bv64, r: bv64, h: bv64)
    requires h == r >> 1 && x != 0 && (x - 1) & h != 0 && h & (h - 1) == 0
    ensures r >> 1 < x
  {
    BitBelow(x, h);
  }

  /** Half of `r`, when it is a single bit set in `x - 1`, is below `x`. */
  lemma HalfBelow(x: bv64, r: bv64)
    requires x != 0 && (x - 1) & (r >> 1) != 0 && (r >> 1) & ((r >> 1) - 1) == 0
    ensures r >> 1 < x
  {
    NamedHalfBelow(x, r, Halve(r));
  }

  /** Half the rounded value is a single bit set in `x - 1`. */
  lemma HalfFacts(x: bv64, r: bv64)
    requires x != 0 && x != 1 && x <= TopBit && r == NextPow2(x)
    ensures (x - 1) & (r >> 1) != 0 && (r >> 1) & ((r >> 1) - 1) == 0
  {
    HalfInPredecessor(x, r);
    HalfIsBit(x, r);
  }

  /** Half the rounded value is below `x`: no smaller power of two holds `x`. */
  lemma RoundIsTight(x: bv64, r: bv64)
    requires x != 0 && x <= TopBit && r == NextPow2(x)
    ensures r >> 1 < x
  {
    if x != 1 {
      HalfFacts(x, r);
      HalfBelow(x, r);
    }
  }

  /**
   * Everything `next_pow2(x)` promises of its result `r`: for 1 <= x <= 2^63
   * the least power of two at or above `x` (its half is below `x`); 0 for
   * x == 0 and for x > 2^63, where `uint64_t` wraps around; a power of two
   * maps to itself.
   */
  lemma NextPow2Spec(x: bv64, r: bv64)
    requires r == NextPow2(x)
    ensures x == 0 ==> r == 0
    ensures TopBit < x ==> r == 0
    ensures 0 < x <= TopBit ==> IsPow2(r) && x <= r && r >> 1 < x
    ensures IsPow2(x) ==> r == x
  {
    if x != 0 && x <= TopBit {
      RoundIsAbove(x, r);
      RoundIsPow2(x, r);
      RoundIsTight(x, r);
    } else {
      RoundWraps(x, r);
    }
    if IsPow2(x) {
      RoundFixes(x, r);
    }
  }
}
