// FloatingPoint of gtest-internal.h: comparing floats by how many representable numbers lie
// between them. The encoding is that of section 3.4 of IEEE 754-2008: sign, exponent and
// fraction bits from the top. A number is its word of bits, for any width.

module FloatingPoint {
  import opened Bits

  /** What the template parameter settles: kBitCount and kFractionBitCount, which are 32 and 23
      for float, 64 and 52 for double. */
  datatype RawType = RawType(bitCount: nat, fractionBitCount: nat)

  const MAX_ULPS: nat := 4

  /** There are a sign bit, an exponent and a fraction. */
  predicate Proper(t: RawType) {
    1 <= t.fractionBitCount && t.fractionBitCount + 2 <= t.bitCount
  }

  predicate Word(t: RawType, bits: nat) {
    Proper(t) && bits < Pow2(t.bitCount)
  }

  function SignBitMask(t: RawType): nat
    requires Proper(t)
  {
    Pow2(t.bitCount - 1)
  }

  function FractionBitMask(t: RawType): nat
    requires Proper(t)
  {
    var exponentBitCount := t.bitCount - 1 - t.fractionBitCount;
    Shr(Not(0, t.bitCount), exponentBitCount + 1)
  }

  function ExponentBitMask(t: RawType): nat
    requires Proper(t)
  {
    Not(Or(SignBitMask(t), FractionBitMask(t)), t.bitCount)
  }

  predicate IsNan(t: RawType, bits: nat)
    requires Word(t, bits)
  {
    And(ExponentBitMask(t), bits) == ExponentBitMask(t) && And(FractionBitMask(t), bits) != 0
  }

  function SignAndMagnitudeToBiased(t: RawType, sam: nat): nat
    requires Word(t, sam)
  {
    if And(SignBitMask(t), sam) != 0 then Add(Not(sam, t.bitCount), 1, t.bitCount)
    else Or(SignBitMask(t), sam)
  }

  function Distance(t: RawType, sam1: nat, sam2: nat): nat
    requires Word(t, sam1) && Word(t, sam2)
  {
    var biased1 := SignAndMagnitudeToBiased(t, sam1);
    var biased2 := SignAndMagnitudeToBiased(t, sam2);
    if biased1 >= biased2 then biased1 - biased2 else biased2 - biased1
  }

  predicate AlmostEquals(t: RawType, lhs: nat, rhs: nat)
    requires Word(t, lhs) && Word(t, rhs)
  {
    if IsNan(t, lhs) || IsNan(t, rhs) then false else Distance(t, lhs, rhs) <= MAX_ULPS
  }

  // ---- the bits as numbers ----

  /** The word read as a sign and a magnitude. */
  function Signed(t: RawType, sam: nat): int
    requires Word(t, sam)
  {
    if sam >= Pow2(t.bitCount - 1) then -(sam - Pow2(t.bitCount - 1)) else sam
  }

  /** The magnitude bits of infinity: exponent all ones, fraction zero. */
  function InfinityBits(t: RawType): nat
    requires Proper(t)
    ensures Word(t, InfinityBits(t)) && 0 < InfinityBits(t) < Pow2(t.bitCount - 1)
  {
    Pow2Grows(t.fractionBitCount, t.bitCount - 1);
    Pow2(t.bitCount - 1) - Pow2(t.fractionBitCount)
  }

  function Magnitude(t: RawType, sam: nat): (m: nat)
    requires Word(t, sam)
    ensures m < Pow2(t.bitCount - 1)
  {
    if sam >= Pow2(t.bitCount - 1) then sam - Pow2(t.bitCount - 1) else sam
  }

  lemma {:induction false} Pow2Grows(a: nat, b: nat)
    requires a < b
    ensures Pow2(a) < Pow2(b)
  {
    if b - 1 > a {
      Pow2Grows(a, b - 1);
    }
  }

  /** The biased form is 2^(N-1) plus the signed magnitude; nothing wraps around. */
  lemma BiasedIsSigned(t: RawType, sam: nat)
    requires Word(t, sam)
    ensures SignAndMagnitudeToBiased(t, sam) == Pow2(t.bitCount - 1) + Signed(t, sam)
    ensures 0 < SignAndMagnitudeToBiased(t, sam) < Pow2(t.bitCount)
  {
    var n := t.bitCount;
    AndTopBit(n - 1, sam);
    if sam >= Pow2(n - 1) {
      NotMeans(sam, n);
      ModSmall(Pow2(n) - sam, Pow2(n));
    } else {
      OrTopBit(n - 1, sam);
    }
  }

  lemma ModSmall(x: nat, m: nat)
    requires x < m
    ensures x % m == x
  {
  }

  function Abs(x: int): nat { if x < 0 then -x else x }

  /** The unsigned distance is the distance of the signed magnitudes as integers. */
  lemma DistanceIsAbs(t: RawType, a: nat, b: nat)
    requires Word(t, a) && Word(t, b)
    ensures Distance(t, a, b) == Abs(Signed(t, a) - Signed(t, b))
  {
    BiasedIsSigned(t, a);
    BiasedIsSigned(t, b);
  }

  /** It is a distance: symmetric, with the triangle inequality, and zero for equal words and
      for the two zeros only. */
  lemma DistanceIsMetric(t: RawType, a: nat, b: nat, c: nat)
    requires Word(t, a) && Word(t, b) && Word(t, c)
    ensures Distance(t, a, b) == Distance(t, b, a)
    ensures Distance(t, a, c) <= Distance(t, a, b) + Distance(t, b, c)
    ensures Distance(t, a, b) == 0 <==> a == b || (Magnitude(t, a) == 0 && Magnitude(t, b) == 0)
  {
    DistanceIsAbs(t, a, b);
    DistanceIsAbs(t, b, a);
    DistanceIsAbs(t, b, c);
    DistanceIsAbs(t, a, c);
  }

  lemma FractionMaskValue(t: RawType)
    requires Proper(t)
    ensures FractionBitMask(t) == Pow2(t.fractionBitCount) - 1 < SignBitMask(t) - 1
  {
    NotMeans(0, t.bitCount);
    ShrOfOnes(t.bitCount, t.bitCount - t.fractionBitCount);
    Pow2Grows(t.fractionBitCount, t.bitCount - 1);
  }

  lemma ExponentMaskValue(t: RawType)
    requires Proper(t)
    ensures ExponentBitMask(t) == InfinityBits(t)
    ensures And(SignBitMask(t), FractionBitMask(t)) == 0
  {
    var n, fraction := t.bitCount, FractionBitMask(t);
    FractionMaskValue(t);
    OrTopBit(n - 1, fraction);
    NotMeans(Pow2(n - 1) + fraction, n);
    AndTopBit(n - 1, fraction);
  }

  lemma MultipleOfPow2(a: nat, b: nat)
    requires a <= b
    ensures Pow2(b) % Pow2(a) == 0
  {
    Pow2Sum(b - a, a);
    ModUnique(Pow2(b), Pow2(a), Pow2(b - a), 0);
  }

  lemma SubtractMultiple(x: nat, k: nat, m: nat)
    requires m > 0 && k <= x && k % m == 0
    ensures (x - k) % m == x % m
  {
    var q, d, r := k / m, (x - k) / m, (x - k) % m;
    assert k == q * m && x - k == d * m + r;
    assert x == (q + d) * m + r;
    ModUnique(x, m, q + d, r);
  }

  lemma FractionBits(t: RawType, bits: nat)
    requires Word(t, bits)
    ensures And(FractionBitMask(t), bits) == Magnitude(t, bits) % Pow2(t.fractionBitCount)
  {
    FractionMaskValue(t);
    AndLowMask(t.fractionBitCount, bits);
    MultipleOfPow2(t.fractionBitCount, t.bitCount - 1);
    if bits >= SignBitMask(t) {
      SubtractMultiple(bits, SignBitMask(t), Pow2(t.fractionBitCount));
    }
  }

  lemma ExponentBits(t: RawType, bits: nat)
    requires Word(t, bits)
    ensures And(ExponentBitMask(t), bits) == Magnitude(t, bits) - And(FractionBitMask(t), bits)
  {
    ExponentMaskValue(t);
    AndTopBit(t.bitCount - 1, bits);
    AndOr(SignBitMask(t), FractionBitMask(t), bits);
    AndNot(Or(SignBitMask(t), FractionBitMask(t)), bits, t.bitCount);
  }

  /** A word is a NaN exactly when its magnitude lies above infinity's. */
  lemma NanIff(t: RawType, bits: nat)
    requires Word(t, bits)
    ensures IsNan(t, bits) <==> Magnitude(t, bits) > InfinityBits(t)
  {
    ExponentMaskValue(t);
    ExponentBits(t, bits);
    FractionBits(t, bits);
    MultipleOfPow2(t.fractionBitCount, t.bitCount - 1);
    AboveMultiple(Magnitude(t, bits), InfinityBits(t), Pow2(t.fractionBitCount), SignBitMask(t));
  }

  /** In the last block of p below top, the rounded-down number is the block's start. */
  lemma AboveMultiple(x: nat, start: nat, p: nat, top: nat)
    requires p > 0 && start + p == top && top % p == 0 && x < top
    ensures x - x % p == start && x % p != 0 <==> x > start
  {
    SubtractMultiple(top, p, p);
    if x >= start {
      SubtractMultiple(x, start, p);
      ModSmall(x - start, p);
    }
  }

  /** Exactly which pairs AlmostEquals accepts. */
  lemma AlmostEqualsIff(t: RawType, a: nat, b: nat)
    requires Word(t, a) && Word(t, b)
    ensures AlmostEquals(t, a, b) <==>
            && Magnitude(t, a) <= InfinityBits(t) && Magnitude(t, b) <= InfinityBits(t)
            && Abs(Signed(t, a) - Signed(t, b)) <= 4
  {
    NanIff(t, a);
    NanIff(t, b);
    DistanceIsAbs(t, a, b);
  }

  /** Section 5.11 of IEEE 754-2008: nothing compares equal to a NaN, itself included; and
      every other number is almost equal to itself, and to whatever is almost equal to it. */
  lemma AlmostEqualsLaws(t: RawType, a: nat, b: nat)
    requires Word(t, a) && Word(t, b)
    ensures AlmostEquals(t, a, b) <==> AlmostEquals(t, b, a)
    ensures AlmostEquals(t, a, a) <==> !IsNan(t, a)
    ensures IsNan(t, a) ==> !AlmostEquals(t, a, b)
    ensures Magnitude(t, a) == 0 && Magnitude(t, b) == 0 ==> AlmostEquals(t, a, b)
  {
    AlmostEqualsIff(t, a, b);
    AlmostEqualsIff(t, b, a);
    AlmostEqualsIff(t, a, a);
    NanIff(t, a);
  }

  /** b is strictly between a and c. */
  predicate Between(t: RawType, a: nat, b: nat, c: nat)
    requires Word(t, a) && Word(t, b) && Word(t, c)
  {
    Signed(t, a) < Signed(t, b) < Signed(t, c) || Signed(t, c) < Signed(t, b) < Signed(t, a)
  }

  /** Exactly when AlmostEquals is transitive: two chained matches make a third unless they go
      the same way and their distances add up to more than the allowance. They are never more
      than twice that apart. */
  lemma ChainedMatches(t: RawType, a: nat, b: nat, c: nat)
    requires Word(t, a) && Word(t, b) && Word(t, c)
    requires AlmostEquals(t, a, b) && AlmostEquals(t, b, c)
    ensures AlmostEquals(t, a, c) <==>
            !Between(t, a, b, c) || Distance(t, a, b) + Distance(t, b, c) <= 4
    ensures Distance(t, a, c) <= 8
  {
    AlmostEqualsIff(t, a, b);
    AlmostEqualsIff(t, b, c);
    AlmostEqualsIff(t, a, c);
    DistanceIsAbs(t, a, b);
    DistanceIsAbs(t, b, c);
    DistanceIsAbs(t, a, c);
  }

  /** The bound is met: 0, 4 and 8 ULPs above zero, so AlmostEquals is not transitive. */
  lemma NotTransitive(t: RawType)
    requires Proper(t) && t.fractionBitCount >= 3
    ensures Word(t, 0) && Word(t, 4) && Word(t, 5) && Word(t, 8)
    ensures AlmostEquals(t, 0, 4) && AlmostEquals(t, 4, 8) && !AlmostEquals(t, 0, 8)
    ensures !AlmostEquals(t, 0, 5)
  {
    var f, n := t.fractionBitCount, t.bitCount;
    assert Pow2(f) >= 8 by {
      assert Pow2(3) == 8;
      if f > 3 {
        Pow2Grows(3, f);
      }
    }
    Pow2Grows(f, n - 1);
    Pow2Grows(n - 1, n);
    assert InfinityBits(t) >= 8 by {
      assert Pow2(f + 1) == 2 * Pow2(f);
      if f + 1 < n - 1 {
        Pow2Grows(f + 1, n - 1);
      }
    }
    AlmostEqualsIff(t, 0, 4);
    AlmostEqualsIff(t, 4, 8);
    AlmostEqualsIff(t, 0, 5);
    AlmostEqualsIff(t, 0, 8);
  }

  // ---- what an ULP is ----

  /** Fraction r in the binade of exponent e, in units of the smallest subnormal number:
      exponent 0 is subnormal, any other adds the hidden bit. */
  function Binade(f: nat, e: nat, r: nat): int {
    if e == 0 then r else Pow2(e - 1) * (Pow2(f) + r)
  }

  /** The absolute value of a number with these magnitude bits, in the same units. */
  function Scaled(f: nat, mag: nat): int {
    Binade(f, Shr(mag, f), Low(mag, f))
  }

  function Value(t: RawType, bits: nat): int
    requires Word(t, bits)
  {
    var v := Scaled(t.fractionBitCount, Magnitude(t, bits));
    if bits >= Pow2(t.bitCount - 1) then -v else v
  }

  function Ulp(e: nat): nat { if e == 0 then 1 else Pow2(e - 1) }

  lemma WithinBinade(f: nat, e: nat, r: nat)
    ensures Binade(f, e, r + 1) == Binade(f, e, r) + Ulp(e)
  {
  }

  /** The first number of the next binade is where this one would put it. */
  lemma NextBinade(f: nat, e: nat)
    ensures Binade(f, e + 1, 0) == Binade(f, e, Pow2(f))
  {
  }

  /** From one magnitude to the next the value grows by one unit in the last place, also
      across the steps from subnormal to normal and from one binade to the next. */
  lemma UnitInLastPlace(f: nat, mag: nat)
    ensures Scaled(f, mag + 1) == Scaled(f, mag) + Ulp(Shr(mag, f))
  {
    var e, r := Shr(mag, f), Low(mag, f);
    Carry(mag, f);
    WithinBinade(f, e, r);
    if r + 1 == Pow2(f) {
      NextBinade(f, e);
    }
  }

  lemma {:induction false} ScaledIncreases(f: nat, a: nat, b: nat)
    requires a < b
    ensures Scaled(f, a) < Scaled(f, b)
  {
    UnitInLastPlace(f, b - 1);
    if a < b - 1 {
      ScaledIncreases(f, a, b - 1);
    }
  }

  lemma {:induction false} ScaledZero(f: nat)
    ensures Shr(0, f) == 0 && Low(0, f) == 0 && Scaled(f, 0) == 0
  {
    if f > 0 {
      ScaledZero(f - 1);
    }
  }

  /** The biased form orders words as the numbers they stand for (infinity above all). */
  lemma OrderIsNumeric(t: RawType, a: nat, b: nat)
    requires Word(t, a) && Word(t, b)
    ensures SignAndMagnitudeToBiased(t, a) < SignAndMagnitudeToBiased(t, b) <==> Value(t, a) < Value(t, b)
    ensures Distance(t, a, b) == 0 <==> Value(t, a) == Value(t, b)
  {
    var f, m, n := t.fractionBitCount, Magnitude(t, a), Magnitude(t, b);
    BiasedIsSigned(t, a);
    BiasedIsSigned(t, b);
    DistanceIsAbs(t, a, b);
    ScaledZero(f);
    if m > 0 {
      ScaledIncreases(f, 0, m);
    }
    if n > 0 {
      ScaledIncreases(f, 0, n);
    }
    if m < n {
      ScaledIncreases(f, m, n);
    } else if n < m {
      ScaledIncreases(f, n, m);
    }
  }

  /** The distance counts representable numbers: below a larger b there is a next number c
      above a, one step nearer to b, and no number of the type lies between a and c. */
  lemma NextUp(t: RawType, a: nat, b: nat) returns (c: nat)
    requires Word(t, a) && Word(t, b) && Value(t, a) < Value(t, b)
    ensures Word(t, c) && Value(t, a) < Value(t, c) <= Value(t, b)
    ensures Distance(t, a, b) == Distance(t, c, b) + 1
    ensures forall x | Word(t, x) :: !(Value(t, a) < Value(t, x) < Value(t, c))
  {
    OrderIsNumeric(t, a, b);
    BiasedIsSigned(t, a);
    BiasedIsSigned(t, b);
    var next := Signed(t, a) + 1;
    c := if next < 0 then Pow2(t.bitCount - 1) - next else next;
    assert Signed(t, c) == next;
    BiasedIsSigned(t, c);
    OrderIsNumeric(t, a, c);
    OrderIsNumeric(t, b, c);
    DistanceIsAbs(t, a, b);
    DistanceIsAbs(t, c, b);
    forall x | Word(t, x)
      ensures !(Value(t, a) < Value(t, x) < Value(t, c))
    {
      BiasedIsSigned(t, x);
      OrderIsNumeric(t, a, x);
      OrderIsNumeric(t, x, c);
    }
  }

  /** Infinity is almost equal to the largest finite numbers, but not to the NaNs above it. */
  lemma InfinityNeighbours(t: RawType, bits: nat)
    requires Word(t, bits) && bits < Pow2(t.bitCount - 1)
    ensures AlmostEquals(t, InfinityBits(t), bits) <==> InfinityBits(t) - 4 <= bits <= InfinityBits(t)
  {
    AlmostEqualsIff(t, InfinityBits(t), bits);
  }
}
