// Unsigned words of a given width as natural numbers, with the C operators on them defined
// bit by bit, and what the masks of gtest's FloatingPoint mean as arithmetic.

module Bits {

  function Pow2(n: nat): (p: nat)
    ensures p >= 1
  {
    if n == 0 then 1 else 2 * Pow2(n - 1)
  }

  /** x & y, bit by bit from the lowest */
  function And(x: nat, y: nat): nat {
    if x == 0 || y == 0 then 0
    else (if x % 2 == 1 && y % 2 == 1 then 1 else 0) + 2 * And(x / 2, y / 2)
  }

  /** x | y */
  function Or(x: nat, y: nat): nat {
    if x == 0 && y == 0 then 0
    else (if x % 2 == 1 || y % 2 == 1 then 1 else 0) + 2 * Or(x / 2, y / 2)
  }

  /** ~x in a word of n bits */
  function Not(x: nat, n: nat): nat {
    if n == 0 then 0 else 1 - x % 2 + 2 * Not(x / 2, n - 1)
  }

  /** x + y in a word of n bits */
  function Add(x: nat, y: nat, n: nat): nat {
    (x + y) % Pow2(n)
  }

  /** x >> k */
  function Shr(x: nat, k: nat): nat {
    if k == 0 then x else Shr(x / 2, k - 1)
  }

  /** The k lowest bits of x */
  function Low(x: nat, k: nat): (low: nat)
    ensures low < Pow2(k)
  {
    if k == 0 then 0 else x % 2 + 2 * Low(x / 2, k - 1)
  }

  /** Counting up carries out of the low bits exactly when they are all ones. */
  lemma {:induction false} Carry(x: nat, k: nat)
    ensures if Low(x, k) + 1 < Pow2(k) then Low(x + 1, k) == Low(x, k) + 1 && Shr(x + 1, k) == Shr(x, k)
            else Low(x + 1, k) == 0 && Shr(x + 1, k) == Shr(x, k) + 1
  {
    if k > 0 {
      if x % 2 == 0 {
        assert (x + 1) / 2 == x / 2;
      } else {
        assert (x + 1) / 2 == x / 2 + 1;
        Carry(x / 2, k - 1);
      }
    }
  }

  lemma {:induction false} NotMeans(x: nat, n: nat)
    requires x < Pow2(n)
    ensures Not(x, n) == Pow2(n) - 1 - x
  {
    if n > 0 {
      NotMeans(x / 2, n - 1);
    }
  }

  lemma {:induction false} ShrOfOnes(n: nat, k: nat)
    requires k <= n
    ensures Shr(Pow2(n) - 1, k) == Pow2(n - k) - 1
  {
    if k > 0 {
      assert (Pow2(n) - 1) / 2 == Pow2(n - 1) - 1;
      ShrOfOnes(n - 1, k - 1);
    }
  }

  lemma {:induction false} OrTopBit(k: nat, x: nat)
    requires x < Pow2(k)
    ensures Or(Pow2(k), x) == Pow2(k) + x
  {
    if k > 0 {
      assert Pow2(k) % 2 == 0 && Pow2(k) / 2 == Pow2(k - 1);
      OrTopBit(k - 1, x / 2);
    }
  }

  lemma {:induction false} AndTopBit(k: nat, x: nat)
    requires x < Pow2(k + 1)
    ensures And(Pow2(k), x) == if x >= Pow2(k) then Pow2(k) else 0
  {
    if k > 0 && x > 0 {
      assert Pow2(k) % 2 == 0 && Pow2(k) / 2 == Pow2(k - 1);
      AndTopBit(k - 1, x / 2);
    } else if x > 0 {
      assert Pow2(1) == 2 && x == 1;
      assert And(1, 1) == 1 + 2 * And(0, 0);
    }
  }

  lemma ModUnique(x: nat, m: nat, q: nat, r: nat)
    requires r < m && x == q * m + r
    ensures x % m == r && x / m == q
  {
    var d := x / m - q;
    assert x == x / m * m + x % m;
    assert d * m == r - x % m;
    assert d >= 1 ==> d * m >= m;
    assert d <= -1 ==> d * m + m <= 0;
  }

  lemma ModDouble(x: nat, m: nat)
    requires m > 0
    ensures x % (2 * m) == x % 2 + 2 * (x / 2 % m)
  {
    var q, r := x / 2 / m, x / 2 % m;
    assert x == 2 * (q * m + r) + x % 2;
    assert 2 * (q * m + r) == q * (2 * m) + 2 * r;
    ModUnique(x, 2 * m, q, 2 * r + x % 2);
  }

  lemma AndOnes(m: nat, ones: nat, x: nat, low: nat)
    requires m >= 1 && ones == 2 * m - 1 && And(m - 1, x / 2) == low
    ensures And(ones, x) == x % 2 + 2 * low
  {
  }

  lemma {:induction false} AndLowMask(k: nat, x: nat)
    ensures And(Pow2(k) - 1, x) == x % Pow2(k)
  {
    if k > 0 {
      var m := Pow2(k - 1);
      AndLowMask(k - 1, x / 2);
      AndOnes(m, Pow2(k) - 1, x, x / 2 % m);
      ModDouble(x, m);
    }
  }

  lemma {:induction false} AndNot(mask: nat, x: nat, n: nat)
    requires x < Pow2(n)
    ensures And(mask, x) <= x && And(Not(mask, n), x) == x - And(mask, x)
  {
    if n > 0 {
      AndNot(mask / 2, x / 2, n - 1);
    }
  }

  lemma {:induction false} AndOr(a: nat, b: nat, x: nat)
    requires And(a, b) == 0
    ensures And(Or(a, b), x) == And(a, x) + And(b, x)
    decreases x
  {
    if x > 0 && (a > 0 || b > 0) {
      assert And(a / 2, b / 2) == 0;
      AndOr(a / 2, b / 2, x / 2);
    }
  }

  lemma DoubleProduct(x: nat, y: nat)
    ensures (2 * x) * y == 2 * (x * y)
  {
  }

  lemma {:induction false} Pow2Sum(a: nat, b: nat)
    ensures Pow2(a + b) == Pow2(a) * Pow2(b)
  {
    if a > 0 {
      Pow2Sum(a - 1, b);
      DoubleProduct(Pow2(a - 1), Pow2(b));
    }
  }
}
