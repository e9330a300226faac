/** Bitwise operators of C's unsigned types, as functions on natural numbers. */
module Bits {

  type uint32 = w: nat | w < 0x1_0000_0000

  function Pow2(n: nat): (r: nat)
    ensures r > 0
  {
    if n == 0 then 1 else 2 * Pow2(n - 1)
  }

  function And(x: nat, y: nat): nat {
    if x == 0 || y == 0 then 0
    else 2 * And(x / 2, y / 2) + (if x % 2 == 1 && y % 2 == 1 then 1 else 0)
  }

  function Or(x: nat, y: nat): nat
    decreases x + y
  {
    if x == 0 && y == 0 then 0
    else 2 * Or(x / 2, y / 2) + (if x % 2 == 1 || y % 2 == 1 then 1 else 0)
  }

  /** `x & ~y` */
  function AndNot(x: nat, y: nat): nat {
    if x == 0 then 0
    else 2 * AndNot(x / 2, y / 2) + (if x % 2 == 1 && y % 2 == 0 then 1 else 0)
  }

  /** `x & (1 << j)` as a condition. */
  predicate Test(x: nat, j: nat) {
    And(x, Pow2(j)) != 0
  }

  lemma TestStep(x: nat, j: nat)
    ensures Test(x, 0) <==> x % 2 == 1
    ensures Test(x, j + 1) <==> Test(x / 2, j)
  {
    assert Pow2(j + 1) == 2 * Pow2(j);
    assert x > 0 ==> And(x, 1) == 2 * And(x / 2, 0) + (if x % 2 == 1 then 1 else 0);
  }

  lemma Halves(x: nat, y: nat)
    ensures Or(x, y) / 2 == Or(x / 2, y / 2)
    ensures Or(x, y) % 2 == 1 <==> x % 2 == 1 || y % 2 == 1
    ensures AndNot(x, y) / 2 == AndNot(x / 2, y / 2)
    ensures AndNot(x, y) % 2 == 1 <==> x % 2 == 1 && y % 2 == 0
    ensures And(x, y) / 2 == And(x / 2, y / 2)
    ensures And(x, y) % 2 == 1 <==> x % 2 == 1 && y % 2 == 1
  {
  }

  lemma {:induction false} WithZero(x: nat)
    ensures Or(x, 0) == x && AndNot(x, 0) == x
  {
    if x > 0 { WithZero(x / 2); }
  }

  lemma Pow2Halves(j: nat)
    ensures Pow2(j) % 2 == 1 <==> j == 0
    ensures Pow2(j) / 2 == if j == 0 then 0 else Pow2(j - 1)
  {
  }

  lemma {:induction false} OrTest(x: nat, j: nat, k: nat)
    ensures Test(Or(x, Pow2(j)), k) <==> j == k || Test(x, k)
    decreases k
  {
    hide Or, Test, Pow2;
    var y := Or(x, Pow2(j));
    Halves(x, Pow2(j));
    Pow2Halves(j);
    TestStep(x, if k == 0 then 0 else k - 1);
    TestStep(y, if k == 0 then 0 else k - 1);
    if k > 0 {
      if j == 0 { WithZero(x / 2); } else { OrTest(x / 2, j - 1, k - 1); }
    }
  }

  lemma {:induction false} AndNotTest(x: nat, j: nat, k: nat)
    ensures Test(AndNot(x, Pow2(j)), k) <==> j != k && Test(x, k)
    decreases k
  {
    hide AndNot, Test, Pow2;
    var y := AndNot(x, Pow2(j));
    Halves(x, Pow2(j));
    Pow2Halves(j);
    TestStep(x, if k == 0 then 0 else k - 1);
    TestStep(y, if k == 0 then 0 else k - 1);
    if k > 0 {
      if j == 0 { WithZero(x / 2); } else { AndNotTest(x / 2, j - 1, k - 1); }
    }
  }

  lemma {:induction false} OrBound(x: nat, y: nat, n: nat)
    requires x < Pow2(n) && y < Pow2(n)
    ensures Or(x, y) < Pow2(n)
  {
    if n > 0 { OrBound(x / 2, y / 2, n - 1); }
  }

  lemma {:induction false} AndNotBound(x: nat, y: nat)
    ensures AndNot(x, y) <= x
  {
    if x > 0 { AndNotBound(x / 2, y / 2); }
  }

  lemma {:induction false} AllOnesTest(n: nat, j: nat)
    requires j < n
    ensures Test(Pow2(n) - 1, j)
  {
    TestStep(Pow2(n) - 1, if j == 0 then 0 else j - 1);
    assert (Pow2(n) - 1) / 2 == Pow2(n - 1) - 1;
    if j > 0 { AllOnesTest(n - 1, j - 1); }
  }

  lemma {:induction false} Pow2Less(j: nat, n: nat)
    requires j < n
    ensures Pow2(j) < Pow2(n)
  {
    if j + 1 < n { Pow2Less(j, n - 1); }
  }

  lemma {:induction false} Pow2Add(a: nat, b: nat)
    ensures Pow2(a + b) == Pow2(a) * Pow2(b)
  {
    Pow2Zero();
    hide Pow2;
    if b > 0 {
      Pow2Add(a, b - 1);
      Pow2Next(b - 1);
      Pow2Next(a + (b - 1));
      assert a + b == a + (b - 1) + 1;
      TimesTwo(Pow2(a), Pow2(b - 1));
    }
  }

  lemma Pow2Zero()
    ensures Pow2(0) == 1
  {
  }

  lemma Pow2Next(n: nat)
    ensures Pow2(n + 1) == 2 * Pow2(n)
  {
  }

  lemma TimesTwo(x: nat, y: nat)
    ensures x * (2 * y) == 2 * (x * y)
  {
  }

  lemma Pow2Values()
    ensures Pow2(3) == 8 && Pow2(10) == 1024 && Pow2(12) == 4096 && Pow2(32) == 0x1_0000_0000
  {
    assert Pow2(2) == 4 && Pow2(3) == 8;
    Pow2Add(2, 2);
    Pow2Add(2, 8);
    Pow2Add(4, 4);
    Pow2Add(4, 8);
    Pow2Add(8, 8);
    Pow2Add(16, 16);
  }

  /** Masking with `2^k - 1` is the remainder, masking it away is rounding down. */
  lemma {:induction false} LowMask(x: nat, k: nat)
    ensures And(x, Pow2(k) - 1) == x % Pow2(k)
    ensures AndNot(x, Pow2(k) - 1) == x - x % Pow2(k)
  {
    if k == 0 {
      WithZero(x);
      AndZero(x);
    } else {
      LowMask(x / 2, k - 1);
      LowMaskStep(x, Pow2(k - 1));
    }
  }

  lemma LowMaskStep(x: nat, m: nat)
    requires m > 0
    requires And(x / 2, m - 1) == x / 2 % m && AndNot(x / 2, m - 1) == x / 2 - x / 2 % m
    ensures And(x, 2 * m - 1) == x % (2 * m)
    ensures AndNot(x, 2 * m - 1) == x - x % (2 * m)
  {
    hide And, AndNot;
    assert (2 * m - 1) / 2 == m - 1 && (2 * m - 1) % 2 == 1;
    Halves(x, 2 * m - 1);
    HalfMod(x, m);
  }

  lemma AndZero(x: nat)
    ensures And(x, 0) == 0
  {
  }

  lemma HalfMod(x: nat, m: nat)
    requires m > 0
    ensures x % (2 * m) == 2 * (x / 2 % m) + x % 2
  {
    var q, r := x / 2 / m, x / 2 % m;
    assert x / 2 == m * q + r;
    assert x == (2 * m) * q + (2 * r + x % 2);
    ModUnique(x, 2 * m, q, 2 * r + x % 2);
  }

  lemma ModUnique(x: nat, m: nat, q: nat, r: nat)
    requires m > 0 && r < m && x == m * q + r
    ensures x % m == r && x / m == q
  {
    var q', r' := x / m, x % m;
    assert m * (q' - q) == r - r';
    if q' > q { AtLeast(m, q' - q); }
    if q > q' { AtLeast(m, q - q'); }
  }

  lemma AtLeast(m: nat, d: nat)
    requires d > 0
    ensures m * d >= m
  {
  }

  /** Or-ing flags into the clear low bits of an address is addition. */
  lemma {:induction false} OrDisjoint(x: nat, y: nat, k: nat)
    requires x % Pow2(k) == 0 && y < Pow2(k)
    ensures Or(x, y) == x + y
  {
    hide Or;
    Halves(x, y);
    if k == 0 {
      WithZero(x);
    } else {
      HalfMod(x, Pow2(k - 1));
      OrDisjoint(x / 2, y / 2, k - 1);
    }
  }
}
