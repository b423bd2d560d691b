/** Bits of natural numbers. */
module Bits {

  function Pow2(k: nat): (p: nat)
    ensures p >= 1
  {
    if k == 0 then 1 else 2 * Pow2(k - 1)
  }

  /** The bitwise or. */
  function Or(a: nat, b: nat): nat {
    if a == 0 && b == 0 then 0
    else 2 * Or(a / 2, b / 2) + if a % 2 == 1 || b % 2 == 1 then 1 else 0
  }

  lemma {:induction false} OrAtLeast(a: nat, b: nat)
    ensures Or(a, b) >= a && Or(a, b) >= b
  {
    if a != 0 || b != 0 {
      OrAtLeast(a / 2, b / 2);
    }
  }

  lemma {:induction false} OrBelow(a: nat, b: nat, k: nat)
    requires a < Pow2(k) && b < Pow2(k)
    ensures Or(a, b) < Pow2(k)
  {
    if k > 0 {
      OrBelow(a / 2, b / 2, k - 1);
    }
  }

  lemma OrStep(x: nat, b: nat)
    ensures Or(2 * x, b) == 2 * Or(x, b / 2) + b % 2
  {
    assert 2 * x / 2 == x && 2 * x % 2 == 0;
  }

  lemma Doubled(a: nat, p: nat)
    ensures a * (2 * p) == 2 * (a * p)
  {
  }

  /** Fields that do not overlap add up. */
  lemma {:induction false} OrApart(a: nat, b: nat, k: nat)
    requires b < Pow2(k)
    ensures Or(a * Pow2(k), b) == a * Pow2(k) + b
  {
    if k > 0 {
      OrApart(a, b / 2, k - 1);
      Doubled(a, Pow2(k - 1));
      OrStep(a * Pow2(k - 1), b);
    } else {
      OrZero(a);
    }
  }

  lemma {:induction false} OrZero(a: nat)
    ensures Or(a, 0) == a
  {
    if a != 0 {
      OrZero(a / 2);
    }
  }

  /** A number that smearing leaves alone has all bits below its highest one. */
  lemma {:induction false} SmearedFull(m: nat) returns (k: nat)
    requires Or(m, m / 2) == m
    ensures m + 1 == Pow2(k)
  {
    if m == 0 {
      k := 0;
    } else {
      k := SmearedFull(m / 2);
      if k == 0 {
        assert m == 1;
        k := 1;
        assert Pow2(1) == 2;
      } else {
        assert m / 2 == 2 * Pow2(k - 1) - 1;
        k := k + 1;
      }
    }
  }

  /** The bitwise and. */
  function And(a: nat, b: nat): nat {
    if a == 0 || b == 0 then 0
    else 2 * And(a / 2, b / 2) + if a % 2 == 1 && b % 2 == 1 then 1 else 0
  }

  /** The and with a mask of `k` bits is the remainder by its power of two. */
  lemma {:induction false} AndMask(a: nat, k: nat)
    ensures And(a, Pow2(k) - 1) == a % Pow2(k)
  {
    if k > 0 && a != 0 {
      assert Pow2(k) - 1 == 2 * (Pow2(k - 1) - 1) + 1;
      AndMask(a / 2, k - 1);
      ModDouble(a, Pow2(k - 1));
    } else if a == 0 {
      ModSmall(Pow2(k));
    }
  }

  lemma ModSmall(p: nat)
    requires p > 0
    ensures 0 % p == 0
  {
  }

  lemma ModDouble(a: nat, p: nat)
    requires p > 0
    ensures a % (2 * p) == 2 * (a / 2 % p) + a % 2
  {
    var q, r := a / 2 / p, a / 2 % p;
    assert a / 2 == q * p + r;
    assert a == q * (2 * p) + (2 * r + a % 2) by { assert q * (2 * p) == 2 * (q * p); }
    RemainderIs(a, 2 * p, q, 2 * r + a % 2);
  }

  lemma RemainderIs(a: nat, n: nat, q: nat, r: nat)
    requires n > 0 && a == q * n + r && r < n
    ensures a % n == r
  {
    var d := a / n - q;
    assert d * n == r - a % n by { assert a == a / n * n + a % n; }
    if d != 0 { MultipleIsFar(d, n); }
  }

  lemma MultipleIsFar(d: int, n: int)
    requires d != 0 && n > 0
    ensures d * n >= n || d * n <= -n
  {
  }
}
