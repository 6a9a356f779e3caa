/** Integer helpers shared by several puzzle modules: powers, Rust's
    truncating division, bitwise xor on naturals and decimal digit counts. */
module Arith {

  function Abs(x: int): nat {
    if x < 0 then -x else x
  }

  function Pow(b: nat, e: nat): (r: nat)
    ensures b >= 1 ==> r >= 1
  {
    if e == 0 then 1 else b * Pow(b, e - 1)
  }

  lemma {:induction false} PowAdd(b: nat, e1: nat, e2: nat)
    ensures Pow(b, e1 + e2) == Pow(b, e1) * Pow(b, e2)
    decreases e1
  {
    if e1 > 0 {
      PowAdd(b, e1 - 1, e2);
      PowStep(b, e1 + e2);
      PowStep(b, e1);
      MulAssoc(b, Pow(b, e1 - 1), Pow(b, e2));
    }
  }

  lemma PowStep(b: nat, e: nat)
    requires e >= 1
    ensures Pow(b, e) == b * Pow(b, e - 1)
  {
  }

  lemma MulAssoc(a: int, b: int, c: int)
    ensures a * (b * c) == (a * b) * c
  {
  }

  lemma {:induction false} PowStrictMono(b: nat, e1: nat, e2: nat)
    requires b >= 2 && e1 < e2
    ensures Pow(b, e1) < Pow(b, e2)
    decreases e2
  {
    if e1 + 1 < e2 {
      PowStrictMono(b, e1, e2 - 1);
    }
  }

  lemma PowMono(b: nat, e1: nat, e2: nat)
    requires b >= 2 && e1 <= e2
    ensures Pow(b, e1) <= Pow(b, e2)
  {
    if e1 < e2 {
      PowStrictMono(b, e1, e2);
    }
  }

  /** A power of a power multiplies the exponents. */
  lemma {:induction false} PowMul(b: nat, e1: nat, e2: nat)
    ensures Pow(Pow(b, e1), e2) == Pow(b, e1 * e2)
  {
    if e2 > 0 {
      PowMul(b, e1, e2 - 1);
      PowAdd(b, e1, e1 * (e2 - 1));
      assert e1 + e1 * (e2 - 1) == e1 * e2;
    }
  }

  /** Rust's `/` on signed integers: the quotient is rounded toward zero, so
      the remainder `a - q * b` takes the sign of the dividend. */
  function TruncDiv(a: int, b: int): (q: int)
    requires b != 0
    ensures Abs(a - q * b) < Abs(b)
    ensures a >= 0 ==> a - q * b >= 0
    ensures a <= 0 ==> a - q * b <= 0
  {
    if a >= 0 then
      if b > 0 then
        DivMod(a, b);
        a / b
      else
        DivMod(a, -b);
        MulNeg(a / -b, b);
        -(a / -b)
    else
      if b > 0 then
        DivMod(-a, b);
        MulNeg((-a) / b, b);
        -((-a) / b)
      else
        DivMod(-a, -b);
        MulNeg((-a) / (-b), b);
        (-a) / (-b)
  }

  lemma MulNeg(x: int, y: int)
    ensures (-x) * y == -(x * y) && x * (-y) == -(x * y)
  {
  }

  /** Rust's `%` on signed integers. */
  function TruncRem(a: int, b: int): (r: int)
    requires b != 0
    ensures Abs(r) < Abs(b)
    ensures a >= 0 ==> r >= 0
    ensures a <= 0 ==> r <= 0
    ensures a - r == TruncDiv(a, b) * b
  {
    a - TruncDiv(a, b) * b
  }

  lemma TruncAgreesOnNaturals(a: nat, b: nat)
    requires b > 0
    ensures TruncDiv(a, b) == a / b && TruncRem(a, b) == a % b
  {
  }

  /** Bitwise exclusive or of two non-negative integers, bit by bit from the
      least significant end. */
  function Xor(a: nat, b: nat): nat
    decreases a + b
  {
    if a == 0 then b
    else if b == 0 then a
    else 2 * Xor(a / 2, b / 2) + (if a % 2 == b % 2 then 0 else 1)
  }

  lemma {:induction false} XorSelf(a: nat)
    ensures Xor(a, a) == 0
    decreases a
  {
    if a != 0 {
      XorSelf(a / 2);
    }
  }

  lemma {:induction false} XorComm(a: nat, b: nat)
    ensures Xor(a, b) == Xor(b, a)
    decreases a + b
  {
    if a != 0 && b != 0 {
      XorComm(a / 2, b / 2);
    }
  }

  lemma {:induction false} XorBound(a: nat, b: nat, k: nat)
    requires a < Pow(2, k) && b < Pow(2, k)
    ensures Xor(a, b) < Pow(2, k)
    decreases k
  {
    if a != 0 && b != 0 {
      assert k > 0;
      XorBound(a / 2, b / 2, k - 1);
    }
  }

  /** Euclidean division by a positive divisor. */
  lemma DivMod(a: int, b: int)
    requires b > 0
    ensures a == (a / b) * b + a % b && 0 <= a % b < b
    ensures a >= 0 ==> a / b >= 0
  {
  }

  /** Euclidean quotient and remainder are determined by q * p + m with
      0 <= m < p. */
  lemma DivModUnique(r: int, p: int, q: int, m: int)
    requires p > 0 && 0 <= m < p && r == q * p + m
    ensures r / p == q && r % p == m
  {
    var q' := r / p;
    var m' := r % p;
    assert r == q' * p + m';
    var d := q - q';
    assert d * p == m' - m;
    if d > 0 {
      MulAtLeast(d, p);
    } else if d < 0 {
      MulAtLeast(-d, p);
    }
  }

  lemma MulAtLeast(d: int, p: int)
    requires d >= 1 && p > 0
    ensures d * p >= p
  {
    assert (d - 1) * p >= 0;
  }

  lemma MulMonoLeft(a: int, b: int, c: int)
    requires a >= 0 && b <= c
    ensures a * b <= a * c
  {
    assert a * c - a * b == a * (c - b);
  }

  /** Number of decimal digits of n; 0 has one digit. */
  function NumDigits(n: nat): (d: nat)
    ensures d >= 1
    ensures n < Pow(10, d)
    ensures n >= 1 ==> Pow(10, d - 1) <= n
  {
    if n < 10 then 1 else 1 + NumDigits(n / 10)
  }

  /** The digit count is determined by the power-of-ten bracket. */
  lemma {:induction false} NumDigitsUnique(n: nat, d: nat)
    requires d >= 1 && Pow(10, d - 1) <= n < Pow(10, d)
    ensures NumDigits(n) == d
  {
    var e := NumDigits(n);
    if e < d {
      if e < d - 1 {
        PowStrictMono(10, e, d - 1);
      }
      assert false;
    } else if e > d {
      if d < e - 1 {
        PowStrictMono(10, d, e - 1);
      }
      assert false;
    }
  }

  /** 10^d - 1, the largest number of d digits, has d digits. */
  lemma AllNines(d: nat)
    requires d >= 1
    ensures Pow(10, d) - 1 >= 1 && NumDigits(Pow(10, d) - 1) == d
  {
    var top := Pow(10, d);
    PowStep(10, d);
    NumDigitsUnique(top - 1, d);
  }

  /** A larger number has at least as many digits. */
  lemma {:induction false} NumDigitsMono(a: nat, b: nat)
    requires a <= b
    ensures NumDigits(a) <= NumDigits(b)
  {
    if a >= 10 {
      NumDigitsMono(a / 10, b / 10);
    }
  }

  /** Powers of ten around a number compare their exponents. */
  lemma ExponentOrder(x: int, e1: nat, e2: nat)
    requires Pow(10, e1) <= x < Pow(10, e2)
    ensures e1 < e2
  {
    if e1 >= e2 {
      PowMono(10, e2, e1);
    }
  }

  lemma MulStrictMono(a: int, b: int, c: int)
    requires a >= 1 && b < c
    ensures a * b < a * c
  {
    assert a * c - a * b == a * (c - b);
  }

  lemma MulComm(a: int, b: int)
    ensures a * b == b * a
  {
  }

  lemma MulCancelLt(b: int, u: int, v: int)
    requires b >= 1 && b * u < b * v
    ensures u < v
  {
    if u >= v {
      MulMonoLeft(b, v, u);
    }
  }

  lemma MulCancelLe(b: int, u: int, v: int)
    requires b >= 1 && b * u <= b * v
    ensures u <= v
  {
    if u > v {
      MulMonoLeft(b, v + 1, u);
    }
  }

  /** A number with more digits is larger. */
  lemma MoreDigitsGreater(a: nat, b: nat)
    requires NumDigits(a) > NumDigits(b)
    ensures a > b
  {
    if a <= b {
      NumDigitsMono(a, b);
    }
  }

  /** An exact quotient. */
  lemma DivExact(d: nat, n: nat)
    requires n >= 1 && d % n == 0
    ensures d == (d / n) * n && (d >= 1 ==> d / n >= 1)
  {
  }

  lemma MulSucc(n: int, b: int)
    ensures n * (b + 1) == b * n + n && (b + 1) * n == b * n + n
  {
  }

  lemma MulMod(q: nat, n: nat)
    requires n >= 1
    ensures (q * n) % n == 0 && (q * n) / n == q
  {
    DivModUnique(q * n, n, q, 0);
  }

  /** The least multiple of n above a non-multiple a is (a / n + 1) * n. */
  lemma NextMultiple(a: nat, c: nat, n: nat)
    requires n >= 1 && a % n != 0 && c % n == 0 && c >= a
    ensures c >= (a / n + 1) * n
  {
    DivExact(c, n);
    assert a == (a / n) * n + a % n;
    MulCancelLt(n, a / n, c / n);
    MulMonoLeft(n, a / n + 1, c / n);
  }

  /** The greatest multiple of n below a non-multiple a is (a / n) * n. */
  lemma PrevMultiple(a: nat, c: nat, n: nat)
    requires n >= 1 && a % n != 0 && c % n == 0 && c <= a
    ensures c <= (a / n) * n
  {
    DivExact(c, n);
    assert a == (a / n) * n + a % n;
    assert n * (a / n + 1) == (a / n) * n + n;
    MulCancelLt(n, c / n, a / n + 1);
    MulMonoLeft(n, c / n, a / n);
  }
}
