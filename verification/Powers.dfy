// Powers of ten as exact rationals, and powers of the digit base as integers.
//
// `Shift` moves a rational by decimal places. Lemmas about it hide the recursive
// powers, and lemmas elsewhere hide `Shift`, so that the solver never has to
// multiply powers by itself.
module Powers {

  const NBASE := 10000
  const HALF_NBASE := 5000
  const DEC_DIGITS := 4

  function Ten(e: int): (r: real)
    ensures r > 0.0
    decreases if e < 0 then -e else e
  {
    if e == 0 then 1.0 else if e > 0 then 10.0 * Ten(e - 1) else Ten(e + 1) / 10.0
  }

  /** x * 10^e */
  function Shift(x: real, e: int): real {
    x * Ten(e)
  }

  /** x * y under a name that can be hidden, so that equal factors give equal products by congruence. */
  function Times(x: real, y: real): real {
    x * y
  }

  lemma TenStep(e: int)
    ensures Ten(e + 1) == 10.0 * Ten(e)
  {
  }

  lemma TenZero()
    ensures Ten(0) == 1.0
  {
  }

  lemma {:induction false} TenAdd(a: int, b: int)
    ensures Ten(a + b) == Ten(a) * Ten(b)
    decreases if b < 0 then -b else b
  {
    hide Ten;
    if b > 0 {
      TenAdd(a, b - 1); TenStep(a + b - 1); TenStep(b - 1);
    } else if b < 0 {
      TenAdd(a, b + 1); TenStep(a + b); TenStep(b);
    } else {
      TenZero();
    }
  }

  lemma {:induction false} TenMonotone(a: int, b: int)
    requires a <= b
    ensures Ten(a) <= Ten(b)
    decreases b - a
  {
    hide Ten;
    if a < b {
      TenMonotone(a, b - 1);
      TenStep(b - 1);
    }
  }

  lemma ShiftShift(x: real, a: int, b: int)
    ensures Shift(Shift(x, a), b) == Shift(x, a + b)
  {
    hide Ten;
    TenAdd(a, b);
    Associate(x, Ten(a), Ten(b));
  }

  lemma ShiftBack(x: real, a: int)
    ensures Shift(Shift(x, a), -a) == x && Shift(Shift(x, -a), a) == x
  {
    hide Ten, Shift;
    ShiftShift(x, a, -a);
    ShiftShift(x, -a, a);
    ShiftNone(x);
  }

  lemma ShiftNone(x: real)
    ensures Shift(x, 0) == x
  {
  }

  lemma ShiftSum(x: real, y: real, e: int)
    ensures Shift(x + y, e) == Shift(x, e) + Shift(y, e)
    ensures Shift(x - y, e) == Shift(x, e) - Shift(y, e)
  {
    hide Ten;
    Distribute(x, y, Ten(e));
  }

  lemma ShiftTimes(k: real, x: real, e: int)
    ensures Shift(k * x, e) == k * Shift(x, e)
  {
    hide Ten;
    Associate(k, x, Ten(e));
  }

  lemma ShiftProduct(x: real, a: int, y: real, b: int)
    ensures Shift(x, a) * Shift(y, b) == Shift(x * y, a + b)
  {
    hide Ten, Shift;
    ShiftTimes(y, Shift(x, a), b);
    ShiftTimes(Shift(x, a), y, b);
    ShiftTimes(y, x, a);
    ShiftShift(y * x, a, b);
  }

  lemma ShiftTimesTimes(x: real, a: int, y: real, b: int)
    ensures Times(Shift(x, a), Shift(y, b)) == Shift(Times(x, y), a + b)
  {
    hide Ten, Shift;
    ShiftProduct(x, a, y, b);
  }

  lemma TimesInt(m: int, n: int)
    ensures Times(m as real, n as real) == (m * n) as real
  {
    ProductAsReal(m, n);
  }

  lemma TimesZero(x: real, y: real)
    ensures x == 0.0 || y == 0.0 ==> Times(x, y) == 0.0
  {
  }

  /** Shifting keeps order, sign and zero. */
  lemma ShiftOrder(x: real, y: real, e: int)
    ensures x < y <==> Shift(x, e) < Shift(y, e)
    ensures x == y <==> Shift(x, e) == Shift(y, e)
    ensures Shift(0.0, e) == 0.0
  {
    hide Ten;
    Distribute(x, y, Ten(e));
    ProductSign(x - y, Ten(e));
    ProductSign(y - x, Ten(e));
  }

  lemma ShiftByFour(x: real)
    ensures Shift(x, 1) == 10.0 * x && Shift(x, 2) == 100.0 * x && Shift(x, 3) == 1000.0 * x
    ensures Shift(x, 4) == 10000.0 * x
  {
    hide Ten;
    TenZero(); TenStep(0); TenStep(1); TenStep(2); TenStep(3);
  }

  lemma ShiftOneMonotone(a: int, b: int)
    requires a <= b
    ensures 0.0 < Shift(1.0, a) <= Shift(1.0, b)
  {
    hide Ten;
    TenMonotone(a, b);
  }

  /** NBASE to the k-th power. */
  function BP(k: nat): (r: nat)
    ensures r > 0
  {
    if k == 0 then 1 else NBASE * BP(k - 1)
  }

  lemma BPZero()
    ensures BP(0) == 1
  {
  }

  lemma BPStep(k: nat)
    ensures BP(k + 1) == NBASE * BP(k)
  {
  }

  lemma {:induction false} BPAdd(a: nat, b: nat)
    ensures BP(a + b) == BP(a) * BP(b)
  {
    hide BP;
    if b == 0 {
      BPZero();
    } else {
      BPAdd(a, b - 1); BPStep(a + b - 1); BPStep(b - 1);
    }
  }

  lemma {:induction false} BPMonotone(a: nat, b: nat)
    requires a <= b
    ensures BP(a) <= BP(b)
    decreases b
  {
    hide BP;
    if a < b {
      BPMonotone(a, b - 1);
      BPStep(b - 1);
    }
  }

  /** Appending k zero digits multiplies by NBASE^k, that is, moves 4k decimal places. */
  lemma {:induction false} ShiftBP(n: int, k: nat)
    ensures Shift(n as real, 4 * k) == (n * BP(k)) as real
  {
    hide BP, Ten, Shift;
    if k == 0 {
      BPZero();
      ShiftNone(n as real);
    } else {
      ShiftBP(n, k - 1);
      BPStep(k - 1);
      ShiftShift(n as real, 4 * (k - 1), 4);
      ShiftByFour(Shift(n as real, 4 * (k - 1)));
      assert n * (NBASE * BP(k - 1)) == NBASE * (n * BP(k - 1));
    }
  }

  lemma ProductAsReal(a: int, b: int)
    ensures (a * b) as real == a as real * b as real
  {
  }

  lemma Associate(x: real, y: real, z: real)
    ensures (x * y) * z == x * (y * z)
  {
  }

  lemma ProductSign(a: real, b: real)
    ensures a >= 0.0 && b >= 0.0 ==> a * b >= 0.0
    ensures a > 0.0 && b > 0.0 ==> a * b > 0.0
  {
  }

  lemma Distribute(x: real, y: real, e: real)
    ensures (x + y) * e == x * e + y * e && (x - y) * e == x * e - y * e
  {
  }

  lemma CancelOrder(a: real, b: real, z: real)
    requires z > 0.0
    ensures a * z <= b * z ==> a <= b
    ensures a * z < b * z ==> a < b
  {
    Distribute(a, b, z);
    ProductSign(a - b, z);
  }

  lemma DistributeInt(x: int, y: int, e: int)
    ensures (x + y) * e == x * e + y * e && (x - y) * e == x * e - y * e
  {
  }

  lemma NonNegativeProduct(a: int, b: int)
    requires a >= 0 && b >= 0
    ensures a * b >= 0
  {
  }

  lemma NextMultiple(a: int, b: int, v: int)
    requires a < b && v >= 0
    ensures a * v + v <= b * v
  {
    NonNegativeProduct(b - a - 1, v);
    DistributeInt(b - a, 1, v);
    DistributeInt(b, a, v);
  }

  /** Multiplying by a positive factor keeps the order. */
  lemma ScaleOrder(d: int, x: int, y: int)
    requires d >= 1
    ensures x < y ==> d * x < d * y
    ensures x == y ==> d * x == d * y
  {
    if x < y {
      NextMultiple(x, y, d);
    }
  }

  lemma ProductBelow(x: int, y: int, p: int, q: int)
    requires 0 <= x < p && 0 <= y < q
    ensures 0 <= x * y < p * q
  {
    NonNegativeProduct(x, y);
    NonNegativeProduct(p - 1 - x, y);
    NonNegativeProduct(p, q - 1 - y);
    DistributeInt(p - 1, x, y);
    DistributeInt(p, 1, y);
    assert p * (q - 1 - y) == p * q - p - p * y;
  }

  lemma AtLeastOnce(q: int, p: int)
    requires p > 0 && q >= 1
    ensures q * p >= p
  {
  }

  /** A multiple of p that stays below p is zero. */
  lemma SmallMultiple(q: int, p: int, t: int)
    requires p > 0 && q >= 0 && t >= 0 && q * p + t < p
    ensures q == 0
  {
    if q != 0 {
      AtLeastOnce(q, p);
    }
  }
}
