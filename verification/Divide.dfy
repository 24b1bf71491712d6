// Division of decimals: long division to enough digits, then rounding or truncation.
module Divide {
  import opened Powers
  import opened Digits
  import opened Decimals
  import opened Rounding
  import opened LongDivision
  import opened Multiply
  import AddSub

  /** Rounding what has already been cut off at a finer scale is rounding the number itself. */
  lemma RoundOfCut(x: real, fine: int, scale: int)
    ensures scale < fine ==> RoundHalfUp(RoundDown(x, fine), scale) == RoundHalfUp(x, scale)
    ensures scale <= fine ==> RoundDown(RoundDown(x, fine), scale) == RoundDown(x, scale)
  {
    hide Shift;
    if scale <= fine {
      var y, g := Shift(x, fine), fine - scale;
      var q := y.Floor;
      ShiftShift(q as real, -fine, scale);
      ShiftShift(x, fine, -g);
      ShiftOrder(y, q as real, -g);
      assert Shift(RoundDown(x, fine), scale) == Shift(q as real, -g) && Shift(x, scale) == Shift(y, -g);
      CutKeepsInt(Shift(y, -g).Floor, y, g);
      FloorIs(Shift(q as real, -g), Shift(y, -g).Floor);
      if scale < fine {
        var t := (Shift(y, -g) + 0.5).Floor;
        HalfIsInt(t, y, g);
        FloorIs(Shift(q as real, -g) + 0.5, t);
      }
    }
  }

  lemma FloorAtLeast(y: real, m: int)
    requires m as real <= y
    ensures m <= y.Floor
  {
  }

  /** A bound that is an integer at the fine scale survives cutting y there. */
  lemma CutKeeps(h: real, m: int, y: real, g: int)
    requires Shift(h, g) == m as real && h <= Shift(y, -g)
    ensures h <= Shift(y.Floor as real, -g)
  {
    hide Shift;
    ShiftBack(h, g);
    ShiftOrder(y, m as real, -g);
    FloorAtLeast(y, m);
    ShiftOrder(y.Floor as real, m as real, -g);
  }

  lemma CutKeepsInt(t: int, y: real, g: int)
    requires g >= 0 && t as real <= Shift(y, -g)
    ensures t as real <= Shift(y.Floor as real, -g)
  {
    hide Shift;
    var m := ShiftInt(t, g);
    CutKeeps(t as real, m, y, g);
  }

  lemma HalfIsInt(t: int, y: real, g: int)
    requires g >= 1 && t as real <= Shift(y, -g) + 0.5
    ensures t as real <= Shift(y.Floor as real, -g) + 0.5
  {
    hide Shift;
    var h := t as real - 0.5;
    var m := HalfShift(t, h, g);
    CutKeeps(h, m, y, g);
  }

  lemma HalfShift(t: int, h: real, g: int) returns (m: int)
    requires g >= 1 && h == t as real - 0.5
    ensures Shift(h, g) == m as real
  {
    hide Shift;
    ShiftByFour(h);
    m := ShiftInt(10 * t - 5, g - 1);
    ShiftShift(h, 1, g - 1);
  }

  /** x times the divisor, seen in the quotient's last column, is the dividend. */
  lemma QuotientScale(x: real, l: seq<int>, lw: int, r: seq<int>, rw: int, len: nat, k: nat, e: int)
    requires |l| <= len && x * Magnitude(r, rw) == Magnitude(l, lw)
    requires 4 * k - e + 4 * (lw - len + 1) - 4 * (rw - |r| + 1) == 0
    ensures Shift(x, -e) * (N(r) * BP(k)) as real == N(Window(l, 0, len)) as real
  {
    hide N, BP, Shift;
    var a, b, w := 4 * (lw - len + 1), 4 * (rw - |r| + 1), N(Window(l, 0, len)) as real;
    var nr := N(r) as real;
    MagnitudeWindow(l, lw, 0, len);
    ShiftTimes(x, nr, b);
    assert Shift(x * nr, b) == Shift(w, a);
    ShiftShift(x * nr, b, -b);
    ShiftNone(x * nr);
    ShiftShift(w, a, -b);
    assert x * nr == Shift(w, a - b);
    ShiftBP(N(r), k);
    ShiftProduct(x, -e, nr, 4 * k);
    ShiftShift(w, a - b, 4 * k - e);
    ShiftNone(w);
  }

  lemma QuotientFloor(y: real, d: int, w: int, q: int, t: int)
    requires d > 0 && y * d as real == w as real && t == q * d && 0 <= w - t < d
    ensures y.Floor == q
  {
    var z := d as real;
    ProductAsReal(q, d);
    Distribute(q as real, 1.0, z);
    assert q as real * z == t as real && y * z == w as real;
    assert (q as real + 1.0) * z == t as real + z;
    CancelOrder(q as real, y, z);
    CancelOrder(y, q as real + 1.0, z);
    FloorIs(y, q);
  }

  /** Long division yields the quotient cut off below its last digit. */
  lemma QuotientIsCut(q: seq<int>, l: seq<int>, lw: int, r: seq<int>, rw: int, len: nat, x: real)
    requires IsDigits(r) && r != [] && r[0] != 0 && |l| <= len && |q| + |r| <= len
    requires IsQuotient(N(q), l, len, r, len + 1 - |q| - |r|)
    requires x * Magnitude(r, rw) == Magnitude(l, lw)
    ensures Magnitude(q, lw - rw) == RoundDown(x, -4 * (lw - rw - |q| + 1))
  {
    hide N, BP, Shift, Window;
    var k, e := len + 1 - |q| - |r|, 4 * (lw - rw - |q| + 1);
    NHead(r); NBound(r[1..]);
    AtLeastOnce(r[0], BP(|r| - 1));
    NonNegativeProduct(N(r) - 1, BP(k));
    DistributeInt(N(r), 1, BP(k));
    QuotientScale(x, l, lw, r, rw, len, k, e);
    assert N(q) * N(r) * BP(k) == N(q) * (N(r) * BP(k));
    QuotientFloor(Shift(x, -e), N(r) * BP(k), N(Window(l, 0, len)), N(q), Taken(N(q), N(r), k));
    assert -(-e) == e;
  }

  /** The number of quotient digits computed. */
  function QuotientDigits(weight: int, rscale: int, isRound: bool): int {
    AddSub.Max(weight + 1 + (rscale + DEC_DIGITS - 1) / DEC_DIGITS, 1) + if isRound then 1 else 0
  }

  /** |left| / |right| cut to the requested scale. */
  ghost function QuotientAt(x: real, rscale: int, isRound: bool): real {
    if isRound then RoundHalfUp(x, rscale) else RoundDown(x, rscale)
  }

  lemma EnoughDigits(x: real, weight: int, n: int, rscale: int, isRound: bool)
    requires rscale >= 0 && n == QuotientDigits(weight, rscale, isRound)
    ensures QuotientAt(RoundDown(x, -4 * (weight - n + 1)), rscale, isRound) == QuotientAt(x, rscale, isRound)
  {
    RoundOfCut(x, -4 * (weight - n + 1), rscale);
  }

  method Div(left: Decimal, right: Decimal, result: Decimal, rscale: int, isRound: bool) returns (rc: int)
    requires left.Finite() && right.Finite() && rscale >= 0
    modifies result
    ensures old(right.ndigits == 0 || right.Digs()[0] == 0) ==> rc == -6 && unchanged(result)
    ensures old(right.ndigits > 0 && right.Digs()[0] != 0) ==>
              && rc == 0 && result.Finite() && result.Stripped() && result.dscale == rscale && fresh(result.buff)
              && old(right.Mag()) > 0.0
              && result.Mag() == QuotientAt(old(left.Mag()) / old(right.Mag()), rscale, isRound)
              && result.sign == if old(left.sign == right.sign) || result.Mag() == 0.0 then Pos else Neg
  {
    hide N, BP, Shift, Magnitude, RoundHalfUp, RoundDown, DigitsAt, RoomAt, IsDigits, IsStripped, IsQuotient;
    var l, r := left.Digs(), right.Digs();
    DigitsOf(left); DigitsOf(right);
    if |r| == 0 || r[0] == 0 {
      return -6;
    }
    MagnitudeStripped(r, right.weight);
    ghost var x := left.Mag() / right.Mag();
    if |l| == 0 {
      MagnitudeStripped(l, left.weight);
      RoundOfZero(rscale);
      ZeroResult(result, rscale);
      return 0;
    }
    var sign := if left.sign == right.sign then Pos else Neg;
    var weight := left.weight - right.weight;
    var n := QuotientDigits(weight, rscale, isRound);
    var res;
    ghost var fits;
    res, fits := DivDigits(l, r, n);
    ghost var len := AddSub.Max(n + |r|, |l|);
    DivisionUndone(left.Mag(), right.Mag());
    QuotientIsCut(res[1..], l, left.weight, r, right.weight, len, x);
    EnoughDigits(x, weight, n, rscale, isRound);
    if isRound {
      rc := FinishRounded(result, res, weight, sign, rscale);
    } else {
      FinishTruncated(result, res, weight, sign, rscale);
      rc := 0;
    }
  }

  lemma DivisionUndone(a: real, b: real)
    requires b > 0.0
    ensures (a / b) * b == a
  {
  }

  const MIN_SIG_DIGITS := 16
  const MIN_DISPLAY_SCALE := 0
  const MAX_DISPLAY_SCALE := 1000

  /** Weight and value of the first nonzero digit; (0, 0) for zero. */
  function Lead(s: seq<int>, w: int): (int, int) {
    if s == [] then (0, 0) else if s[0] != 0 then (w, s[0]) else Lead(s[1..], w - 1)
  }

  /** The display scale a quotient asks for, before it is capped. */
  function WantedScale(l: seq<int>, lw: int, ld: int, r: seq<int>, rw: int, rd: int): int {
    var a, b := Lead(l, lw), Lead(r, rw);
    var qweight := if a.1 <= b.1 then a.0 - b.0 - 1 else a.0 - b.0;
    AddSub.Max(AddSub.Max(AddSub.Max(MIN_SIG_DIGITS - qweight * DEC_DIGITS, ld), rd), MIN_DISPLAY_SCALE)
  }

  method FirstDigit(s: seq<int>, w: int) returns (weight: int, first: int)
    requires IsDigits(s)
    ensures (weight, first) == Lead(s, w)
    ensures AllZero(s) ==> weight == 0 && first == 0
    ensures !AllZero(s) ==> 0 < first < NBASE
    ensures !AllZero(s) ==> Shift(first as real, 4 * weight) <= Magnitude(s, w) < Shift((first + 1) as real, 4 * weight)
  {
    hide N, Shift, Magnitude;
    weight, first := 0, 0;
    var i := 0;
    assert s[0..] == s;
    while i < |s|
      invariant 0 <= i <= |s| && weight == 0 && first == 0
      invariant AllZero(s[..i]) && Magnitude(s[i..], w - i) == Magnitude(s, w) && Lead(s[i..], w - i) == Lead(s, w)
    {
      first := s[i];
      MagnitudePeel(s[i..], w - i);
      assert s[i..][1..] == s[i + 1..];
      if first != 0 {
        weight := w - i;
        MagnitudeBound(s[i + 1..], w - i - 1);
        assert 4 * (w - i - 1 + 1) == 4 * weight;
        ShiftSum(first as real, 1.0, 4 * weight);
        return;
      }
      ShiftOrder(0.0, 0.0, 4 * (w - i));
      i := i + 1;
    }
    assert s[..i] == s;
  }

  lemma ShiftBelowQuotient(a: real, b: real, q: int)
    requires b > 0.0 && Shift(b, q) <= a
    ensures Shift(1.0, q) <= a / b
  {
    hide Shift;
    ShiftTimes(b, 1.0, q);
    var u, x := Shift(1.0, q), a / b;
    DivisionUndone(a, b);
    Distribute(u, x, b);
    ProductSign(u - x, b);
  }

  /** The estimated quotient weight is a true lower bound. */
  lemma QuotientWeight(a: real, w1: int, f1: int, b: real, w2: int, f2: int)
    requires 0 < f1 < NBASE && 0 < f2 < NBASE && b > 0.0
    requires Shift(f1 as real, 4 * w1) <= a && b < Shift((f2 + 1) as real, 4 * w2)
    ensures Shift(1.0, 4 * if f1 <= f2 then w1 - w2 - 1 else w1 - w2) <= a / b
  {
    hide Shift;
    var g := (f2 + 1) as real;
    if f1 <= f2 {
      var q := 4 * (w1 - w2 - 1);
      ShiftOrder(b, Shift(g, 4 * w2), q);
      ShiftShift(g, 4 * w2, q);
      ShiftByFour(1.0);
      ShiftOrder(10000.0, g, 4 * (w1 - 1));
      ShiftShift(1.0, 4, 4 * (w1 - 1));
      ShiftOrder(f1 as real, 1.0, 4 * w1);
      ShiftBelowQuotient(a, b, q);
    } else {
      var q := 4 * (w1 - w2);
      ShiftOrder(b, Shift(g, 4 * w2), q);
      ShiftShift(g, 4 * w2, q);
      ShiftOrder(f1 as real, g, 4 * w1);
      ShiftBelowQuotient(a, b, q);
    }
  }

  /** And not far below the quotient: two units of the next weight are above it. */
  lemma QuotientBelow(a: real, w1: int, f1: int, b: real, w2: int, f2: int)
    requires Leads(a, w1, f1) && Leads(b, w2, f2) && b > 0.0
    ensures a / b < 2.0 * Shift(1.0, 4 + 4 * if f1 <= f2 then w1 - w2 - 1 else w1 - w2)
  {
    hide Shift;
    var e := 4 + 4 * if f1 <= f2 then w1 - w2 - 1 else w1 - w2;
    var h := f2 as real;
    var g := 2.0 * h;
    ShiftTimes(2.0, h, 4 * w2);
    LeadBounds(b, w2, f2);
    assert Shift(g, 4 * w2) == 2.0 * Shift(h, 4 * w2);
    assert Shift(h, 4 * w2) <= b;
    ShiftOrder(2.0 * b, Shift(g, 4 * w2), e);
    ShiftShift(g, 4 * w2, e);
    if f1 <= f2 {
      assert 4 * w2 + e == 4 * w1;
      ShiftOrder((f1 + 1) as real, g, 4 * w1);
      ShiftOrder(g, (f1 + 1) as real, 4 * w1);
    } else {
      assert 4 * w2 + e == 4 + 4 * w1;
      ShiftShift(g, 4, 4 * w1);
      ShiftByFour(g);
      ShiftOrder(Shift(g, 4), (f1 + 1) as real, 4 * w1);
    }
    assert Shift((f1 + 1) as real, 4 * w1) <= Shift(Shift(g, 4 * w2), e);
    assert Shift(Shift(g, 4 * w2), e) <= Shift(2.0 * b, e);
    QuotientUnder(a, b, e);
  }

  lemma QuotientUnder(a: real, b: real, e: int)
    requires b > 0.0 && a < Shift(2.0 * b, e)
    ensures a / b < 2.0 * Shift(1.0, e)
  {
    hide Shift;
    ShiftTimes(2.0 * b, 1.0, e);
    var u, x := 2.0 * Shift(1.0, e), a / b;
    assert 2.0 * b * Shift(1.0, e) == u * b;
    DivisionUndone(a, b);
    CancelOrder(x, u, b);
  }

  /** f is the first base-10000 digit of m, of weight w. */
  ghost predicate Leads(m: real, w: int, f: int) {
    0 < f < NBASE && Shift(f as real, 4 * w) <= m < Shift((f + 1) as real, 4 * w)
  }

  lemma LeadAbove(m: real, w: int, f: int, w': int, f': int)
    requires Leads(m, w, f) && Leads(m, w', f')
    ensures w' <= w && (w == w' ==> f' <= f)
  {
    hide Shift;
    if w < w' {
      ShiftByFour(1.0);
      ShiftShift(1.0, 4, 4 * w);
      ShiftOrder(10000.0, (f + 1) as real, 4 * w);
      ShiftOneMonotone(4 * (w + 1), 4 * w');
      ShiftOrder(f' as real, 1.0, 4 * w');
    } else if w == w' && f < f' {
      ShiftOrder(f' as real, (f + 1) as real, 4 * w);
    }
  }

  /** The scale of a quotient of a by b, said of the numbers alone: it covers both display scales; it shows at least
      sixteen significant digits; unless a display scale asks for more, it shows fewer than twenty-one; and which
      multiple of four it is depends on the first digits. For a zero it goes by the divisor. */
  ghost predicate ScaleSuits(wanted: int, ld: int, rd: int, a: real, b: real)
    requires b > 0.0
  {
    && wanted >= ld && wanted >= rd && wanted >= 0
    && (a > 0.0 ==> Shift(1.0, 16 - wanted) <= a / b)
    && (a > 0.0 && wanted !in {ld, rd, 0} ==> a / b < 2.0 * Shift(1.0, 20 - wanted))
    && (forall w1, f1, w2, f2 :: Leads(a, w1, f1) && Leads(b, w2, f2) && wanted !in {ld, rd, 0} ==>
          wanted == (if f1 <= f2 then 20 else 16) - 4 * (w1 - w2))
    && (a == 0.0 ==> b < Shift(1.0, wanted - 16))
    && (a == 0.0 && wanted !in {ld, rd, 0} ==> Shift(1.0, wanted - 20) <= b)
  }

  lemma ScaleOfQuotient(wanted: int, ld: int, rd: int, a: real, w1: int, f1: int, b: real, w2: int, f2: int, q: int)
    requires Leads(a, w1, f1) && Leads(b, w2, f2) && a > 0.0 && b > 0.0
    requires q == (if f1 <= f2 then w1 - w2 - 1 else w1 - w2)
    requires wanted == AddSub.Max(AddSub.Max(AddSub.Max(16 - 4 * q, ld), rd), 0)
    ensures ScaleSuits(wanted, ld, rd, a, b)
  {
    hide Shift, Leads;
    LeadBounds(a, w1, f1); LeadBounds(b, w2, f2);
    QuotientWeight(a, w1, f1, b, w2, f2);
    ShiftOneMonotone(16 - wanted, 4 * q);
    QuotientBelow(a, w1, f1, b, w2, f2);
    forall v1, g1, v2, g2 | Leads(a, v1, g1) && Leads(b, v2, g2) ensures v1 == w1 && g1 == f1 && v2 == w2 && g2 == f2 {
      LeadAbove(a, w1, f1, v1, g1); LeadAbove(a, v1, g1, w1, f1);
      LeadAbove(b, w2, f2, v2, g2); LeadAbove(b, v2, g2, w2, f2);
    }
  }

  lemma LeadBounds(m: real, w: int, f: int)
    requires Leads(m, w, f)
    ensures 0 < f < NBASE && Shift(f as real, 4 * w) <= m < Shift((f + 1) as real, 4 * w)
  {
  }

  lemma ScaleOfZero(wanted: int, ld: int, rd: int, b: real, w2: int, f2: int)
    requires Leads(b, w2, f2) && b > 0.0 && wanted == AddSub.Max(AddSub.Max(AddSub.Max(16 + 4 * (w2 + 1), ld), rd), 0)
    ensures ScaleSuits(wanted, ld, rd, 0.0, b)
  {
    hide Shift;
    ShiftByFour(1.0);
    ShiftShift(1.0, 4, 4 * w2);
    ShiftOrder(10000.0, (f2 + 1) as real, 4 * w2);
    ShiftOrder(f2 as real, 1.0, 4 * w2);
    ShiftOneMonotone(4 * (w2 + 1), wanted - 16);
    forall w1, f1 | Leads(0.0, w1, f1) ensures false {
      ShiftOrder(f1 as real, 0.0, 4 * w1);
    }
  }

  /** The result scale: at least 16 significant digits and no fewer decimals than either operand,
      unless that is more than 1000. */
  method GetDivScale(left: Decimal, right: Decimal) returns (rscale: int)
    requires left.Valid() && right.Valid()
    ensures var wanted := WantedScale(left.Digs(), left.weight, left.dscale, right.Digs(), right.weight, right.dscale);
            && rscale == Min(wanted, MAX_DISPLAY_SCALE)
            && wanted >= left.dscale && wanted >= right.dscale && wanted >= MIN_DISPLAY_SCALE
            && left.Mag() >= 0.0 && right.Mag() >= 0.0
            && (right.Mag() > 0.0 ==> ScaleSuits(wanted, left.dscale, right.dscale, left.Mag(), right.Mag()))
  {
    hide N, Shift, Magnitude, Lead, ScaleSuits;
    var weight1, firstdigit1 := FirstDigit(left.Digs(), left.weight);
    var weight2, firstdigit2 := FirstDigit(right.Digs(), right.weight);
    var qweight := weight1 - weight2;
    if firstdigit1 <= firstdigit2 {
      qweight := qweight - 1;
    }
    rscale := MIN_SIG_DIGITS - qweight * DEC_DIGITS;
    rscale := AddSub.Max(rscale, left.dscale);
    rscale := AddSub.Max(rscale, right.dscale);
    rscale := AddSub.Max(rscale, MIN_DISPLAY_SCALE);
    MagnitudeNonNegative(left.Digs(), left.weight);
    MagnitudeNonNegative(right.Digs(), right.weight);
    if right.Mag() > 0.0 {
      if left.Mag() > 0.0 {
        ScaleOfQuotient(rscale, left.dscale, right.dscale, left.Mag(), weight1, firstdigit1,
                        right.Mag(), weight2, firstdigit2, qweight);
      } else {
        ScaleOfZero(rscale, left.dscale, right.dscale, right.Mag(), weight2, firstdigit2);
      }
    }
    rscale := Min(rscale, MAX_DISPLAY_SCALE);
  }

  function Min(a: int, b: int): int {
    if a < b then a else b
  }

  /** Rounding at a scale that shows 16 significant digits is off by at most half of 10^-16 of the value. */
  lemma RelativeError(x: real, scale: int)
    requires Shift(1.0, MIN_SIG_DIGITS - scale) <= x
    ensures 2.0 * (RoundHalfUp(x, scale) - x) <= Shift(x, -MIN_SIG_DIGITS)
    ensures 2.0 * (x - RoundHalfUp(x, scale)) <= Shift(x, -MIN_SIG_DIGITS)
  {
    hide Shift, RoundHalfUp;
    RoundError(x, scale);
    ShiftShift(1.0, MIN_SIG_DIGITS - scale, -MIN_SIG_DIGITS);
    ShiftOrder(x, Shift(1.0, MIN_SIG_DIGITS - scale), -MIN_SIG_DIGITS);
  }
}
