// The exported operations: special values, exactness, bounds, modulus and type modifiers.
module Arithmetic {
  import opened Powers
  import opened Digits
  import opened Decimals
  import opened Compare
  import opened Rounding
  import opened Accumulator
  import opened Multiply
  import opened Divide
  import AddSub

  const MAX_WEIGHT := 32768
  const MAX_DSCALE := 16383

  /** What every operation keeps: finite, stripped, and no digit below the display scale. */
  ghost predicate WellFormed(d: Decimal)
    reads d, d.buff
  {
    d.Finite() && d.Stripped() && d.Scaled()
  }

  predicate OutOfBound(weight: int, dscale: int) {
    weight >= MAX_WEIGHT || dscale > MAX_DSCALE
  }

  /** Out of bound is what a 16-bit weight or a 14-bit display scale cannot hold. */
  lemma BoundsAreStorage(weight: int, dscale: int)
    ensures !OutOfBound(weight, dscale) <==> weight <= 0x7FFF && dscale <= 0x3FFF
  {
  }

  predicate IsSpecial(sign: Sign, dscale: int, code: int) {
    sign == Special && dscale == code
  }

  method SetNan(d: Decimal)
    modifies d
    ensures d.Valid() && IsSpecial(d.sign, d.dscale, NAN) && d.Digs() == []
  {
    d.Init();
    d.sign, d.dscale := Special, NAN;
  }

  lemma IntOf(x: real) returns (n: int)
    requires IsInt(x)
    ensures x == n as real
  {
    n := x.Floor;
  }

  lemma IntIs(n: int)
    ensures IsInt(n as real)
  {
  }

  /** Being an integer at a scale carries over to finer scales. */
  lemma IntAtFinerScale(x: real, a: int, b: int)
    requires a <= b && IsInt(Shift(x, a))
    ensures IsInt(Shift(x, b))
  {
    hide Shift, IsInt;
    var n := IntOf(Shift(x, a));
    var m := ShiftInt(n, b - a);
    ShiftShift(x, a, b - a);
    IntIs(m);
  }

  lemma IntSum(x: real, y: real, e: int)
    requires IsInt(Shift(x, e)) && IsInt(Shift(y, e))
    ensures IsInt(Shift(x + y, e)) && IsInt(Shift(x - y, e)) && IsInt(Shift(-x, e))
  {
    hide Shift, IsInt;
    var m := IntOf(Shift(x, e));
    var n := IntOf(Shift(y, e));
    ShiftSum(x, y, e);
    ShiftSum(0.0, x, e);
    ShiftOrder(0.0, 0.0, e);
    IntIs(m + n); IntIs(m - n); IntIs(-m);
  }

  lemma IntProduct(x: real, a: int, y: real, b: int)
    requires IsInt(Shift(x, a)) && IsInt(Shift(y, b))
    ensures IsInt(Shift(Times(x, y), a + b))
  {
    hide Shift, IsInt, Times;
    var m := IntOf(Shift(x, a));
    var n := IntOf(Shift(y, b));
    ShiftTimesTimes(x, a, y, b);
    TimesInt(m, n);
    IntIs(m * n);
  }

  lemma IntZero(e: int)
    ensures IsInt(Shift(0.0, e))
  {
    hide Shift;
    ShiftOrder(0.0, 0.0, e);
    IntIs(0);
  }

  lemma IntRounded(x: real, scale: int)
    ensures IsInt(Shift(RoundHalfUp(x, scale), scale)) && IsInt(Shift(RoundDown(x, scale), scale))
  {
    hide Shift, IsInt;
    var m, n := (Shift(x, scale) + 0.5).Floor, Shift(x, scale).Floor;
    ShiftBack(m as real, scale);
    ShiftBack(n as real, scale);
    IntIs(m); IntIs(n);
  }

  /** A stripped number has no more digits after the point than its display scale asks for. */
  lemma DigitsWithinScale(s: seq<int>, w: int, dscale: int)
    requires IsDigits(s) && s != [] && s[|s| - 1] != 0 && IsInt(Shift(Magnitude(s, w), dscale))
    ensures 4 * (|s| - w - 1) < dscale + 4
  {
    hide N, Shift, IsInt;
    var e := 4 * (|s| - w - 1) - dscale;
    var t := IntOf(Shift(Magnitude(s, w), dscale));
    ShiftShift(N(s) as real, 4 * (w - |s| + 1), dscale);
    assert Shift(N(s) as real, -e) == t as real;
    ShiftBack(N(s) as real, e);
    if e >= 4 {
      var m := ShiftInt(t, e - 4);
      ShiftShift(t as real, e - 4, 4);
      ShiftByFour(m as real);
      assert N(s) == NBASE * m;
      LastDigitNonZero(s, m);
    }
  }

  lemma LastDigitNonZero(s: seq<int>, m: int)
    requires IsDigits(s) && s != [] && N(s) == NBASE * m
    ensures s[|s| - 1] == 0
  {
  }

  /** Nothing is cut off a product of well-formed operands, and rounding it changes nothing. */
  lemma ProductExact(l: seq<int>, lw: int, ld: int, r: seq<int>, rw: int, rd: int)
    requires IsDigits(l) && IsDigits(r) && ld >= 0 && rd >= 0
    requires (l != [] ==> l[|l| - 1] != 0) && (r != [] ==> r[|r| - 1] != 0)
    requires IsInt(Shift(Magnitude(l, lw), ld)) && IsInt(Shift(Magnitude(r, rw), rd))
    ensures ProductAt(l, lw, r, rw, ld + rd) == Times(Magnitude(l, lw), Magnitude(r, rw))
    ensures l != [] && r != [] ==> |l| + |r| + 1 <= MaxDigits(lw, rw, ld + rd)
    ensures IsInt(Shift(ProductAt(l, lw, r, rw, ld + rd), ld + rd))
  {
    hide Shift, Magnitude, IsInt, Times;
    IntProduct(Magnitude(l, lw), ld, Magnitude(r, rw), rd);
    if l == [] || r == [] {
      MagnitudeStripped([], lw);
      MagnitudeStripped([], rw);
      TimesZero(Magnitude(l, lw), Magnitude(r, rw));
    } else {
      DigitsWithinScale(l, lw, ld);
      DigitsWithinScale(r, rw, rd);
      assert l[..|l|] == l && r[..|r|] == r;
      RoundExact(Times(Magnitude(l, lw), Magnitude(r, rw)), ld + rd);
    }
  }

  /** The facts about a well-formed operand that the product needs. */
  lemma OperandFacts(d: Decimal)
    requires WellFormed(d)
    ensures IsDigits(d.Digs()) && (d.Digs() != [] ==> d.Digs()[|d.Digs()| - 1] != 0)
    ensures d.dscale >= 0 && IsInt(Shift(Magnitude(d.Digs(), d.weight), d.dscale))
    ensures d.Mag() == Magnitude(d.Digs(), d.weight) >= 0.0
    ensures d.ndigits >= 0 && (d.Mag() == 0.0 <==> d.ndigits == 0)
    ensures d.ndigits > 0 ==> d.Digs()[0] != 0
    ensures d.sign == Pos || (d.sign == Neg && d.Mag() > 0.0)
  {
    hide Shift, Magnitude, IsInt;
    MagnitudeStripped(d.Digs(), d.weight);
  }

  lemma NegatedInt(x: real, e: int)
    requires IsInt(Shift(x, e))
    ensures IsInt(Shift(-x, e))
  {
    IntSum(x, x, e);
  }

  /** The value of a well-formed number is an integer at its display scale. */
  lemma ValueScaled(d: Decimal)
    requires WellFormed(d)
    ensures IsInt(Shift(d.Val(), d.dscale)) && d.dscale >= 0
  {
    hide Shift, IsInt;
    NegatedInt(d.Mag(), d.dscale);
  }

  /** Sums and differences are integers at the larger of the two scales. */
  lemma SumScaled(a: real, ld: int, b: real, rd: int)
    requires IsInt(Shift(a, ld)) && IsInt(Shift(b, rd))
    ensures var m := AddSub.Max(ld, rd); IsInt(Shift(a + b, m)) && IsInt(Shift(a - b, m))
  {
    hide Shift, IsInt;
    IntAtFinerScale(a, ld, AddSub.Max(ld, rd));
    IntAtFinerScale(b, rd, AddSub.Max(ld, rd));
    IntSum(a, b, AddSub.Max(ld, rd));
  }

  /** A finite stripped number with a value that fits its scale is well-formed. */
  lemma BecomesWellFormed(d: Decimal, v: real)
    requires d.Finite() && d.Stripped() && d.Val() == v && d.dscale >= 0
    requires v == 0.0 || IsInt(Shift(v, d.dscale))
    ensures WellFormed(d)
  {
    hide Shift, IsInt;
    if v == 0.0 {
      IntZero(d.dscale);
    } else {
      NegatedInt(v, d.dscale);
    }
  }

  /** An operand as the exported operations accept it: a special value, or a well-formed number. */
  ghost predicate Operand(d: Decimal)
    reads d, d.buff
  {
    d.Valid() && (d.sign != Special ==> WellFormed(d))
  }

  method DecimalAdd(left: Decimal, right: Decimal, result: Decimal) returns (rc: int)
    requires Operand(left) && Operand(right)
    modifies result
    ensures old(left.sign == Special || right.sign == Special) ==>
              rc == 0 && result.Valid() && IsSpecial(result.sign, result.dscale, NAN)
    ensures old(left.sign != Special && right.sign != Special) ==>
              && WellFormed(result)
              && result.Val() == old(left.Val()) + old(right.Val())
              && rc == (if OutOfBound(result.weight, result.dscale) then -6 else 0)
              && result.dscale == AddSub.SumScale(old(left.dscale), result == left, old(right.dscale), result == right,
                                                  old(left.sign != right.sign && left.Mag() == right.Mag()))
    ensures old(left.sign != Special && right.sign != Special) && result != left && result != right ==>
              result.dscale == AddSub.Max(old(left.dscale), old(right.dscale))
  {
    hide N, Shift, Magnitude, IsInt, DigitsAt, RoomAt, IsStripped;
    if left.sign == Special || right.sign == Special {
      SetNan(result);
      return 0;
    }
    ghost var a, b := left.Val(), right.Val();
    ValueScaled(left); ValueScaled(right);
    SumScaled(a, left.dscale, b, right.dscale);
    rc := AddSub.Add(left, right, result);
    result.Strip();
    BecomesWellFormed(result, a + b);
    if OutOfBound(result.weight, result.dscale) {
      rc := -6;
    }
  }

  method DecimalSub(left: Decimal, right: Decimal, result: Decimal) returns (rc: int)
    requires Operand(left) && Operand(right)
    modifies result
    ensures old(left.sign == Special || right.sign == Special) ==>
              rc == 0 && result.Valid() && IsSpecial(result.sign, result.dscale, NAN)
    ensures old(left.sign != Special && right.sign != Special) ==>
              && WellFormed(result)
              && result.Val() == old(left.Val()) - old(right.Val())
              && rc == (if OutOfBound(result.weight, result.dscale) then -6 else 0)
              && result.dscale == AddSub.SumScale(old(left.dscale), result == left, old(right.dscale), result == right,
                                                  old(left.sign == right.sign && left.Mag() == right.Mag()))
    ensures old(left.sign != Special && right.sign != Special) && result != left && result != right ==>
              result.dscale == AddSub.Max(old(left.dscale), old(right.dscale))
  {
    hide N, Shift, Magnitude, IsInt, DigitsAt, RoomAt, IsStripped;
    if left.sign == Special || right.sign == Special {
      SetNan(result);
      return 0;
    }
    ghost var a, b := left.Val(), right.Val();
    ValueScaled(left); ValueScaled(right);
    SumScaled(a, left.dscale, b, right.dscale);
    rc := AddSub.Sub(left, right, result);
    result.Strip();
    BecomesWellFormed(result, a - b);
    if OutOfBound(result.weight, result.dscale) {
      rc := -6;
    }
  }

  /** |a| * |b| with the sign of a * b. */
  lemma SignedTimes(a: real, b: real, ma: real, mb: real, m: real, v: real)
    requires ma >= 0.0 && mb >= 0.0 && m == Times(ma, mb)
    requires (a == ma || a == -ma) && (b == mb || b == -mb)
    requires if m == 0.0 || ((a == ma) == (b == mb)) then v == m else v == -m
    requires (a == ma && a == -ma) || (b == mb && b == -mb) ==> m == 0.0
    ensures v == Times(a, b)
  {
    assert (-ma) * mb == -(ma * mb) && ma * (-mb) == -(ma * mb) && (-ma) * (-mb) == ma * mb;
  }

  /** `fits` is the answer for l as the left operand of some product. */
  ghost predicate SomePassesFit(l: seq<int>, fits: bool) {
    exists r :: IsDigits(r) && fits == PassesFit(l, r)
  }

  lemma LeftDecides(l: seq<int>, r: seq<int>)
    requires IsDigits(l) && IsDigits(r)
    ensures SomePassesFit(l, PassesFit(l, r)) && (SafeLeft(l) ==> PassesFit(l, r))
  {
    hide PassesFit, SafeLeft;
    if SafeLeft(l) { SafeFits(l, r); }
  }

  /** When nothing is cut off, the carry passes are those over all digits. */
  lemma ExactFits(l: seq<int>, lw: int, r: seq<int>, rw: int, rscale: int)
    requires l != [] && r != [] ==> |l| + |r| + 1 <= MaxDigits(lw, rw, rscale)
    ensures MulFits(l, lw, r, rw, rscale) == PassesFit(l, r)
  {
    hide PassesFit;
    if l == [] || r == [] {
      EmptyFits(l, r);
    } else {
      assert l[..|l|] == l && r[..|r|] == r;
    }
  }

  /** Multiplication of well-formed numbers at the sum of their scales is exact. */
  method MulExact(left: Decimal, right: Decimal, result: Decimal) returns (rc: int, ghost fits: bool)
    requires WellFormed(left) && WellFormed(right)
    modifies result
    ensures rc == 0 && WellFormed(result) && result.dscale == old(left.dscale) + old(right.dscale)
    ensures result.Val() == Times(old(left.Val()), old(right.Val()))
    ensures fits == PassesFit(old(left.Digs()), old(right.Digs())) && SomePassesFit(old(left.Digs()), fits)
    ensures SafeLeft(old(left.Digs())) ==> fits
  {
    hide N, Shift, Magnitude, IsInt, DigitsAt, RoomAt, IsStripped, ProductAt, Times, PassesFit, SafeLeft, IsDigits,
         SomePassesFit;
    ghost var a, b, ma, mb := left.Val(), right.Val(), left.Mag(), right.Mag();
    OperandFacts(left); OperandFacts(right);
    ProductExact(left.Digs(), left.weight, left.dscale, right.Digs(), right.weight, right.dscale);
    TimesZero(ma, mb);
    LeftDecides(left.Digs(), right.Digs());
    ExactFits(left.Digs(), left.weight, right.Digs(), right.weight, left.dscale + right.dscale);
    rc, fits := Mul(left, right, result, left.dscale + right.dscale);
    SignedTimes(a, b, ma, mb, result.Mag(), result.Val());
  }

  /** `fits` records whether every sum of the carry passes was within INT_MAX. */
  method DecimalMul(left: Decimal, right: Decimal, result: Decimal) returns (rc: int, ghost fits: bool)
    requires Operand(left) && Operand(right)
    modifies result
    ensures old(left.sign == Special || right.sign == Special) ==>
              rc == 0 && result.Valid() && IsSpecial(result.sign, result.dscale, NAN)
    ensures old(left.sign != Special && right.sign != Special) ==>
              && WellFormed(result)
              && result.Val() == old(left.Val()) * old(right.Val())
              && result.dscale == old(left.dscale) + old(right.dscale)
              && rc == (if OutOfBound(result.weight, result.dscale) then -6 else 0)
              && fits == PassesFit(old(left.Digs()), old(right.Digs()))
              && (SafeLeft(old(left.Digs())) ==> fits)
  {
    hide PassesFit, SafeLeft, SomePassesFit, Magnitude, Shift, IsInt, IsStripped, RoomAt;
    fits := true;
    if left.sign == Special || right.sign == Special {
      SetNan(result);
      return 0, true;
    }
    rc, fits := MulExact(left, right, result);
    if OutOfBound(result.weight, result.dscale) {
      rc := -6;
    }
  }

  /** |a| / |b| with the sign of a / b, rounded or cut. */
  lemma SignedQuotient(a: real, b: real, ma: real, mb: real, m: real, v: real, scale: int, isRound: bool)
    requires ma >= 0.0 && mb > 0.0 && m == QuotientAt(ma / mb, scale, isRound)
    requires (a == ma || a == -ma) && (b == mb || b == -mb)
    requires if m == 0.0 || ((a == ma) == (b == mb)) then v == m else v == -m
    requires a == ma && a == -ma ==> m == 0.0
    ensures isRound ==> v == RoundAway(a / b, scale)
    ensures !isRound ==> v == Truncate(a / b, scale)
  {
    hide Shift, RoundHalfUp, RoundDown;
    var x := ma / mb;
    QuotientSigns(ma, mb);
    RoundSigned(x, scale);
  }

  lemma QuotientSigns(a: real, b: real)
    requires b > 0.0
    ensures (-a) / b == -(a / b) && a / (-b) == -(a / b) && (-a) / (-b) == a / b
    ensures a >= 0.0 ==> a / b >= 0.0
  {
    DivisionUndone(a, b);
    DivisionUndone(-a, b);
    var x := a / b;
    assert (-x) * b == -(x * b);
  }

  lemma ZeroQuotient(mb: real, scale: int)
    requires mb > 0.0
    ensures 0.0 / mb == 0.0
    ensures QuotientAt(0.0 / mb, scale, true) == 0.0 && QuotientAt(0.0 / mb, scale, false) == 0.0
  {
    hide RoundHalfUp, RoundDown;
    RoundOfZero(scale);
  }

  lemma SignedCloseTo(a: real, b: real, ma: real, mb: real, scale: int)
    requires ma > 0.0 && mb > 0.0 && (a == ma || a == -ma) && (b == mb || b == -mb)
    requires Shift(1.0, MIN_SIG_DIGITS - scale) <= ma / mb
    ensures CloseTo(RoundAway(a / b, scale), a / b)
  {
    hide Shift, RoundHalfUp;
    var x := ma / mb;
    QuotientSigns(ma, mb);
    RoundSigned(x, scale);
    RelativeError(x, scale);
  }

  lemma SuitsSixteen(wanted: int, ld: int, rd: int, a: real, b: real)
    requires b > 0.0 && a > 0.0 && ScaleSuits(wanted, ld, rd, a, b)
    ensures Shift(1.0, 16 - wanted) <= a / b
  {
  }

  method DecimalDiv(left: Decimal, right: Decimal, result: Decimal) returns (rc: int, ghost wanted: int)
    requires Operand(left) && Operand(right)
    modifies result
    ensures old(left.sign == Special || right.sign == Special) ==>
              rc == 0 && result.Valid() && IsSpecial(result.sign, result.dscale, NAN)
    ensures old(left.sign != Special && right.sign != Special && right.Val() == 0.0) ==> rc == -6 && unchanged(result)
    ensures old(left.sign != Special && right.sign != Special && right.Val() != 0.0) ==>
              && WellFormed(result)
              && wanted == old(WantedScale(left.Digs(), left.weight, left.dscale, right.Digs(), right.weight,
                   right.dscale))
              && result.dscale == (if wanted < 1000 then wanted else 1000)
              && old(right.Mag()) > 0.0
              && ScaleSuits(wanted, old(left.dscale), old(right.dscale), old(left.Mag()), old(right.Mag()))
              && result.Val() == RoundAway(old(left.Val()) / old(right.Val()), result.dscale)
              && rc == (if OutOfBound(result.weight, result.dscale) then -6 else 0)
              && (old(left.Val()) != 0.0 && wanted <= MAX_DISPLAY_SCALE ==>
                    CloseTo(result.Val(), old(left.Val()) / old(right.Val())))
  {
    hide N, Shift, Magnitude, IsInt, DigitsAt, RoomAt, IsStripped, RoundAway, RoundHalfUp, RoundDown, CloseTo,
         WantedScale, ScaleSuits;
    wanted := 0;
    if left.sign == Special || right.sign == Special {
      SetNan(result);
      return 0, 0;
    }
    ghost var a, b, ma, mb := left.Val(), right.Val(), left.Mag(), right.Mag();
    OperandFacts(left); OperandFacts(right);
    var scale := GetDivScale(left, right);
    wanted := WantedScale(left.Digs(), left.weight, left.dscale, right.Digs(), right.weight, right.dscale);
    if ma > 0.0 && mb > 0.0 { SuitsSixteen(wanted, left.dscale, right.dscale, ma, mb); }
    rc := Div(left, right, result, scale, true);
    if rc != 0 {
      return;
    }
    IntRounded(ma / mb, scale);
    ZeroQuotient(mb, scale);
    SignedQuotient(a, b, ma, mb, result.Mag(), result.Val(), scale, true);
    if a != 0.0 && wanted <= MAX_DISPLAY_SCALE {
      SignedCloseTo(a, b, ma, mb, scale);
    }
    if OutOfBound(result.weight, result.dscale) {
      rc := -6;
    }
  }

  /** Within half of 10^-16 of the exact value, relatively. */
  ghost predicate CloseTo(v: real, x: real) {
    2.0 * Abs(v - x) <= Shift(Abs(x), -MIN_SIG_DIGITS)
  }

  function Abs(x: real): real {
    if x < 0.0 then -x else x
  }

  /** a = q * b + v for an integer q, with |v| < |b| and v zero or of the sign of a. */
  ghost predicate IsRemainder(a: real, b: real, q: int, v: real) {
    && a == q as real * b + v
    && Abs(v) < Abs(b)
    && (v > 0.0 ==> a > 0.0) && (v < 0.0 ==> a < 0.0)
  }

  /** x mod y = x - trunc(x / y) * y. */
  method DecimalMod(left: Decimal, right: Decimal, result: Decimal) returns (rc: int, ghost q: int, ghost fits: bool)
    requires Operand(left) && Operand(right)
    modifies result
    ensures old(left.sign == Special || right.sign == Special) ==>
              rc == 0 && result.Valid() && IsSpecial(result.sign, result.dscale, NAN)
    ensures old(left.sign != Special && right.sign != Special && right.Val() == 0.0) ==> rc == -6 && unchanged(result)
    ensures old(left.sign != Special && right.sign != Special && right.Val() != 0.0) ==>
              && rc == 0
              && WellFormed(result)
              && IsRemainder(old(left.Val()), old(right.Val()), q, result.Val())
              && result.dscale ==
                   AddSub.SumScale(old(left.dscale), result == left, old(right.dscale), false, result.Val() == 0.0)
              && SomePassesFit(old(right.Digs()), fits) && (SafeLeft(old(right.Digs())) ==> fits)
  {
    hide N, Shift, Magnitude, IsInt, DigitsAt, RoomAt, IsStripped, TruncatedInt, IsRemainder, Times, PassesFit,
         SafeLeft,
         SomePassesFit;
    q, fits := 0, true;
    if left.sign == Special || right.sign == Special {
      SetNan(result);
      return 0, 0, true;
    }
    ghost var a, b := left.Val(), right.Val();
    var tmp := new Decimal();
    rc := TruncatedQuotient(left, right, tmp);
    if rc != 0 {
      return;
    }
    q := TruncatedInt(a / b);
    ghost var t := tmp.Val();
    rc, fits := MulExact(right, tmp, tmp);
    RemainderOf(a, b, q, t, tmp.Val());
    rc := SubExact(left, tmp, result);
  }

  /** trunc(left / right), with display scale 0. */
  method TruncatedQuotient(left: Decimal, right: Decimal, tmp: Decimal) returns (rc: int)
    requires WellFormed(left) && WellFormed(right) && tmp != left && tmp != right
    modifies tmp
    ensures right.Val() == 0.0 ==> rc == -6
    ensures right.Val() != 0.0 ==>
              rc == 0 && WellFormed(tmp) && tmp.dscale == 0 &&
                  tmp.Val() == TruncatedInt(left.Val() / right.Val()) as real
  {
    hide N, Shift, Magnitude, IsInt, DigitsAt, RoomAt, IsStripped, Truncate, RoundAway, RoundHalfUp, RoundDown;
    ghost var a, b, ma, mb := left.Val(), right.Val(), left.Mag(), right.Mag();
    OperandFacts(left); OperandFacts(right);
    rc := Div(left, right, tmp, 0, false);
    if rc == 0 {
      IntRounded(ma / mb, 0);
      ZeroQuotient(mb, 0);
      SignedQuotient(a, b, ma, mb, tmp.Mag(), tmp.Val(), 0, false);
      TruncateAtZero(a / b);
    }
  }

  method SubExact(left: Decimal, right: Decimal, result: Decimal) returns (rc: int)
    requires WellFormed(left) && WellFormed(right)
    modifies result
    ensures rc == 0 && WellFormed(result) && result.Val() == old(left.Val()) - old(right.Val())
    ensures result.dscale ==
              AddSub.SumScale(old(left.dscale), result == left, old(right.dscale), result == right, result.Val() == 0.0)
  {
    hide N, Shift, Magnitude, IsInt, DigitsAt, RoomAt, IsStripped;
    ghost var a, b := left.Val(), right.Val();
    ValueScaled(left); ValueScaled(right);
    SumScaled(a, left.dscale, b, right.dscale);
    OperandFacts(left); OperandFacts(right);
    rc := AddSub.Sub(left, right, result);
    BecomesWellFormed(result, a - b);
  }

  /** Truncation to an integer. */
  ghost function TruncatedInt(x: real): int {
    if x < 0.0 then -((-x).Floor) else x.Floor
  }

  lemma TruncateAtZero(x: real)
    ensures Truncate(x, 0) == TruncatedInt(x) as real
  {
    hide Shift;
    ShiftNone(x); ShiftNone(-x);
    ShiftNone(x.Floor as real); ShiftNone((-x).Floor as real);
  }

  lemma RemainderOf(a: real, b: real, q: int, t: real, p: real)
    requires b != 0.0 && q == TruncatedInt(a / b) && t == q as real && p == Times(b, t)
    ensures IsRemainder(a, b, q, a - p)
  {
    var x := a / b;
    var y := x - q as real;
    assert x * b == a;
    Distribute(x, t, b);
    assert y * b == a - p;
    FractionTimes(y, b);
    FractionSign(x, b, y);
  }

  lemma FractionTimes(y: real, b: real)
    requires -1.0 < y < 1.0 && b != 0.0
    ensures Abs(y * b) < Abs(b)
  {
    if b > 0.0 {
      ProductSign(1.0 - y, b); ProductSign(1.0 + y, b); Distribute(1.0, y, b);
    } else {
      ProductSign(1.0 - y, -b); ProductSign(1.0 + y, -b); Distribute(1.0, y, -b);
      NegateProduct(y, b);
    }
  }

  lemma FractionSign(x: real, b: real, y: real)
    requires (x >= 0.0 ==> 0.0 <= y <= x) && (x < 0.0 ==> x <= y <= 0.0)
    ensures (y * b > 0.0 ==> x * b > 0.0) && (y * b < 0.0 ==> x * b < 0.0)
  {
    Distribute(x, y, b);
    if b >= 0.0 {
      ProductSign(Abs(y), b); ProductSign(Abs(x) - Abs(y), b);
    } else {
      ProductSign(Abs(y), -b); ProductSign(Abs(x) - Abs(y), -b);
    }
    NegateProduct(y, b); NegateProduct(x - y, b);
  }

  lemma NegateProduct(x: real, y: real)
    ensures (-x) * y == -(x * y) && x * (-y) == -(x * y) && (-x) * (-y) == x * y
  {
  }
}
