// Comparison of magnitudes and of whole decimals.
module Compare {
  import opened Powers
  import opened Digits
  import opened Decimals

  /** The sign of x - y. */
  function Order(x: real, y: real): int {
    if x < y then -1 else if x > y then 1 else 0
  }

  lemma MagnitudeNone(s: seq<int>, weight: int)
    requires s == []
    ensures Magnitude(s, weight) == 0.0
  {
  }

  /** A nonzero first digit of higher weight outweighs everything of lower weight. */
  lemma HigherWeightWins(a: seq<int>, wa: int, b: seq<int>, wb: int)
    requires IsDigits(a) && IsDigits(b) && a != [] && a[0] != 0 && wb < wa
    ensures Magnitude(b, wb) < Magnitude(a, wa)
  {
    hide Shift, Magnitude;
    MagnitudePeel(a, wa);
    MagnitudeBound(a[1..], wa - 1);
    MagnitudeBound(b, wb);
    ShiftOneMonotone(4 * (wb + 1), 4 * wa);
    ShiftOrder(a[0] as real, 1.0, 4 * wa);
  }

  lemma HigherDigitWins(a: seq<int>, b: seq<int>, w: int)
    requires IsDigits(a) && IsDigits(b) && a != [] && b != [] && b[0] < a[0]
    ensures Magnitude(b, w) < Magnitude(a, w)
  {
    hide Shift, Magnitude;
    MagnitudePeel(a, w);
    MagnitudePeel(b, w);
    MagnitudeBound(a[1..], w - 1);
    MagnitudeBound(b[1..], w - 1);
    assert 4 * (w - 1 + 1) == 4 * w;
    ShiftSum(b[0] as real, 1.0, 4 * w);
    ShiftOrder(a[0] as real, b[0] as real + 1.0, 4 * w);
  }

  /** Compares two magnitudes digit by digit from the first common weight. */
  method CmpAbsDigits(l: seq<int>, lw: int, r: seq<int>, rw: int) returns (c: int)
    requires IsDigits(l) && IsDigits(r)
    ensures c == Order(Magnitude(l, lw), Magnitude(r, rw))
  {
    hide N, Shift, Magnitude;
    var i1, i2 := 0, 0;
    var w1, w2 := lw, rw;
    assert l[0..] == l && r[0..] == r;
    while w1 > w2 && i1 < |l|
      invariant 0 <= i1 <= |l| && w1 == lw - i1
      invariant w2 <= w1 || i1 == 0
      invariant Magnitude(l[i1..], w1) == Magnitude(l, lw)
    {
      MagnitudePeel(l[i1..], w1);
      assert l[i1..][1..] == l[i1 + 1..];
      i1 := i1 + 1;
      if l[i1 - 1] != 0 {
        HigherWeightWins(l[i1 - 1..], w1, r, w2);
        return 1;
      }
      ShiftOrder(0.0, 0.0, 4 * w1);
      w1 := w1 - 1;
    }
    while w2 > w1 && i2 < |r|
      invariant 0 <= i2 <= |r| && w2 == rw - i2
      invariant w1 > w2 ==> i1 == |l|
      invariant Magnitude(r[i2..], w2) == Magnitude(r, rw)
    {
      MagnitudePeel(r[i2..], w2);
      assert r[i2..][1..] == r[i2 + 1..];
      i2 := i2 + 1;
      if r[i2 - 1] != 0 {
        HigherWeightWins(r[i2 - 1..], w2, l[i1..], w1);
        return -1;
      }
      ShiftOrder(0.0, 0.0, 4 * w2);
      w2 := w2 - 1;
    }
    if w1 == w2 {
      while i1 < |l| && i2 < |r|
        invariant 0 <= i1 <= |l| && 0 <= i2 <= |r|
        invariant Magnitude(l, lw) - Magnitude(l[i1..], w1) == Magnitude(r, rw) - Magnitude(r[i2..], w1)
      {
        MagnitudePeel(l[i1..], w1);
        MagnitudePeel(r[i2..], w1);
        assert l[i1..][1..] == l[i1 + 1..] && r[i2..][1..] == r[i2 + 1..];
        var stat := l[i1] - r[i2];
        if stat > 0 {
          HigherDigitWins(l[i1..], r[i2..], w1);
          return 1;
        } else if stat < 0 {
          HigherDigitWins(r[i2..], l[i1..], w1);
          return -1;
        }
        i1, i2, w1 := i1 + 1, i2 + 1, w1 - 1;
      }
      w2 := w1;
    }
    c := FirstNonZero(l, i1, w1);
    if c == 1 {
      MagnitudeNone(r[i2..], w2);
      return 1;
    }
    c := FirstNonZero(r, i2, w2);
    c := -c;
  }

  /** Whether a nonzero digit remains from position i on. */
  method FirstNonZero(s: seq<int>, i: nat, w: int) returns (c: int)
    requires IsDigits(s) && i <= |s|
    ensures c == Order(Magnitude(s[i..], w), 0.0)
    ensures c == 0 || (c == 1 && i < |s|)
  {
    var j := i;
    while j < |s|
      invariant i <= j <= |s|
      invariant AllZero(s[i..j])
    {
      if s[j] != 0 {
        assert s[i..][j - i] == s[j];
        MagnitudeNonNegative(s[i..], w);
        return 1;
      }
      assert s[i..j + 1] == s[i..j] + [s[j]];
      j := j + 1;
    }
    assert s[i..] == s[i..j];
    MagnitudeNonNegative(s[i..], w);
    c := 0;
  }

  method CmpAbs(left: Decimal, right: Decimal) returns (c: int)
    requires left.Valid() && right.Valid()
    ensures c == Order(left.Mag(), right.Mag())
  {
    c := CmpAbsDigits(left.Digs(), left.weight,
                      right.Digs(), right.weight);
  }

  const NAN := 0
  const MIN := 1
  const MAX := 2

  /** What a decimal stands for in the sort order: MIN < NaN < every number < MAX. */
  datatype Key = KeyMin | KeyNan | KeyNumber(value: real) | KeyMax {
    function Rank(): int {
      match this
      case KeyMin => 0
      case KeyNan => 1
      case KeyNumber(_) => 2
      case KeyMax => 3
    }
  }

  function KeyOrder(a: Key, b: Key): int {
    if a.Rank() < b.Rank() then -1
    else if a.Rank() > b.Rank() then 1
    else if a.KeyNumber? then Order(a.value, b.value)
    else 0
  }

  /** A total order: antisymmetric, transitive, and zero only on equal keys. */
  lemma KeyOrderIsTotal(a: Key, b: Key, c: Key)
    ensures KeyOrder(a, b) == -KeyOrder(b, a)
    ensures KeyOrder(a, b) == 0 <==> a == b
    ensures KeyOrder(a, b) <= 0 && KeyOrder(b, c) <= 0 ==> KeyOrder(a, c) <= 0
  {
    match a case KeyMin => case KeyNan => case KeyNumber(x) => case KeyMax =>
    match b case KeyMin => case KeyNan => case KeyNumber(y) => case KeyMax =>
    match c case KeyMin => case KeyNan => case KeyNumber(z) => case KeyMax =>
  }

  /** MIN is below NaN, NaN below every number, every number below MAX, and numbers are in their own order. */
  lemma KeyOrderDirection(x: real, y: real)
    ensures KeyOrder(KeyMin, KeyNan) < 0 && KeyOrder(KeyMin, KeyNumber(x)) < 0 && KeyOrder(KeyMin, KeyMax) < 0
    ensures KeyOrder(KeyNan, KeyNumber(x)) < 0 && KeyOrder(KeyNan, KeyMax) < 0 && KeyOrder(KeyNumber(x), KeyMax) < 0
    ensures KeyOrder(KeyNumber(x), KeyNumber(y)) < 0 <==> x < y
    ensures KeyOrder(KeyNumber(x), KeyNumber(y)) > 0 <==> x > y
  {
  }

  ghost predicate Known(d: Decimal)
    reads d, d.buff
  {
    d.Valid() && (d.sign == Special ==> d.dscale == NAN || d.dscale == MIN || d.dscale == MAX)
  }

  ghost function KeyOf(d: Decimal): Key
    reads d, d.buff
    requires Known(d)
  {
    if d.sign != Special then KeyNumber(d.Val())
    else if d.dscale == MIN then KeyMin
    else if d.dscale == MAX then KeyMax
    else KeyNan
  }

  /** Two zeros of which only one has no digits, or whose digits carry different signs. */
  ghost predicate ZeroClash(left: Decimal, right: Decimal)
    reads left, left.buff, right, right.buff
    requires Known(left) && Known(right)
  {
    && left.sign != Special && right.sign != Special && left.Mag() == 0.0 && right.Mag() == 0.0
    && ((left.ndigits == 0) != (right.ndigits == 0) || (left.ndigits > 0 && left.sign != right.sign))
  }

  /** Compares two decimals; the answer is the sort order exactly when no zero clash occurs. */
  method Cmp(left: Decimal, right: Decimal) returns (c: int)
    requires Known(left) && Known(right)
    ensures -1 <= c <= 1
    ensures c == KeyOrder(KeyOf(left), KeyOf(right)) <==> !ZeroClash(left, right)
  {
    hide N, Shift, Magnitude, AllZero, IsDigits;
    MagnitudeSign(left); MagnitudeSign(right);
    if left.sign == Special && left.dscale == MIN {
      return if right.sign == Special && right.dscale == MIN then 0 else -1;
    } else if right.sign == Special && right.dscale == MIN {
      return 1;
    }
    if left.sign == Special && left.dscale == MAX {
      return if right.sign == Special && right.dscale == MAX then 0 else 1;
    } else if right.sign == Special && right.dscale == MAX {
      return -1;
    }
    if left.sign == Special && left.dscale == NAN {
      return if right.sign == Special && right.dscale == NAN then 0 else -1;
    } else if right.sign == Special && right.dscale == NAN {
      return 1;
    }
    if left.ndigits == 0 {
      if right.ndigits == 0 {
        return 0;
      }
      return if right.sign == Neg then 1 else -1;
    }
    if right.ndigits == 0 {
      return if left.sign == Pos then 1 else -1;
    }
    if left.sign == Pos {
      if right.sign == Neg {
        return 1;
      }
      c := CmpAbs(left, right);
      return;
    }
    if right.sign == Pos {
      return -1;
    }
    c := CmpAbs(right, left);
  }

  lemma MagnitudeSign(d: Decimal)
    requires d.Valid()
    ensures d.Mag() >= 0.0 && (d.ndigits == 0 ==> d.Mag() == 0.0)
  {
    MagnitudeNonNegative(d.Digs(), d.weight);
  }

  /** On stripped numbers and special values the comparison is the sort order. */
  lemma StrippedNeverClash(left: Decimal, right: Decimal)
    requires Known(left) && Known(right)
    requires (left.sign != Special ==> left.Stripped()) && (right.sign != Special ==> right.Stripped())
    ensures !ZeroClash(left, right)
  {
    hide N, Shift, Magnitude;
    MagnitudeStripped(left.Digs(), left.weight);
    MagnitudeStripped(right.Digs(), right.weight);
  }
}
