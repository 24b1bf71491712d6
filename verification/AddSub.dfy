// Addition and subtraction of magnitudes by carry and borrow loops, and the
// signed operations that choose between them.
module AddSub {
  import opened Compare
  import opened Powers
  import opened Digits
  import opened Decimals

  /** One column of a carry (or, with c negative, borrow) loop. */
  lemma ColumnStep(t: seq<int>, c: int, total: int, x: int, c': int, column: int)
    requires N(t) + c * BP(|t|) == total && x + NBASE * c' == column + c
    ensures N([x] + t) + c' * BP(|t| + 1) == column * BP(|t|) + total
  {
    hide N, BP;
    NCons(x, t);
    BPStep(|t|);
    var p := BP(|t|);
    assert x * p + c' * (NBASE * p) == (x + NBASE * c') * p;
    assert (column + c) * p == column * p + c * p;
  }

  /** The digits t with carry (or, if negative, borrow) c in front denote total. */
  ghost predicate Carried(t: seq<int>, c: int, total: int) {
    N(t) + c * BP(|t|) == total
  }

  lemma NothingCarried(t: seq<int>)
    requires t == []
    ensures Carried(t, 0, 0) && N(t) == 0
  {
    BPZero();
  }

  lemma CarriedIs(t: seq<int>, c: int, total: int)
    requires Carried(t, c, total)
    ensures N(t) + c * BP(|t|) == total
  {
  }

  lemma SumColumn(a: seq<int>, b: seq<int>, i: nat, t: seq<int>, c: int, x: int, c': int)
    requires i < |a| == |b| && |t| == |a| - i - 1 && Carried(t, c, N(a[i + 1..]) + N(b[i + 1..]))
    requires x + NBASE * c' == a[i] + b[i] + c
    ensures Carried([x] + t, c', N(a[i..]) + N(b[i..]))
  {
    hide N, BP;
    ColumnStep(t, c, N(a[i + 1..]) + N(b[i + 1..]), x, c', a[i] + b[i]);
    NHead(a[i..]); NHead(b[i..]);
    assert a[i..][1..] == a[i + 1..] && b[i..][1..] == b[i + 1..];
    DistributeInt(a[i], b[i], BP(|t|));
  }

  lemma DifferenceColumn(a: seq<int>, b: seq<int>, i: nat, t: seq<int>, c: int, x: int, c': int)
    requires i < |a| == |b| && |t| == |a| - i - 1 && Carried(t, c, N(a[i + 1..]) - N(b[i + 1..]))
    requires x + NBASE * c' == a[i] - b[i] + c
    ensures Carried([x] + t, c', N(a[i..]) - N(b[i..]))
  {
    hide N, BP;
    ColumnStep(t, c, N(a[i + 1..]) - N(b[i + 1..]), x, c', a[i] - b[i]);
    NHead(a[i..]); NHead(b[i..]);
    assert a[i..][1..] == a[i + 1..] && b[i..][1..] == b[i + 1..];
    DistributeInt(a[i], b[i], BP(|t|));
  }

  lemma PlainColumn(s: seq<int>, i: nat, t: seq<int>, c: int, x: int, c': int)
    requires i < |s| && |t| == |s| - i - 1 && Carried(t, c, N(s[i + 1..])) && x + NBASE * c' == s[i] + c
    ensures Carried([x] + t, c', N(s[i..]))
  {
    hide N, BP;
    ColumnStep(t, c, N(s[i + 1..]), x, c', s[i]);
    NHead(s[i..]);
    assert s[i..][1..] == s[i + 1..];
  }

  lemma DigitsInWindow(s: seq<int>, k: int)
    requires IsDigits(s)
    ensures IsDigit(At(s, k))
  {
  }

  /** Adds the digit windows that end at positions i1 and i2, `n` columns of them. */
  method AddDigits(l: seq<int>, r: seq<int>, n: nat, i1: int, i2: int) returns (res: array<int>, carry: int)
    requires IsDigits(l) && IsDigits(r)
    ensures fresh(res) && res.Length == n + 1 && res[0] == 0 && IsDigits(res[1..])
    ensures 0 <= carry <= 1
    ensures N(res[1..]) + carry * BP(n) == N(Window(l, i1 - n, i1)) + N(Window(r, i2 - n, i2))
  {
    hide N, BP, Window, Carried, At, IsDigits;
    ghost var a, b := Window(l, i1 - n, i1), Window(r, i2 - n, i2);
    res := new int[n + 1];
    res[0] := 0;
    carry := 0;
    var i := n;
    var j1, j2 := i1, i2;
    NothingCarried(res[n + 1..]); NothingCarried(a[n..]); NothingCarried(b[n..]);
    NoDigits(res[n + 1..]);
    while i > 0
      invariant 0 <= i <= n && j1 == i1 - n + i && j2 == i2 - n + i
      invariant res[0] == 0 && 0 <= carry <= 1
      invariant IsDigits(res[i + 1..]) && Carried(res[i + 1..], carry, N(a[i..]) + N(b[i..]))
    {
      i, j1, j2 := i - 1, j1 - 1, j2 - 1;
      ghost var t, c := res[i + 2..], carry;
      DigitsInWindow(l, j1);
      DigitsInWindow(r, j2);
      carry := carry + At(l, j1) + At(r, j2);
      if carry >= NBASE {
        res[i + 1] := carry - NBASE;
        carry := 1;
      } else {
        res[i + 1] := carry;
        carry := 0;
      }
      assert res[i + 1..] == [res[i + 1]] + t && a[i] == At(l, j1) && b[i] == At(r, j2);
      DigitsCons(res[i + 1], t);
      SumColumn(a, b, i, t, c, res[i + 1], carry);
    }
    assert a[0..] == a && b[0..] == b;
    CarriedIs(res[1..], carry, N(a) + N(b));
  }

  /** Subtracts digit windows; a borrow is left exactly when the minuend window is smaller. */
  method SubDigits(l: seq<int>, r: seq<int>, n: nat, i1: int, i2: int) returns (res: array<int>, borrow: int)
    requires IsDigits(l) && IsDigits(r)
    ensures fresh(res) && res.Length == n + 1 && res[0] == 0 && IsDigits(res[1..])
    ensures -1 <= borrow <= 0
    ensures N(res[1..]) + borrow * BP(n) == N(Window(l, i1 - n, i1)) - N(Window(r, i2 - n, i2))
  {
    hide N, BP, Window, Carried, At, IsDigits;
    ghost var a, b := Window(l, i1 - n, i1), Window(r, i2 - n, i2);
    res := new int[n + 1];
    res[0] := 0;
    borrow := 0;
    var i := n;
    var j1, j2 := i1, i2;
    NothingCarried(res[n + 1..]); NothingCarried(a[n..]); NothingCarried(b[n..]);
    NoDigits(res[n + 1..]);
    while i > 0
      invariant 0 <= i <= n && j1 == i1 - n + i && j2 == i2 - n + i
      invariant res[0] == 0 && -1 <= borrow <= 0
      invariant IsDigits(res[i + 1..]) && Carried(res[i + 1..], borrow, N(a[i..]) - N(b[i..]))
    {
      i, j1, j2 := i - 1, j1 - 1, j2 - 1;
      ghost var t, c := res[i + 2..], borrow;
      DigitsInWindow(l, j1);
      DigitsInWindow(r, j2);
      borrow := borrow + At(l, j1) - At(r, j2);
      if borrow < 0 {
        res[i + 1] := borrow + NBASE;
        borrow := -1;
      } else {
        res[i + 1] := borrow;
        borrow := 0;
      }
      assert res[i + 1..] == [res[i + 1]] + t && a[i] == At(l, j1) && b[i] == At(r, j2);
      DigitsCons(res[i + 1], t);
      DifferenceColumn(a, b, i, t, c, res[i + 1], borrow);
    }
    assert a[0..] == a && b[0..] == b;
    CarriedIs(res[1..], borrow, N(a) - N(b));
  }

  function Max(a: int, b: int): int {
    if a > b then a else b
  }

  /** Equal-length digit strings of one weight add and subtract as integers do. */
  lemma MagnitudeSum(s: seq<int>, a: seq<int>, b: seq<int>, w: int)
    requires |s| == |a| == |b|
    ensures N(s) == N(a) + N(b) ==> Magnitude(s, w) == Magnitude(a, w) + Magnitude(b, w)
    ensures N(s) == N(a) - N(b) ==> Magnitude(s, w) == Magnitude(a, w) - Magnitude(b, w)
  {
    hide N, Shift;
    ShiftSum(N(a) as real, N(b) as real, 4 * (w - |s| + 1));
  }

  /** Neither operand reaches the extra top column, so no carry leaves it. */
  lemma NoCarryOut(a: seq<int>, b: seq<int>, s: seq<int>, carry: int)
    requires IsDigits(a) && IsDigits(b) && IsDigits(s) && |a| == |b| == |s| > 0
    requires a[0] == 0 && b[0] == 0 && 0 <= carry <= 1
    requires N(s) + carry * BP(|s|) == N(a) + N(b)
    ensures carry == 0
  {
    hide N, BP;
    NHead(a); NHead(b);
    NBound(a[1..]); NBound(b[1..]); NBound(s);
    BPStep(|a| - 1);
  }

  /** |result| = |left| + |right|; result may be one of the operands. */
  method AddAbs(left: Decimal, right: Decimal, result: Decimal) returns (rc: int)
    requires left.Valid() && right.Valid()
    modifies result
    ensures rc == 0
    ensures result.Owned() && result.Stripped() && fresh(result.buff)
    ensures result.sign == Pos && result.typemod == -1
    ensures result.dscale == Max(old(left.dscale), old(right.dscale))
    ensures result.Mag() == old(left.Mag()) + old(right.Mag())
  {
    hide N, BP, Shift, Magnitude, Window;
    var l := left.Digs();
    var r := right.Digs();
    var resWeight := Max(left.weight, right.weight) + 1;
    var resDscale := Max(left.dscale, right.dscale);
    var rscale := Max(|l| - left.weight - 1, |r| - right.weight - 1);
    var n := rscale + resWeight + 1;
    if n <= 0 {
      n := 1;
    }
    var i1, i2 := rscale + left.weight + 1, rscale + right.weight + 1;
    var res, carry := AddDigits(l, r, n, i1, i2);
    ghost var a, b := Window(l, i1 - n, i1), Window(r, i2 - n, i2);
    NoCarryOut(a, b, res[1..], carry);
    if carry != 0 {
      return -6;
    }
    MagnitudeWindow(l, left.weight, i1 - n, i1);
    MagnitudeWindow(r, right.weight, i2 - n, i2);
    MagnitudeSum(res[1..], a, b, resWeight);
    result.Adopt(res, resWeight, resDscale);
    rc := 0;
  }

  /** Aligning the subtrahend with the columns of a minuend at least as large loses nothing. */
  lemma MagnitudeAligned(s: seq<int>, weight: int, lo: int, hi: int)
    requires IsDigits(s) && lo <= hi && |s| <= hi
    requires Magnitude(s, weight) < Shift(1.0, 4 * (weight - lo + 1))
    ensures Magnitude(Window(s, lo, hi), weight - lo) == Magnitude(s, weight)
  {
    if lo <= 0 {
      MagnitudeWindow(s, weight, lo, hi);
    } else {
      MagnitudeCut(s, weight, lo, hi);
    }
  }

  /** Zero minus zero: the only way to have no column at all. */
  lemma NoColumns(l: seq<int>, lw: int, r: seq<int>, rw: int, lo1: int, lo2: int, n: nat)
    requires IsDigits(r) && l == [] && Magnitude(r, rw) <= Magnitude(l, lw)
    ensures N(Window(l, lo1, lo1 + n)) == 0 && N(Window(r, lo2, lo2 + n)) == 0
    ensures Magnitude(l, lw) == 0.0 && Magnitude(r, rw) == 0.0
  {
    hide N, Shift;
    MagnitudeNonNegative(l, lw);
    MagnitudeNonNegative(r, rw);
    NZeros(Window(l, lo1, lo1 + n));
    NZeros(Window(r, lo2, lo2 + n));
  }

  /** |result| = |left| - |right| when |left| >= |right|. */
  method SubAbs(left: Decimal, right: Decimal, result: Decimal) returns (rc: int)
    requires left.Valid() && right.Valid() && left.Mag() >= right.Mag()
    modifies result
    ensures rc == 0
    ensures result.Owned() && result.Stripped() && fresh(result.buff)
    ensures result.sign == Pos && result.typemod == -1
    ensures result.dscale == Max(old(left.dscale), old(right.dscale))
    ensures result.Mag() == old(left.Mag()) - old(right.Mag())
  {
    hide N, BP, Shift, Magnitude, Window;
    var l := left.Digs();
    var r := right.Digs();
    var resWeight := left.weight;
    var resDscale := Max(left.dscale, right.dscale);
    var rscale := Max(|l| - left.weight - 1, |r| - right.weight - 1);
    var n := rscale + resWeight + 1;
    ghost var columns := n;
    if n <= 0 {
      n := 1;
    }
    var i1, i2 := rscale + left.weight + 1, rscale + right.weight + 1;
    var res, borrow := SubDigits(l, r, n, i1, i2);
    SubAligned(l, left.weight, r, right.weight, n, i1, i2, res[1..], borrow, columns);
    if borrow != 0 {
      return -6;
    }
    result.Adopt(res, resWeight, resDscale);
    rc := 0;
  }

  lemma SubAligned(l: seq<int>, lw: int, r: seq<int>, rw: int, n: nat, i1: int, i2: int, s: seq<int>, borrow: int,
                   columns: int)
    requires IsDigits(l) && IsDigits(r) && IsDigits(s) && |s| == n && -1 <= borrow <= 0
    requires Magnitude(l, lw) >= Magnitude(r, rw)
    requires |l| <= columns == i1 && |r| <= i2 && i2 - i1 == rw - lw && n == if columns <= 0 then 1 else columns
    requires N(s) + borrow * BP(n) == N(Window(l, i1 - n, i1)) - N(Window(r, i2 - n, i2))
    ensures borrow == 0 && Magnitude(s, lw) == Magnitude(l, lw) - Magnitude(r, rw)
  {
    hide N, BP, Shift, Magnitude, Window;
    var a, b := Window(l, i1 - n, i1), Window(r, i2 - n, i2);
    NBound(s);
    if columns <= 0 {
      NoColumns(l, lw, r, rw, i1 - n, i2 - n, n);
      assert N(s) == 0;
      NZeroOnly(s);
      MagnitudeNonNegative(s, lw);
    } else {
      MagnitudeBound(l, lw);
      MagnitudeWindow(l, lw, i1 - n, i1);
      assert rw - (i2 - n) + 1 == lw + 1;
      MagnitudeAligned(r, rw, i2 - n, i2);
      MagnitudeOrder(b, a, lw);
      MagnitudeSum(s, a, b, lw);
    }
  }

  /** The display scale of a sum. On cancellation the result is cleared before the
      operands' scales are read, so an operand that is also the result counts as 0. */
  ghost function SumScale(ld: int, lAlias: bool, rd: int, rAlias: bool, cancels: bool): int {
    Max(if cancels && lAlias then 0 else ld, if cancels && rAlias then 0 else rd)
  }

  /** Whether a cancelling sum forgets the larger scale: it belonged to the operand that is also the result. */
  ghost predicate ScaleLost(ld: int, lAlias: bool, rd: int, rAlias: bool, cancels: bool) {
    cancels && ((lAlias && rAlias && (ld > 0 || rd > 0)) || (lAlias && ld > rd) || (rAlias && rd > ld))
  }

  /** The scale of a sum is the larger of the two exactly when that scale is not forgotten. */
  lemma ScaleKeptExactly(ld: int, lAlias: bool, rd: int, rAlias: bool, cancels: bool)
    requires ld >= 0 && rd >= 0
    ensures SumScale(ld, lAlias, rd, rAlias, cancels) == Max(ld, rd) <==> !ScaleLost(ld, lAlias, rd, rAlias, cancels)
    ensures cancels && lAlias && !rAlias ==> SumScale(ld, lAlias, rd, rAlias, cancels) == rd
    ensures cancels && rAlias && !lAlias ==> SumScale(ld, lAlias, rd, rAlias, cancels) == ld
    ensures cancels && lAlias && rAlias ==> SumScale(ld, lAlias, rd, rAlias, cancels) == 0
    ensures Max(ld, rd) >= ld && Max(ld, rd) >= rd && (Max(ld, rd) == ld || Max(ld, rd) == rd)
  {
  }

  method Cancel(left: Decimal, right: Decimal, result: Decimal)
    modifies result
    ensures result.Finite() && result.Stripped() && result.Val() == 0.0
    ensures result.dscale == SumScale(old(left.dscale), result == left, old(right.dscale), result == right, true)
    ensures fresh(result.buff)
  {
    result.Init();
    NEmpty();
    result.dscale := Max(left.dscale, right.dscale);
  }

  /** result = s * (|left| - |right|), where s is -1 if `negate` and 1 otherwise. */
  method Difference(left: Decimal, right: Decimal, result: Decimal, negate: bool) returns (rc: int)
    requires left.Finite() && right.Finite()
    modifies result
    ensures rc == 0
    ensures result.Finite() && result.Stripped() && fresh(result.buff)
    ensures result.Val() == if negate then old(right.Mag()) - old(left.Mag()) else old(left.Mag()) - old(right.Mag())
    ensures result.dscale == SumScale(old(left.dscale), result == left, old(right.dscale), result == right,
                                      old(left.Mag()) == old(right.Mag()))
  {
    hide N, Shift, Magnitude, IsDigits, RoomAt, AllZero;
    var c := CmpAbs(left, right);
    if c == 0 {
      Cancel(left, right, result);
      rc := 0;
    } else if c == 1 {
      rc := SubAbs(left, right, result);
      result.SetSign(if negate then Neg else Pos);
    } else {
      rc := SubAbs(right, left, result);
      result.SetSign(if negate then Pos else Neg);
    }
  }

  /** result = s * (|left| + |right|). */
  method Total(left: Decimal, right: Decimal, result: Decimal, negate: bool) returns (rc: int)
    requires left.Finite() && right.Finite()
    modifies result
    ensures rc == 0
    ensures result.Finite() && fresh(result.buff)
    ensures result.Val() == if negate then -(old(left.Mag()) + old(right.Mag())) else old(left.Mag()) + old(right.Mag())
    ensures negate ==> (result.Stripped() <==> old(left.Mag()) + old(right.Mag()) > 0.0)
    ensures !negate ==> result.Stripped()
    ensures result.dscale == Max(old(left.dscale), old(right.dscale))
  {
    hide N, Shift, Magnitude, IsDigits, RoomAt, AllZero;
    rc := AddAbs(left, right, result);
    result.SetSign(if negate then Neg else Pos);
  }

  /** A stripped negative number is not zero. */
  lemma StrippedNegative(d: Decimal)
    requires d.Finite() && d.Stripped()
    ensures d.Mag() >= 0.0 && (d.sign == Neg ==> d.Mag() > 0.0)
  {
    MagnitudeStripped(d.Digs(), d.weight);
  }

  method Add(left: Decimal, right: Decimal, result: Decimal) returns (rc: int)
    requires left.Finite() && right.Finite()
    modifies result
    ensures rc == 0
    ensures result.Finite() && fresh(result.buff)
    ensures result.Val() == old(left.Val()) + old(right.Val())
    ensures old(left.Stripped()) && old(right.Stripped()) ==> result.Stripped()
    ensures result.dscale == SumScale(old(left.dscale), result == left, old(right.dscale), result == right,
                                      old(left.sign != right.sign && left.Mag() == right.Mag()))
  {
    hide N, Shift, Magnitude, IsDigits, RoomAt, AllZero, IsStripped;
    if left.Stripped() && right.Stripped() {
      StrippedNegative(left);
      StrippedNegative(right);
    }
    if left.sign == Pos {
      if right.sign == Pos {
        rc := Total(left, right, result, false);
      } else {
        rc := Difference(left, right, result, false);
      }
    } else {
      if right.sign == Pos {
        rc := Difference(left, right, result, true);
      } else {
        rc := Total(left, right, result, true);
      }
    }
  }

  method Sub(left: Decimal, right: Decimal, result: Decimal) returns (rc: int)
    requires left.Finite() && right.Finite()
    modifies result
    ensures rc == 0
    ensures result.Finite() && fresh(result.buff)
    ensures result.Val() == old(left.Val()) - old(right.Val())
    ensures old(left.Stripped()) && old(right.Stripped()) ==> result.Stripped()
    ensures result.dscale == SumScale(old(left.dscale), result == left, old(right.dscale), result == right,
                                      old(left.sign == right.sign && left.Mag() == right.Mag()))
  {
    hide N, Shift, Magnitude, IsDigits, RoomAt, AllZero, IsStripped;
    if left.Stripped() && right.Stripped() {
      StrippedNegative(left);
      StrippedNegative(right);
    }
    if left.sign == Pos {
      if right.sign == Neg {
        rc := Total(left, right, result, false);
      } else {
        rc := Difference(left, right, result, false);
      }
    } else {
      if right.sign == Neg {
        rc := Difference(left, right, result, true);
      } else {
        rc := Total(left, right, result, true);
      }
    }
  }
}
