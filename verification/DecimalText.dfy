// Decimal numerals as digit strings, and what the printed form of a decimal denotes.
module DecimalText {
  import opened Powers
  import opened Digits
  import opened Decimals
  import opened Rounding
  import opened Arithmetic

  predicate IsDec(ds: seq<int>) {
    forall i :: 0 <= i < |ds| ==> 0 <= ds[i] < 10
  }

  /** The integer a string of decimal digits denotes. */
  function D(ds: seq<int>): int {
    if ds == [] then 0 else 10 * D(ds[..|ds| - 1]) + ds[|ds| - 1]
  }

  lemma DAppend(a: seq<int>, x: int)
    ensures D(a + [x]) == 10 * D(a) + x
  {
    assert (a + [x])[..|a|] == a;
  }

  lemma DEmpty(a: seq<int>)
    requires a == []
    ensures D(a) == 0
  {
  }

  /** Reading two strings one after the other. */
  lemma {:induction false} DConcat(a: seq<int>, b: seq<int>, e: int)
    ensures Shift(D(a + b) as real, e) == Shift(D(a) as real, e + |b|) + Shift(D(b) as real, e)
    decreases |b|
  {
    hide D, Shift;
    if b == [] {
      assert a + b == a;
      DEmpty(b);
      ShiftOrder(0.0, 0.0, e);
    } else {
      var c, x := b[..|b| - 1], b[|b| - 1];
      assert b == c + [x] && a + b == (a + c) + [x];
      DAppend(c, x);
      DAppend(a + c, x);
      DConcat(a, c, e + 1);
      TenTimes(D(a + c), x, e);
      TenTimes(D(c), x, e);
      assert e + 1 + |c| == e + |b|;
    }
  }

  lemma TenTimes(n: int, x: int, e: int)
    ensures Shift((10 * n + x) as real, e) == Shift(n as real, e + 1) + Shift(x as real, e)
  {
    hide Shift;
    ShiftSum(10.0 * n as real, x as real, e);
    ShiftShift(n as real, 1, e);
    ShiftOne(n as real);
  }

  lemma ShiftOne(x: real)
    ensures Shift(x, 1) == 10.0 * x
  {
    assert Ten(1) == 10.0;
  }

  lemma {:induction false} DBound(b: seq<int>)
    requires IsDec(b)
    ensures D(b) >= 0 && Shift(D(b) as real, -|b|) < 1.0
  {
    hide D, Shift;
    if b == [] {
      DEmpty(b);
      ShiftNone(0.0);
    } else {
      var c, x := b[..|b| - 1], b[|b| - 1];
      assert b == c + [x];
      DBound(c);
      DAppend(c, x);
      TenTimes(D(c), x, -|b|);
      LastPlace(D(c), x, |c|);
    }
  }

  /** Below one at |c| places, one more digit at the next place stays below one. */
  lemma LastPlace(n: int, x: int, k: nat)
    requires 0 <= x < 10 && Shift(n as real, 0 - k) < 1.0
    ensures Shift(n as real, 0 - k) + Shift(x as real, 0 - k - 1) < 1.0
  {
    hide Shift;
    ShiftBack(1.0, k);
    ShiftBack(n as real, k);
    ShiftNone(n as real);
    ShiftNone(1.0);
    var t := Shift(1.0, k);
    var m := WholeTen(k);
    ShiftOrder(n as real, t, 0 - k);
    assert n + 1 <= m;
    ShiftOrder((n + 1) as real, m as real, 0 - k);
    ShiftSum(n as real, 1.0, 0 - k);
    ShiftShift(x as real, -1, 0 - k);
    ShiftOne(Shift(x as real, -1));
    ShiftBack(x as real, 1);
    ShiftOrder(Shift(x as real, -1), 1.0, 0 - k);
  }

  lemma {:induction false} WholeTen(k: nat) returns (m: int)
    ensures Shift(1.0, k) == m as real
  {
    hide Shift;
    if k == 0 {
      ShiftNone(1.0);
      m := 1;
    } else {
      var n := WholeTen(k - 1);
      ShiftShift(1.0, k - 1, 1);
      ShiftOne(n as real);
      m := 10 * n;
    }
  }

  /** The four decimal digits of a base-10000 digit, taken off one by one. */
  function Four(x: int): (ds: seq<int>)
    requires IsDigit(x)
    ensures |ds| == 4 && IsDec(ds)
  {
    var a := x / 1000;
    var x1 := x - 1000 * a;
    var b := x1 / 100;
    var x2 := x1 - 100 * b;
    var c := x2 / 10;
    [a, b, c, x2 - 10 * c]
  }

  lemma DFour(a: seq<int>, x: int)
    requires IsDigit(x)
    ensures D(a + Four(x)) == NBASE * D(a) + x
  {
    hide D;
    var f := Four(x);
    DAppend(a, f[0]);
    DAppend(a + [f[0]], f[1]);
    DAppend(a + [f[0]] + [f[1]], f[2]);
    DAppend(a + [f[0]] + [f[1]] + [f[2]], f[3]);
    assert a + f == a + [f[0]] + [f[1]] + [f[2]] + [f[3]];
  }

  /** All base-10000 digits written out. */
  function Spread(s: seq<int>): (ds: seq<int>)
    requires IsDigits(s)
    ensures |ds| == 4 * |s| && IsDec(ds)
  {
    if s == [] then [] else Spread(s[..|s| - 1]) + Four(s[|s| - 1])
  }

  lemma {:induction false} SpreadAppend(s: seq<int>, x: int)
    requires IsDigits(s) && IsDigit(x)
    ensures IsDigits(s + [x]) && Spread(s + [x]) == Spread(s) + Four(x)
  {
    assert (s + [x])[..|s|] == s;
  }

  lemma {:induction false} SpreadValue(a: seq<int>, s: seq<int>)
    requires IsDigits(s)
    ensures D(a + Spread(s)) == D(a) * BP(|s|) + N(s)
  {
    hide D, N, BP;
    if s == [] {
      assert a + Spread(s) == a;
      NEmpty();
      BPZero();
    } else {
      var t, x := s[..|s| - 1], s[|s| - 1];
      SpreadValue(a, t);
      assert s == t + [x] && a + Spread(s) == (a + Spread(t)) + Four(x);
      DFour(a + Spread(t), x);
      NAppend(t, x);
      BPStep(|t|);
      MulBase(D(a), BP(|t|), N(t));
    }
  }

  lemma MulBase(p: int, q: int, r: int)
    ensures NBASE * (p * q + r) == p * (NBASE * q) + r * NBASE
  {
  }

  /** The digits of x without leading zeros, at least one. */
  function Short(x: int): (ds: seq<int>)
    requires IsDigit(x)
    ensures 1 <= |ds| <= 4 && IsDec(ds)
  {
    if x >= 1000 then Four(x) else if x >= 100 then Four(x)[1..] else if x >= 10 then Four(x)[2..] else Four(x)[3..]
  }

  lemma {:induction false} DDropZero(ds: seq<int>)
    requires ds != [] && ds[0] == 0
    ensures D(ds) == D(ds[1..])
  {
    if |ds| > 1 {
      assert ds[..|ds| - 1][1..] == ds[1..][..|ds| - 2];
      DDropZero(ds[..|ds| - 1]);
    } else {
      assert ds[..0] == [];
    }
  }

  lemma DShort(x: int)
    requires IsDigit(x)
    ensures D(Short(x)) == x
  {
    hide D;
    var f := Four(x);
    DFour([], x);
    DEmpty([]);
    assert [] + f == f && f[1..][1..] == f[2..] && f[2..][1..] == f[3..];
    if x < 1000 { DDropZero(f); }
    if x < 100 { DDropZero(f[1..]); }
    if x < 10 { DDropZero(f[2..]); }
  }

  /** The digits in front of the point. */
  function IntPart(s: seq<int>, weight: int): (ds: seq<int>)
    requires IsDigits(s)
    ensures IsDec(ds) && 1 <= |ds| && |ds| <= if weight < 0 then 1 else 4 * (weight + 1)
  {
    if weight < 0 then [0] else Short(At(s, 0)) + Spread(Window(s, 1, weight + 1))
  }

  /** How many base-10000 digits the fraction takes. */
  function Blocks(dscale: nat): nat {
    (dscale + 3) / 4
  }

  /** The digits behind the point, dscale of them. */
  function FracPart(s: seq<int>, weight: int, dscale: nat): (ds: seq<int>)
    requires IsDigits(s)
    ensures IsDec(ds) && |ds| == dscale
  {
    Spread(Window(s, weight + 1, weight + 1 + Blocks(dscale)))[..dscale]
  }

  /** Front and fraction blocks together are all digits up to the last block. */
  lemma PartsJoin(s: seq<int>, weight: int, k: nat)
    requires IsDigits(s)
    ensures D(IntPart(s, weight) + Spread(Window(s, weight + 1, weight + 1 + k))) ==
              N(Window(s, if weight < 0 then weight + 1 else 0, weight + 1 + k))
  {
    hide D, N, BP, Short, Spread;
    var tail := Window(s, weight + 1, weight + 1 + k);
    SpreadValue(IntPart(s, weight), tail);
    if weight < 0 {
      DAppend([], 0);
      DEmpty([]);
      assert [] + [0] == [0];
    } else {
      var x, mid := At(s, 0), Window(s, 1, weight + 1);
      SpreadValue(Short(x), mid);
      DShort(x);
      NCons(x, mid);
      NConcat([x] + mid, tail);
      assert Window(s, 0, weight + 1 + k) == ([x] + mid) + tail;
    }
  }

  /** The blocks that are written out hold the whole number. */
  lemma BlocksHoldAll(s: seq<int>, weight: int, dscale: nat)
    requires IsDigits(s) && (if s == [] then weight == 0 else s[|s| - 1] != 0)
    requires IsInt(Shift(Magnitude(s, weight), dscale))
    ensures var k := Blocks(dscale);
            Shift(D(IntPart(s, weight) + Spread(Window(s, weight + 1, weight + 1 + k))) as real, -4 * k) ==
                Magnitude(s, weight)
  {
    hide D, N, Shift, IntPart, Spread;
    var k := Blocks(dscale);
    var lo, hi := if weight < 0 then weight + 1 else 0, weight + 1 + k;
    if s != [] {
      DigitsWithinScale(s, weight, dscale);
    }
    PartsJoin(s, weight, k);
    MagnitudeWindow(s, weight, lo, hi);
  }

  /** An integer that is n and a fraction below one is n. */
  lemma FractionVanishes(n: int, f: real)
    requires 0.0 <= f < 1.0 && IsInt(n as real + f)
    ensures f == 0.0
  {
    hide IsInt;
    var m := IntOf(n as real + f);
    assert n <= m < n + 1;
  }

  /** The printed digits denote exactly the number. */
  lemma PrintedDigitsDenote(s: seq<int>, weight: int, dscale: nat)
    requires IsDigits(s) && (if s == [] then weight == 0 else s[|s| - 1] != 0)
    requires IsInt(Shift(Magnitude(s, weight), dscale))
    ensures Shift(D(IntPart(s, weight) + FracPart(s, weight, dscale)) as real, 0 - dscale) == Magnitude(s, weight)
  {
    hide D, N, Shift, IntPart, Spread, Magnitude, IsInt;
    var k: int := Blocks(dscale);
    var all := Spread(Window(s, weight + 1, weight + 1 + k));
    var keep, cut := IntPart(s, weight) + all[..dscale], all[dscale..];
    BlocksHoldAll(s, weight, dscale);
    assert IntPart(s, weight) + all == keep + cut;
    DConcat(keep, cut, -4 * k);
    DBound(cut);
    var n, f := D(keep) as real, Shift(D(cut) as real, -4 * k);
    ShiftSum(Shift(n, 0 - dscale), f, dscale);
    ShiftBack(n, dscale);
    ShiftShift(D(cut) as real, -4 * k, dscale);
    ShiftOrder(0.0, D(cut) as real, dscale - 4 * k);
    FractionVanishes(D(keep), Shift(f, dscale));
    ShiftBack(f, dscale);
    ShiftOrder(0.0, 0.0, 0 - dscale);
  }

  /** No zero is printed in front of the first digit, unless there is no other digit in front of the point. */
  lemma NoLeadingZero(s: seq<int>, weight: int)
    requires IsDigits(s)
    ensures weight >= 0 && s != [] && s[0] != 0 ==> IntPart(s, weight)[0] != 0
    ensures weight < 0 || (weight == 0 && s == []) ==> IntPart(s, weight) == [0]
    ensures weight >= 0 ==> 4 * weight + 1 <= |IntPart(s, weight)| <= 4 * (weight + 1)
  {
    hide Spread;
    if weight >= 0 {
      ShortStarts(At(s, 0));
      assert Window(s, 1, 1) == [];
      NoSpread(Window(s, 1, weight + 1));
    }
  }

  lemma NoSpread(s: seq<int>)
    requires IsDigits(s)
    ensures s == [] ==> Spread(s) == []
  {
  }

  lemma ShortStarts(x: int)
    requires IsDigit(x)
    ensures (x > 0 ==> Short(x)[0] != 0) && (x == 0 ==> Short(x) == [0])
  {
  }

  /** What the blocks that are written out hold of the number: all but less than one unit of the last of them. */
  lemma BlocksHoldFront(s: seq<int>, weight: int, k: nat) returns (rest: real)
    requires IsDigits(s)
    ensures 0.0 <= rest < Shift(1.0, -4 * k)
    ensures Magnitude(s, weight) ==
              Shift(D(IntPart(s, weight) + Spread(Window(s, weight + 1, weight + 1 + k))) as real, -4 * k) + rest
  {
    hide D, N, Shift, IntPart, Spread, Magnitude;
    var lo, hi := if weight < 0 then weight + 1 else 0, weight + 1 + k;
    var end := if hi < |s| then |s| else hi;
    var all := Window(s, lo, end);
    PartsJoin(s, weight, k);
    MagnitudeWindow(s, weight, lo, end);
    MagnitudeSplit(all, weight - lo, hi - lo);
    assert all[..hi - lo] == Window(s, lo, hi);
    IsDigitsSlice(all, hi - lo, |all|);
    assert all[hi - lo..|all|] == all[hi - lo..];
    rest := Magnitude(all[hi - lo..], weight - lo - (hi - lo));
    MagnitudeBound(all[hi - lo..], weight - lo - (hi - lo));
    assert 4 * (weight - lo - (hi - lo) + 1) == -4 * k;
  }

  /** Digits that are cut off, and less than a unit of the last of them, make less than a unit of the place before. */
  lemma CutIsSmall(cut: seq<int>, e: int, rest: real)
    requires IsDec(cut) && 0.0 <= rest < Shift(1.0, e)
    ensures 0.0 <= Shift(D(cut) as real, e) + rest < Shift(1.0, e + |cut|)
  {
    hide D, Shift;
    DBound(cut);
    var m := WholeTen(|cut|);
    ShiftBack(D(cut) as real, |cut|);
    ShiftOrder(Shift(D(cut) as real, -|cut|), 1.0, |cut|);
    assert D(cut) + 1 <= m;
    ShiftOrder(m as real, (D(cut) + 1) as real, e);
    ShiftSum(D(cut) as real, 1.0, e);
    ShiftShift(1.0, |cut|, e);
    ShiftOrder(D(cut) as real, 0.0, e);
  }

  /** For every decimal, also one with more digits than its display scale shows: what is printed is the number cut off
      at that scale. */
  lemma PrintedDigitsTruncate(s: seq<int>, weight: int, dscale: nat)
    requires IsDigits(s)
    ensures Shift(D(IntPart(s, weight) + FracPart(s, weight, dscale)) as real, 0 - dscale) ==
              RoundDown(Magnitude(s, weight), dscale)
  {
    hide D, N, Shift, IntPart, Spread, Magnitude;
    var k: int := Blocks(dscale);
    var all := Spread(Window(s, weight + 1, weight + 1 + k));
    var keep, cut := IntPart(s, weight) + all[..dscale], all[dscale..];
    var rest := BlocksHoldFront(s, weight, k);
    assert IntPart(s, weight) + all == keep + cut;
    DConcat(keep, cut, -4 * k);
    CutIsSmall(cut, -4 * k, rest);
    assert -4 * k + |cut| == 0 - dscale;
    var n, f := D(keep) as real, Shift(D(cut) as real, -4 * k) + rest;
    ShiftSum(Shift(n, 0 - dscale), f, dscale);
    ShiftBack(n, dscale);
    ShiftBack(1.0, dscale);
    ShiftOrder(f, Shift(1.0, 0 - dscale), dscale);
    ShiftOrder(f, 0.0, dscale);
    FloorIs(Shift(Magnitude(s, weight), dscale), D(keep));
  }
}
