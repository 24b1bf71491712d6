// The accumulator of the multiplication, step by step as pure values: what its entries are
// after each row, when carries are propagated, and exactly when those passes fit an int.
module Accumulator {
  import opened Powers
  import opened Digits

  const INT_MAX := 0x7fff_ffff
  const MAX_DIG := INT_MAX / (NBASE - 1)

  /** The carry that a pass over the entries s, from the last one up, hands to the entry before them. */
  function CarryOut(s: seq<int>): int {
    if s == [] then 0 else (s[0] + CarryOut(s[1..])) / NBASE
  }

  /** The entries that a carry pass leaves. */
  function Normal(s: seq<int>): (t: seq<int>)
    ensures |t| == |s| && IsDigits(t)
  {
    if s == [] then [] else [(s[0] + CarryOut(s[1..])) % NBASE] + Normal(s[1..])
  }

  /** Every intermediate sum of a carry pass over s fits an int. */
  predicate PassFits(s: seq<int>) {
    s == [] || (PassFits(s[1..]) && s[0] + CarryOut(s[1..]) <= INT_MAX)
  }

  /** A pass over s: the entries t it leaves, its carry, and whether its sums fit. */
  ghost predicate PassDone(s: seq<int>, t: seq<int>, carry: int, fits: bool) {
    t == Normal(s) && carry == CarryOut(s) && fits == PassFits(s)
  }

  lemma PassStart(s: seq<int>, t: seq<int>)
    requires s == t == []
    ensures PassDone(s, t, 0, true)
  {
  }

  lemma PassIs(s: seq<int>, t: seq<int>, carry: int, fits: bool)
    requires PassDone(s, t, carry, fits)
    ensures t == Normal(s) && carry == CarryOut(s) && fits == PassFits(s)
  {
  }

  lemma PassStep(s: seq<int>, i: nat, t: seq<int>, c: int, fits: bool, x: int, c': int)
    requires i < |s| && PassDone(s[i + 1..], t, c, fits) && x + NBASE * c' == s[i] + c && IsDigit(x)
    ensures PassDone(s[i..], [x] + t, c', fits && s[i] + c <= INT_MAX)
  {
    assert s[i..][1..] == s[i + 1..];
  }

  /** The multiplication's `maxdig` after the rows of l[i..]. */
  function MaxDig(l: seq<int>, i: nat): int
    requires i <= |l|
    decreases |l| - i
  {
    if i == |l| then 0
    else if PassBefore(l, i) then 1 + l[i] else MaxDig(l, i + 1) + l[i]
  }

  /** Whether carries are propagated before the row of l[i] is added. */
  predicate PassBefore(l: seq<int>, i: nat)
    requires i < |l|
    decreases |l| - i, 0
  {
    l[i] != 0 && MaxDig(l, i + 1) + l[i] > MAX_DIG
  }

  /** The accumulator after the rows of l[i..]. */
  function Entries(l: seq<int>, r: seq<int>, i: nat): (s: seq<int>)
    requires i <= |l|
    ensures |s| == |l| + |r| + 1
    decreases |l| - i
  {
    if i == |l| then Repeat(0, |l| + |r| + 1) else WithRow(BeforeRow(l, r, i), l[i], r, i)
  }

  /** The accumulator when the row of l[i] is about to be added. */
  function BeforeRow(l: seq<int>, r: seq<int>, i: nat): (s: seq<int>)
    requires i < |l|
    ensures |s| == |l| + |r| + 1
    decreases |l| - i, 0
  {
    if PassBefore(l, i) then Normal(Entries(l, r, i + 1)) else Entries(l, r, i + 1)
  }

  /** Adds the products of x with the digits of r from column i + 2 on. */
  function WithRow(s: seq<int>, x: int, r: seq<int>, i: nat): (t: seq<int>)
    ensures |t| == |s| && forall k :: 0 <= k < |s| ==> t[k] == s[k] + Product(x, At(r, k - (i + 2)))
  {
    seq(|s|, k requires 0 <= k < |s| => s[k] + Product(x, At(r, k - (i + 2))))
  }

  function Repeat(d: int, n: nat): (s: seq<int>)
    ensures |s| == n && forall i :: 0 <= i < n ==> s[i] == d
  {
    seq(n, i => d)
  }

  /** All passes of the multiplication of l and r fit an int: those on the way and the final one. */
  ghost predicate PassesFit(l: seq<int>, r: seq<int>) {
    PassFits(Entries(l, r, 0)) && PassesFitFrom(l, r, 0)
  }

  ghost predicate PassesFitFrom(l: seq<int>, r: seq<int>, i: nat)
    requires i <= |l|
  {
    forall j :: i <= j < |l| && PassBefore(l, j) ==> PassFits(Entries(l, r, j + 1))
  }

  /** `maxdig` is within the safe threshold whenever a pass starts, the final pass included. */
  predicate SafeLeft(l: seq<int>) {
    && NBASE * MaxDig(l, 0) - 1 <= INT_MAX
    && forall j :: 0 <= j < |l| && PassBefore(l, j) ==> NBASE * MaxDig(l, j + 1) - 1 <= INT_MAX
  }

  // Bounds on the entries, and what they mean for a pass.

  /** Entries of at most t * (NBASE - 1), as the accumulator guarantees with maxdig = t. */
  ghost predicate Bounded(s: seq<int>, t: int) {
    forall i :: 0 <= i < |s| ==> 0 <= s[i] <= t * (NBASE - 1)
  }

  lemma {:induction false} CarryBound(s: seq<int>, t: int)
    requires t >= 0 && Bounded(s, t)
    ensures 0 <= CarryOut(s) && (CarryOut(s) < t || CarryOut(s) == 0)
  {
    if s != [] {
      assert Bounded(s[1..], t);
      CarryBound(s[1..], t);
    }
  }

  lemma {:induction false} BoundedFits(s: seq<int>, t: int)
    requires t >= 0 && Bounded(s, t) && NBASE * t - 1 <= INT_MAX
    ensures PassFits(s)
  {
    if s != [] {
      assert Bounded(s[1..], t);
      BoundedFits(s[1..], t);
      CarryBound(s[1..], t);
    }
  }

  lemma {:induction false} EntriesBounded(l: seq<int>, r: seq<int>, i: nat)
    requires IsDigits(l) && IsDigits(r) && i <= |l|
    ensures 0 <= MaxDig(l, i) <= MAX_DIG && Bounded(Entries(l, r, i), MaxDig(l, i))
    decreases |l| - i
  {
    hide Product, Normal;
    if i < |l| {
      EntriesBounded(l, r, i + 1);
      RowBounded(BeforeRow(l, r, i), l[i], r, i, MaxDig(l, i) - l[i]);
    }
  }

  lemma RowBounded(s: seq<int>, x: int, r: seq<int>, i: nat, t: int)
    requires Bounded(s, t) && IsDigit(x) && IsDigits(r)
    ensures Bounded(WithRow(s, x, r, i), t + x)
  {
    forall k | 0 <= k < |s| ensures 0 <= WithRow(s, x, r, i)[k] <= (t + x) * (NBASE - 1) {
      DigitProduct(x, At(r, k - (i + 2)));
    }
  }

  /** A threshold t keeps every carry pass within an int if and only if t * NBASE - 1 <= INT_MAX. */
  lemma SafeThreshold(t: int)
    requires t >= 1
    ensures (forall s: seq<int> :: Bounded(s, t) ==> PassFits(s)) <==> NBASE * t - 1 <= INT_MAX
  {
    if NBASE * t - 1 <= INT_MAX {
      forall s: seq<int> | Bounded(s, t) ensures PassFits(s) {
        BoundedFits(s, t);
      }
    } else {
      var e := 214749 * (NBASE - 1);
      var s := [e, e, e];
      FullColumns(s, 214749, 0);
      assert Bounded(s, t);
    }
  }

  /** The threshold in use, INT_MAX / (NBASE - 1), is above the safe one. */
  lemma ThresholdInUseIsUnsafe()
    ensures !(forall s: seq<int> :: Bounded(s, MAX_DIG) ==> PassFits(s))
  {
    SafeThreshold(MAX_DIG);
  }

  lemma ZerosFit(s: seq<int>)
    requires AllZero(s)
    ensures PassFits(s)
  {
    BoundedFits(s, 0);
  }

  lemma {:induction false} NormalZeros(s: seq<int>)
    requires AllZero(s)
    ensures AllZero(Normal(s))
  {
    if s != [] {
      NormalZeros(s[1..]);
      CarryBound(s[1..], 0);
    }
  }

  lemma {:induction false} ZeroEntries(l: seq<int>, r: seq<int>, i: nat)
    requires i <= |l| && (l == [] || r == [])
    ensures AllZero(Entries(l, r, i))
    decreases |l| - i
  {
    if i < |l| {
      ZeroEntries(l, r, i + 1);
      NormalZeros(Entries(l, r, i + 1));
    }
  }

  /** Against an empty operand there is nothing to carry. */
  lemma EmptyFits(l: seq<int>, r: seq<int>)
    requires l == [] || r == []
    ensures PassesFit(l, r)
  {
    hide PassFits, Entries;
    ZeroEntries(l, r, 0);
    ZerosFit(Entries(l, r, 0));
    forall j | 0 <= j < |l| && PassBefore(l, j) ensures PassFits(Entries(l, r, j + 1)) {
      ZeroEntries(l, r, j + 1);
      ZerosFit(Entries(l, r, j + 1));
    }
  }

  // Right operands of all 9999s fill the middle columns to the bound.

  /** Columns lo to hi hold the most that maxdig = t allows. */
  ghost predicate Full(s: seq<int>, t: int, lo: int, hi: int) {
    forall k :: 0 <= lo <= k <= hi && k < |s| ==> s[k] == t * (NBASE - 1)
  }

  /** Behind two full columns a pass carries t - 1. */
  lemma CarryOfFull(s: seq<int>, t: int, k: nat)
    requires 1 <= t <= MAX_DIG && Bounded(s, t) && k + 1 < |s| && Full(s, t, k, k + 1)
    ensures CarryOut(s[k..]) == t - 1
  {
    var u := s[k + 2..];
    assert s[k..][1..] == s[k + 1..] && s[k + 1..][1..] == u;
    assert Bounded(u, t);
    CarryBound(u, t);
    assert s[k] == s[k + 1] == t * (NBASE - 1);
    CarryNearTop(t, CarryOut(u));
    CarryNearTop(t, CarryOut(s[k + 1..]));
  }

  /** A full column divides the distance of the carry from t - 1 by NBASE. */
  lemma CarryNearTop(t: int, c: int)
    requires c < t
    ensures (t * (NBASE - 1) + c) / NBASE == t - 1 - (t - 1 - c) / NBASE
  {
  }

  lemma {:induction false} SumInPass(s: seq<int>, k: nat)
    requires k < |s|
    ensures PassFits(s) ==> s[k] + CarryOut(s[k + 1..]) <= INT_MAX
    ensures Normal(s)[k] == (s[k] + CarryOut(s[k + 1..])) % NBASE
  {
    if k > 0 {
      assert s[1..][k..] == s[k + 1..];
      SumInPass(s[1..], k - 1);
    }
  }

  /** Three neighbouring full columns overflow above the safe threshold. */
  lemma FullColumns(s: seq<int>, t: int, k: nat)
    requires 1 <= t <= MAX_DIG && Bounded(s, t) && k + 2 < |s| && Full(s, t, k, k + 2)
    requires NBASE * t - 1 > INT_MAX
    ensures !PassFits(s)
  {
    CarryOfFull(s, t, k + 1);
    SumInPass(s, k);
  }

  /** A pass leaves 9999 in every column that has two full ones behind it. */
  lemma NormalOfFull(s: seq<int>, t: int, lo: nat, hi: nat)
    requires 1 <= t <= MAX_DIG && Bounded(s, t) && hi + 2 < |s| && Full(s, t, lo, hi + 2)
    ensures Full(Normal(s), 1, lo, hi)
  {
    hide Normal, CarryOut;
    forall k | lo <= k <= hi ensures Normal(s)[k] == 1 * (NBASE - 1) {
      CarryOfFull(s, t, k + 1);
      SumInPass(s, k);
      FullSum(s[k], t);
    }
  }

  lemma FullSum(x: int, t: int)
    requires x == t * (NBASE - 1)
    ensures (x + (t - 1)) % NBASE == NBASE - 1
  {
    assert x + (t - 1) == NBASE * (t - 1) + (NBASE - 1);
  }

  /** However many passes were made, the middle columns are as full as maxdig allows. */
  lemma {:induction false} MiddleIsFull(l: seq<int>, m: nat, i: nat)
    requires IsDigits(l) && i <= |l| && m >= 3 * |l|
    ensures Full(Entries(l, Repeat(NBASE - 1, m), i), MaxDig(l, i), |l| + 1, m + 1 - 2 * (|l| - i))
    decreases |l| - i
  {
    hide Normal, Product;
    var r := Repeat(NBASE - 1, m);
    if i < |l| {
      MiddleIsFull(l, m, i + 1);
      EntriesBounded(l, r, i + 1);
      var lo, hi := |l| + 1, m + 1 - 2 * (|l| - i);
      if PassBefore(l, i) {
        NormalOfFull(Entries(l, r, i + 1), MaxDig(l, i + 1), lo, hi);
      }
      RowOfNines(BeforeRow(l, r, i), l[i], m, i, MaxDig(l, i) - l[i], lo, hi);
    }
  }

  lemma RowOfNines(s: seq<int>, x: int, m: nat, i: nat, t: int, lo: int, hi: int)
    requires Full(s, t, lo, hi) && i + 2 <= lo && hi <= i + 1 + m
    ensures Full(WithRow(s, x, Repeat(NBASE - 1, m), i), t + x, lo, hi)
  {
  }

  /** For every left operand: all passes fit, whatever the right operand is, if and only if maxdig
      is at most 214748 at every pass, which the digits of the left operand decide. */
  lemma PassesFitExactly(l: seq<int>)
    requires IsDigits(l)
    ensures (forall r :: IsDigits(r) ==> PassesFit(l, r)) <==> SafeLeft(l)
  {
    if SafeLeft(l) {
      forall r | IsDigits(r) ensures PassesFit(l, r) {
        SafeFits(l, r);
      }
    } else {
      UnsafeOverflows(l, 3 * |l| + 3);
    }
  }

  lemma SafeFits(l: seq<int>, r: seq<int>)
    requires IsDigits(l) && IsDigits(r) && SafeLeft(l)
    ensures PassesFit(l, r)
  {
    hide Entries, MaxDig, PassFits;
    EntriesBounded(l, r, 0);
    BoundedFits(Entries(l, r, 0), MaxDig(l, 0));
    forall j | 0 <= j < |l| && PassBefore(l, j) ensures PassFits(Entries(l, r, j + 1)) {
      EntriesBounded(l, r, j + 1);
      BoundedFits(Entries(l, r, j + 1), MaxDig(l, j + 1));
    }
  }

  /** An unsafe left operand overflows against a long enough string of nines. */
  lemma UnsafeOverflows(l: seq<int>, m: nat)
    requires IsDigits(l) && !SafeLeft(l) && m >= 3 * |l| + 3
    ensures IsDigits(Repeat(NBASE - 1, m)) && !PassesFit(l, Repeat(NBASE - 1, m))
  {
    hide Entries, MaxDig, PassFits;
    if NBASE * MaxDig(l, 0) - 1 > INT_MAX {
      OverflowAt(l, m, 0);
    } else {
      var j :| 0 <= j < |l| && PassBefore(l, j) && NBASE * MaxDig(l, j + 1) - 1 > INT_MAX;
      OverflowAt(l, m, j + 1);
    }
  }

  lemma OverflowAt(l: seq<int>, m: nat, i: nat)
    requires IsDigits(l) && i <= |l| && m >= 3 * |l| + 3 && NBASE * MaxDig(l, i) - 1 > INT_MAX
    ensures !PassFits(Entries(l, Repeat(NBASE - 1, m), i))
  {
    hide Entries, MaxDig, PassFits;
    var r := Repeat(NBASE - 1, m);
    EntriesBounded(l, r, i);
    MiddleIsFull(l, m, i);
    FullColumns(Entries(l, r, i), MaxDig(l, i), |l| + 1);
  }

  // Left operands that never trigger a pass on the way: the entries are the schoolbook columns.

  function DigitSum(s: seq<int>): int {
    if s == [] then 0 else s[0] + DigitSum(s[1..])
  }

  lemma {:induction false} DigitSumTail(s: seq<int>, i: nat)
    requires IsDigits(s) && i <= |s|
    ensures 0 <= DigitSum(s[i..]) <= DigitSum(s)
  {
    if i > 0 {
      assert s[1..][i - 1..] == s[i..];
      DigitSumTail(s[1..], i - 1);
    } else {
      assert s[0..] == s;
      if s != [] {
        DigitSumTail(s[1..], 0);
        assert s[1..][0..] == s[1..];
      }
    }
  }

  /** The sum of all digit products that fall into accumulator column k. */
  function Column(l: seq<int>, r: seq<int>, k: int): int {
    if l == [] then 0 else Product(l[0], At(r, k - 2)) + Column(l[1..], r, k - 1)
  }

  function Columns(l: seq<int>, r: seq<int>): (c: seq<int>)
    ensures |c| == |l| + |r| + 1
  {
    seq(|l| + |r| + 1, k => Column(l, r, k))
  }

  lemma {:induction false} NoPassYet(l: seq<int>, i: nat)
    requires IsDigits(l) && i <= |l| && DigitSum(l) <= MAX_DIG
    ensures MaxDig(l, i) == DigitSum(l[i..])
    ensures forall j :: i <= j < |l| ==> !PassBefore(l, j)
    decreases |l| - i
  {
    hide DigitSum;
    DigitSumTail(l, i);
    DigitSumIs(l[i..]);
    if i < |l| {
      NoPassYet(l, i + 1);
      assert l[i..][1..] == l[i + 1..];
    }
  }

  lemma DigitSumIs(s: seq<int>)
    ensures DigitSum(s) == if s == [] then 0 else s[0] + DigitSum(s[1..])
  {
  }

  lemma {:induction false} EntriesAreColumns(l: seq<int>, r: seq<int>, i: nat)
    requires IsDigits(l) && i <= |l| && DigitSum(l) <= MAX_DIG
    ensures forall k :: 0 <= k < |l| + |r| + 1 ==> Entries(l, r, i)[k] == Column(l[i..], r, k - i)
    decreases |l| - i
  {
    hide Product, DigitSum;
    if i < |l| {
      NoPassYet(l, i);
      EntriesAreColumns(l, r, i + 1);
      assert l[i..][1..] == l[i + 1..];
      forall k | 0 <= k < |l| + |r| + 1 ensures Entries(l, r, i)[k] == Column(l[i..], r, k - i) {
        assert Entries(l, r, i + 1)[k] == Column(l[i + 1..], r, k - (i + 1));
      }
    }
  }

  /** Left operands with a digit sum of at most 214769: the final pass over the schoolbook columns
      fits for every right operand if and only if the digit sum is at most 214748. */
  lemma SmallOperandsFitExactly(l: seq<int>)
    requires IsDigits(l) && DigitSum(l) <= MAX_DIG
    ensures (forall r :: IsDigits(r) ==> PassFits(Columns(l, r))) <==> NBASE * DigitSum(l) - 1 <= INT_MAX
  {
    hide DigitSum, PassFits, Entries, MaxDig;
    NoPassYet(l, 0);
    assert l[0..] == l;
    forall r ensures Columns(l, r) == Entries(l, r, 0) {
      EntriesAreColumns(l, r, 0);
    }
    PassesFitExactly(l);
    assert forall r :: PassesFit(l, r) <==> PassFits(Columns(l, r));
  }

  lemma {:induction false} DigitSumBound(s: seq<int>)
    requires IsDigits(s)
    ensures DigitSum(s) <= |s| * (NBASE - 1)
  {
    if s != [] {
      DigitSumBound(s[1..]);
    }
  }

  /** Up to 21 digits on the left are always safe. */
  lemma ShortLeftIsSafe(l: seq<int>, r: seq<int>)
    requires IsDigits(l) && IsDigits(r) && |l| <= 21
    ensures PassesFit(l, r)
  {
    hide DigitSum, MaxDig, PassFits, Entries;
    DigitSumBound(l);
    NoPassYet(l, 0);
    assert l[0..] == l;
    SafeFits(l, r);
  }

  lemma {:induction false} RepeatSum(d: int, n: nat)
    ensures DigitSum(Repeat(d, n)) == n * d
  {
    if n > 0 {
      assert Repeat(d, n)[1..] == Repeat(d, n - 1);
      RepeatSum(d, n - 1);
      DistributeInt(n, 1, d);
    }
  }

  /** Concrete operands for which the final pass exceeds INT_MAX: 22 digits 9762 times 69 digits 9999. */
  lemma OverflowingOperands()
    ensures var l, r := Repeat(9762, 22), Repeat(9999, 69);
            IsDigits(l) && IsDigits(r) && DigitSum(l) <= MAX_DIG && !PassesFit(l, r)
  {
    hide DigitSum, MaxDig, PassFits, Entries;
    var l := Repeat(9762, 22);
    RepeatSum(9762, 22);
    NoPassYet(l, 0);
    assert l[0..] == l;
    UnsafeOverflows(l, 69);
  }

  /** Operands for which already a pass on the way exceeds INT_MAX: 23 digits 9762 times 72 digits 9999. */
  lemma OverflowOnTheWay()
    ensures var l, r := Repeat(9762, 23), Repeat(9999, 72);
            IsDigits(l) && IsDigits(r) && PassBefore(l, 0) && !PassFits(Entries(l, r, 1))
  {
    hide DigitSum, MaxDig, PassFits, Entries;
    MaxDigOfRepeat(9762, 23, 1);
    OverflowAt(Repeat(9762, 23), 72, 1);
  }

  lemma {:induction false} MaxDigOfRepeat(d: int, n: nat, i: nat)
    requires 0 < d < NBASE && i <= n && (n - i) * d <= MAX_DIG
    ensures MaxDig(Repeat(d, n), i) == (n - i) * d
    decreases n - i
  {
    if i < n {
      DistributeInt(n - i, 1, d);
      MaxDigOfRepeat(d, n, i + 1);
    }
  }
}
