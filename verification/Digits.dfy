// Big-endian base-10000 digit strings and the integers they denote.
module Digits {
  import opened Powers

  predicate IsDigit(d: int) {
    0 <= d < NBASE
  }

  /** The value fits a 32-bit int. */
  predicate InInt(x: int) {
    -0x8000_0000 <= x <= 0x7fff_ffff
  }

  predicate IsDigits(s: seq<int>) {
    forall i :: 0 <= i < |s| ==> IsDigit(s[i])
  }

  lemma NoDigits(t: seq<int>)
    requires t == []
    ensures IsDigits(t)
  {
  }

  lemma DigitsCons(x: int, t: seq<int>)
    requires IsDigits(t)
    ensures IsDigit(x) ==> IsDigits([x] + t)
  {
  }

  lemma IsDigitsSlice(s: seq<int>, i: nat, j: nat)
    requires IsDigits(s) && i <= j <= |s|
    ensures IsDigits(s[i..j])
  {
  }

  /** x * y, as a name that can be hidden. */
  function Product(x: int, y: int): int {
    x * y
  }

  lemma DigitProduct(x: int, d: int)
    requires IsDigit(x) && IsDigit(d)
    ensures 0 <= x * d <= x * (NBASE - 1)
  {
    NonNegativeProduct(x, d);
    NonNegativeProduct(x, NBASE - 1 - d);
    assert x * (NBASE - 1 - d) == x * (NBASE - 1) - x * d;
  }

  /** The integer denoted by a string of (not necessarily reduced) base-10000 digits. */
  function N(s: seq<int>): int {
    if s == [] then 0 else N(s[..|s| - 1]) * NBASE + s[|s| - 1]
  }

  lemma NEmpty()
    ensures N([]) == 0
  {
  }

  lemma NAppend(s: seq<int>, x: int)
    ensures N(s + [x]) == N(s) * NBASE + x
  {
    assert (s + [x])[..|s|] == s;
  }

  lemma {:induction false} NConcat(a: seq<int>, b: seq<int>)
    ensures N(a + b) == N(a) * BP(|b|) + N(b)
    decreases |b|
  {
    hide BP, N;
    if b == [] {
      assert a + b == a;
      NEmpty();
      BPZero();
    } else {
      var c, x := b[..|b| - 1], b[|b| - 1];
      assert b == c + [x] && a + b == (a + c) + [x];
      NConcat(a, c);
      NAppend(c, x);
      NAppend(a + c, x);
      BPStep(|c|);
      var p, q, r := N(a), BP(|c|), N(c);
      assert (p * q + r) * NBASE + x == p * (NBASE * q) + (r * NBASE + x);
    }
  }

  lemma NOne(x: int)
    ensures N([x]) == x
  {
    assert [x][..0] == [];
  }

  lemma NCons(x: int, t: seq<int>)
    ensures N([x] + t) == x * BP(|t|) + N(t)
  {
    hide BP, N;
    NConcat([x], t);
    NOne(x);
  }

  lemma {:induction false} NBound(s: seq<int>)
    requires IsDigits(s)
    ensures 0 <= N(s) < BP(|s|)
  {
    hide BP;
    if s == [] {
      BPZero();
    } else {
      NBound(s[..|s| - 1]);
      BPStep(|s| - 1);
    }
  }

  predicate AllZero(s: seq<int>) {
    forall i :: 0 <= i < |s| ==> s[i] == 0
  }

  lemma {:induction false} NZeros(s: seq<int>)
    requires AllZero(s)
    ensures N(s) == 0
  {
    if s != [] {
      NZeros(s[..|s| - 1]);
    }
  }

  lemma {:induction false} NZeroOnly(s: seq<int>)
    requires IsDigits(s) && N(s) == 0
    ensures AllZero(s)
  {
    if s != [] {
      NBound(s[..|s| - 1]);
      NZeroOnly(s[..|s| - 1]);
    }
  }

  /** The digit at position k of the string extended by zeros on both sides. */
  function At(s: seq<int>, k: int): int {
    if 0 <= k < |s| then s[k] else 0
  }

  /** Positions lo..hi of the zero-extended string. */
  function Window(s: seq<int>, lo: int, hi: int): (w: seq<int>)
    requires lo <= hi
    ensures |w| == hi - lo
    ensures forall i :: 0 <= i < hi - lo ==> w[i] == At(s, lo + i)
    ensures IsDigits(s) ==> IsDigits(w)
  {
    seq(hi - lo, i requires 0 <= i < hi - lo => At(s, lo + i))
  }

  lemma NWindow(s: seq<int>, lo: int, hi: int)
    requires lo <= 0 && |s| <= hi
    ensures N(Window(s, lo, hi)) == N(s) * BP(hi - |s|)
  {
    hide BP, N;
    var left, right := Window(s, lo, 0), Window(s, |s|, hi);
    assert Window(s, lo, hi) == left + (s + right);
    NConcat(left, s + right);
    NConcat(s, right);
    NZeros(left);
    NZeros(right);
  }

  /** Splits a window in two. */
  lemma NSplit(s: seq<int>, k: nat)
    requires k <= |s|
    ensures N(s) == N(s[..k]) * BP(|s| - k) + N(s[k..])
  {
    hide BP, N;
    assert s == s[..k] + s[k..];
    NConcat(s[..k], s[k..]);
  }

  lemma NHead(s: seq<int>)
    requires s != []
    ensures N(s) == s[0] * BP(|s| - 1) + N(s[1..])
  {
    hide BP, N;
    assert s == [s[0]] + s[1..];
    NCons(s[0], s[1..]);
  }

  lemma GapBeatsTail(x: int, y: int, p: int, s: int, t: int)
    requires x < y && 0 <= s < p && 0 <= t
    ensures x * p + s < y * p + t
  {
    assert (y - x - 1) * p >= 0;
    assert y * p == x * p + p + (y - x - 1) * p;
  }

  /** The first differing digit decides the order. */
  lemma NFirstDifference(a: seq<int>, b: seq<int>, k: nat)
    requires IsDigits(a) && IsDigits(b) && |a| == |b| && k < |a|
    requires a[..k] == b[..k] && a[k] < b[k]
    ensures N(a) < N(b)
  {
    hide BP, N;
    NSplit(a, k);
    NSplit(b, k);
    NHead(a[k..]);
    NHead(b[k..]);
    assert a[k..][1..] == a[k + 1..] && b[k..][1..] == b[k + 1..];
    NBound(a[k + 1..]);
    NBound(b[k + 1..]);
    GapBeatsTail(a[k], b[k], BP(|a| - k - 1), N(a[k + 1..]), N(b[k + 1..]));
  }
}
