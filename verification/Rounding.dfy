// Rounding and truncation of a decimal in place, specified on rationals.
module Rounding {
  import opened Powers
  import opened Digits
  import opened Decimals

  /** The multiple of 10^-scale nearest to x >= 0, ties upwards. */
  function RoundHalfUp(x: real, scale: int): real {
    Shift((Shift(x, scale) + 0.5).Floor as real, -scale)
  }

  /** The largest multiple of 10^-scale not above x. */
  function RoundDown(x: real, scale: int): real {
    Shift(Shift(x, scale).Floor as real, -scale)
  }

  /** Rounding a signed value: half away from zero. */
  function RoundAway(x: real, scale: int): real {
    if x < 0.0 then -RoundHalfUp(-x, scale) else RoundHalfUp(x, scale)
  }

  /** Truncation towards zero. */
  function Truncate(x: real, scale: int): real {
    if x < 0.0 then -RoundDown(-x, scale) else RoundDown(x, scale)
  }

  lemma FloorIs(x: real, t: int)
    requires t as real <= x < t as real + 1.0
    ensures x.Floor == t
  {
  }

  /** Rounding is exact on multiples of 10^-scale. */
  lemma RoundExact(x: real, scale: int)
    requires IsInt(Shift(x, scale))
    ensures RoundHalfUp(x, scale) == x && RoundDown(x, scale) == x
  {
    hide Shift;
    FloorIs(Shift(x, scale) + 0.5, Shift(x, scale).Floor);
    ShiftBack(x, scale);
  }

  /** Rounding gives the multiple of 10^-scale nearest to x, the upper one of two; cutting gives the next one below. */
  lemma NearestMultiple(x: real, scale: int)
    ensures var r, unit := RoundHalfUp(x, scale), Shift(1.0, -scale);
            IsInt(Shift(r, scale)) && -unit < 2.0 * (r - x) <= unit
    ensures var c, unit := RoundDown(x, scale), Shift(1.0, -scale);
            IsInt(Shift(c, scale)) && 0.0 <= x - c < unit
  {
    hide Shift;
    var y := Shift(x, scale);
    var t, u := (y + 0.5).Floor as real, y.Floor as real;
    ShiftBack(x, scale); ShiftBack(t, scale); ShiftBack(u, scale);
    ShiftSum(t, y, -scale); ShiftSum(y, t, -scale); ShiftSum(y, u, -scale);
    ShiftOrder(0.5, t - y, -scale); ShiftOrder(y - t, 0.5, -scale);
    ShiftOrder(y - u, 1.0, -scale); ShiftOrder(0.0, y - u, -scale); ShiftOrder(y - u, 0.0, -scale);
    ShiftSum(0.5, 0.5, -scale);
  }

  /** Away from zero and towards zero: the same on both sides of it. */
  lemma RoundingIsOdd(x: real, scale: int)
    ensures RoundAway(-x, scale) == -RoundAway(x, scale) && Truncate(-x, scale) == -Truncate(x, scale)
    ensures x >= 0.0 ==> RoundAway(x, scale) == RoundHalfUp(x, scale) && Truncate(x, scale) == RoundDown(x, scale)
  {
    hide RoundHalfUp, RoundDown;
    if x >= 0.0 { RoundSigned(x, scale); } else { RoundSigned(-x, scale); }
  }

  /** 10^r for the at most three decimal digits cut off inside one NBASE digit. */
  function RoundPower(r: int): (p: int)
    requires 0 <= r <= 3
    ensures p == 1 || p == 10 || p == 100 || p == 1000
    ensures NBASE % p == 0
  {
    if r == 0 then 1 else if r == 1 then 10 else if r == 2 then 100 else 1000
  }

  lemma ShiftRoundPower(x: real, r: int)
    requires 0 <= r <= 3
    ensures Shift(x, r) == RoundPower(r) as real * x
  {
    ShiftByFour(x);
    ShiftNone(x);
  }

  /** Seen at scale `scale`, the first k digits count units of 1/p, and what follows is a fraction of one unit. */
  lemma SplitAtScale(s: seq<int>, w: int, k: nat, r: int, scale: int) returns (f: real)
    requires IsDigits(s) && k <= |s| && 0 <= r <= 3 && 4 * (w + 1) + scale == 4 * k - r
    ensures 0.0 <= f < 1.0 && (k == |s| ==> f == 0.0)
    ensures k < |s| ==> (f >= 0.5 <==> s[k] >= HALF_NBASE)
    ensures RoundPower(r) as real * Shift(Magnitude(s, w), scale) == N(s[..k]) as real + f
  {
    hide N, Shift, Magnitude;
    var e := 4 * (w - k + 1);
    var x, rest := N(s[..k]) as real, Magnitude(s[k..], w - k);
    f := Shift(rest, -e);
    MagnitudeSplit(s, w, k);
    MagnitudeBound(s[k..], w - k);
    ShiftOrder(0.0, rest, -e);
    ShiftOrder(rest, Shift(1.0, e), -e);
    ShiftBack(1.0, e);
    assert scale + r == -e;
    ShiftShift(Magnitude(s, w), scale, r);
    ShiftRoundPower(Shift(Magnitude(s, w), scale), r);
    ShiftSum(Shift(x, e), rest, -e);
    ShiftBack(x, e);
    if k < |s| {
      HalfDigit(s[k..], w - k);
    } else {
      MagnitudeNonNegative(s[k..], w - k);
    }
  }

  /** The first digit of a fraction decides whether it reaches one half. */
  lemma HalfDigit(t: seq<int>, w: int)
    requires IsDigits(t) && t != []
    ensures Shift(Magnitude(t, w), -4 * (w + 1)) >= 0.5 <==> t[0] >= HALF_NBASE
  {
    hide N, Shift, Magnitude;
    MagnitudePeel(t, w);
    MagnitudeBound(t[1..], w - 1);
    assert 4 * (w - 1 + 1) == 4 * w;
    var m, f, rest := Magnitude(t, w), Shift(Magnitude(t, w), -4 * (w + 1)), Magnitude(t[1..], w - 1);
    var g := Shift(rest, -4 * w);
    ShiftShift(m, -4 * (w + 1), 4);
    ShiftByFour(f);
    assert -4 * (w + 1) + 4 == -4 * w;
    ShiftSum(Shift(t[0] as real, 4 * w), rest, -4 * w);
    ShiftBack(t[0] as real, 4 * w);
    ShiftBack(1.0, 4 * w);
    ShiftOrder(0.0, rest, -4 * w);
    ShiftOrder(rest, Shift(1.0, 4 * w), -4 * w);
    assert 10000.0 * f == t[0] as real + g && 0.0 <= g < 1.0;
  }

  /** The kept digits after rounding, as an integer: the first k digits of s, of which
      the last r decimal digits are also dropped. */
  function Rounded(s: seq<int>, k: nat, r: int): int
    requires k <= |s| && 0 <= r <= 3
  {
    var x, p := N(s[..k]), RoundPower(r);
    if r == 0 then
      if k < |s| && s[k] >= HALF_NBASE then x + 1 else x
    else
      x - x % p + if x % p >= p / 2 then p else 0
  }

  /** p y = p q + e + f puts y between q and q + 1, and above q + 1/2 exactly when e + f >= p / 2. */
  lemma UnitsBetween(y: real, q: int, e: int, f: real, p: int)
    requires p == 1 || p == 10 || p == 100 || p == 1000
    requires 0 <= e < p && 0.0 <= f < 1.0 && p as real * y == p as real * q as real + e as real + f
    ensures q as real <= y < q as real + 1.0
    ensures p == 1 ==> (y >= q as real + 0.5 <==> f >= 0.5)
    ensures p > 1 ==> (y >= q as real + 0.5 <==> e >= p / 2)
  {
    var z, r := y - q as real, p as real;
    Distribute(y, q as real, r);
    assert z * r == e as real + f;
    assert p > 1 ==> 0.5 * r == (p / 2) as real;
    CancelOrder(0.0, z, r);
    CancelOrder(z, 1.0, r);
    CancelOrder(0.5, z, r);
    CancelOrder(z, 0.5, r);
  }

  lemma QuotientAsReal(x: int, p: int)
    requires p == 1 || p == 10 || p == 100 || p == 1000
    ensures x as real == p as real * (x / p) as real + (x % p) as real && 0 <= x % p < p
  {
    if p == 10 {
    } else if p == 100 {
    } else if p == 1000 {
    }
  }

  lemma RoundedUnits(y: real, x: int, f: real, p: int)
    requires p == 1 || p == 10 || p == 100 || p == 1000
    requires p as real * y == x as real + f && 0.0 <= f < 1.0
    ensures y.Floor == x / p
    ensures p > 1 ==> (y + 0.5).Floor == x / p + if x % p >= p / 2 then 1 else 0
    ensures p == 1 ==> (y + 0.5).Floor == x + if f >= 0.5 then 1 else 0
  {
    var q, e := x / p, x % p;
    QuotientAsReal(x, p);
    UnitsBetween(y, q, e, f, p);
    FloorIs(y, q);
    FloorIs(y + 0.5, q + if y >= q as real + 0.5 then 1 else 0);
  }

  /** Digit rounding computes rounding of the rational. */
  lemma RoundedIsRounding(s: seq<int>, w: int, k: nat, r: int, scale: int)
    requires IsDigits(s) && k <= |s| && 0 <= r <= 3 && 4 * (w + 1) + scale == 4 * k - r
    ensures RoundHalfUp(Magnitude(s, w), scale) == Shift(Rounded(s, k, r) as real, 4 * (w - k + 1))
  {
    hide N, Shift, Magnitude;
    var f := SplitAtScale(s, w, k, r, scale);
    var y, x, p := Shift(Magnitude(s, w), scale), N(s[..k]), RoundPower(r);
    RoundedUnits(y, x, f, p);
    var t := (y + 0.5).Floor;
    assert p * t == Rounded(s, k, r);
    UnitsBack(t, w, k, r, scale);
  }

  /** t units of 10^-scale, counted in the last kept digit. */
  lemma UnitsBack(t: int, w: int, k: nat, r: int, scale: int)
    requires 0 <= r <= 3 && 4 * (w + 1) + scale == 4 * k - r
    ensures Shift(t as real, -scale) == Shift((RoundPower(r) * t) as real, 4 * (w - k + 1))
  {
    hide Shift;
    ShiftRoundPower(t as real, r);
    ShiftShift(t as real, r, 4 * (w - k + 1));
  }

  /** p divides every power of NBASE but the zeroth. */
  lemma PowerMultiple(k: nat, p: int)
    requires k >= 1 && (p == 1 || p == 10 || p == 100 || p == 1000)
    ensures BP(k) % p == 0
  {
    hide BP;
    BPStep(k - 1);
    TenThousandfold(BP(k - 1), p);
  }

  lemma TenThousandfold(b: int, p: int)
    requires p == 1 || p == 10 || p == 100 || p == 1000
    ensures (NBASE * b) % p == 0
  {
    if p == 10 {
    } else if p == 100 {
    } else if p == 1000 {
    }
  }

  lemma ModDrops(n: int, d: int, p: int)
    requires p == 1 || p == 10 || p == 100 || p == 1000
    ensures (n * NBASE + d) % p == d % p
  {
    var x := n * NBASE + d;
    if p == 10 {
      assert 10 * (x / 10 - d / 10 - 1000 * n) == d % 10 - x % 10;
    } else if p == 100 {
      assert 100 * (x / 100 - d / 100 - 100 * n) == d % 100 - x % 100;
    } else if p == 1000 {
      assert 1000 * (x / 1000 - d / 1000 - 10 * n) == d % 1000 - x % 1000;
    }
  }

  lemma NLastMod(s: seq<int>, k: nat, p: int)
    requires 1 <= k <= |s| && (p == 1 || p == 10 || p == 100 || p == 1000)
    ensures N(s[..k]) == N(s[..k - 1]) * NBASE + s[k - 1]
    ensures N(s[..k]) % p == s[k - 1] % p
  {
    hide N;
    assert s[..k] == s[..k - 1] + [s[k - 1]];
    NAppend(s[..k - 1], s[k - 1]);
    ModDrops(N(s[..k - 1]), s[k - 1], p);
  }

  lemma NextMultipleFits(x: int, b: int, p: int)
    requires p >= 1 && 0 <= x < b && b % p == 0
    ensures x - x % p + p <= b
  {
    BetweenMultiples(x / p, x % p, b / p, p);
  }

  lemma BetweenMultiples(q: int, e: int, c: int, p: int)
    requires 0 <= e < p && q * p + e < c * p
    ensures q * p + p <= c * p
  {
    if c <= q {
      NonNegativeProduct(q - c, p);
      DistributeInt(q, c, p);
    } else {
      NextMultiple(q, c, p);
    }
  }

  lemma RoundedBound(s: seq<int>, k: nat, r: int)
    requires IsDigits(s) && k <= |s| && 0 <= r <= 3 && (r > 0 ==> k > 0)
    ensures 0 <= Rounded(s, k, r) <= BP(k)
  {
    hide N, BP;
    NBound(s[..k]);
    if r > 0 {
      var x, p, b := N(s[..k]), RoundPower(r), BP(k);
      PowerMultiple(k, p);
      NextMultipleFits(x, b, p);
    }
  }

  /** A carry that fits below the first digit meets a digit to stop at. */
  lemma CarryStops(s: seq<int>, t: seq<int>, total: int)
    requires IsDigits(t) && Pending(s, t, 1, total) && total < BP(|s| + |t|)
    ensures s != []
  {
    hide BP;
    NBound(t);
  }

  /** The digits s and t denote total once c is added to the last digit of s. */
  ghost predicate Pending(s: seq<int>, t: seq<int>, c: int, total: int) {
    total == N(s) * BP(|t|) + N(t) + c * BP(|t|)
  }

  lemma PendingFirst(s: seq<int>, t: seq<int>, c: int)
    requires t == []
    ensures Pending(s, t, c, N(s) + c)
  {
    BPZero();
  }

  lemma PendingStep(front: seq<int>, d: int, t: seq<int>, c: int, x: int, c': int, total: int)
    requires Pending(front + [d], t, c, total) && d + c == x + NBASE * c'
    ensures Pending(front, [x] + t, c', total)
  {
    hide N, BP;
    NAppend(front, d);
    NCons(x, t);
    BPStep(|t|);
    CarryColumn(N(front), BP(|t|), d, c, x, c', N(t));
  }

  lemma PendingDone(s: seq<int>, t: seq<int>, total: int)
    requires Pending(s, t, 0, total)
    ensures N(s + t) == total
  {
    NConcat(s, t);
  }

  /** b' is b with `carry` added to the number in b[lo..k], changing only positions j..k. */
  ghost predicate CarryAdded(b: seq<int>, b': seq<int>, lo: nat, k: nat, carry: int, j: nat) {
    && lo <= j <= k <= |b| == |b'|
    && b'[..j] == b[..j] && b'[k..] == b[k..]
    && (if carry == 0 then j == k else j < k && b'[j] > 0)
    && IsDigits(b'[lo..k]) && N(b'[lo..k]) == N(b[lo..k]) + carry
  }

  /** Adds `carry` to the number in a[lo..k], from its last digit upwards. */
  method PropagateCarry(a: array<int>, ghost lo: nat, k: nat, carryIn: int) returns (j: nat)
    requires lo <= k <= a.Length && IsDigits(a[lo..k]) && 0 <= carryIn <= 1
    requires N(a[lo..k]) + carryIn < BP(k - lo)
    modifies a
    ensures CarryAdded(old(a[..]), a[..], lo, k, carryIn, j)
  {
    hide N, BP, Pending, IsDigits, CarryAdded;
    ghost var total := N(a[lo..k]) + carryIn;
    NoDigits(a[k..k]);
    var carry := carryIn;
    j := k;
    PendingFirst(a[lo..k], a[k..k], carryIn);
    while carry != 0
      invariant lo <= j <= k && 0 <= carry <= 1
      invariant a[..j] == old(a[..j]) && a[k..] == old(a[k..])
      invariant IsDigits(a[lo..j]) && IsDigits(a[j..k]) && Pending(a[lo..j], a[j..k], carry, total)
      invariant if carryIn == 0 then j == k && carry == 0 else carry == 0 ==> j < k && a[j] > 0
      decreases j, carry
    {
      CarryStops(a[lo..j], a[j..k], total);
      ghost var t, c := a[j..k], carry;
      ghost var front := a[lo..j - 1];
      assert a[lo..j] == front + [a[j - 1]];
      LastIsDigit(front, a[j - 1]);
      j := j - 1;
      ghost var d := a[j];
      carry := carry + a[j];
      if carry >= NBASE {
        a[j] := carry - NBASE;
        carry := 1;
      } else {
        a[j] := carry;
        carry := 0;
      }
      assert a[j..k] == [a[j]] + t && a[lo..j] == front;
      DigitsCons(a[j], t);
      PendingStep(front, d, t, c, a[j], carry, total);
    }
    assert a[lo..k] == a[lo..j] + a[j..k];
    PendingDone(a[lo..j], a[j..k], total);
    CarryIsAdded(old(a[..]), a[..], lo, k, carryIn, j);
  }

  lemma LastIsDigit(front: seq<int>, d: int)
    requires IsDigits(front + [d])
    ensures IsDigits(front) && IsDigit(d)
  {
    assert (front + [d])[|front|] == d;
    assert (front + [d])[..|front|] == front;
    IsDigitsSlice(front + [d], 0, |front|);
  }

  lemma CarryIsAdded(b: seq<int>, b': seq<int>, lo: nat, k: nat, carry: int, j: nat)
    requires lo <= j <= k <= |b| == |b'| && b'[..j] == b[..j] && b'[k..] == b[k..]
    requires if carry == 0 then j == k else j < k && b'[j] > 0
    requires IsDigits(b'[lo..j]) && IsDigits(b'[j..k]) && N(b'[lo..j] + b'[j..k]) == N(b[lo..k]) + carry
    ensures CarryAdded(b, b', lo, k, carry, j)
  {
    assert b'[lo..k] == b'[lo..j] + b'[j..k];
  }

  lemma CarryColumn(f: int, p: int, d: int, c: int, x: int, c': int, t: int)
    requires d + c == x + NBASE * c'
    ensures (f * NBASE + d) * p + t + c * p == f * (NBASE * p) + (x * p + t) + c' * (NBASE * p)
  {
    assert (d + c) * p == (x + NBASE * c') * p;
  }

  lemma NLeadingZero(s: seq<int>)
    requires s != [] && s[0] == 0
    ensures N(s) == N(s[1..])
  {
    hide N, BP;
    NHead(s);
  }

  /** What rounding leaves in the buffer b: `m` digits from `st`. */
  ghost predicate RoundedAt(b: seq<int>, st: nat, m: nat, value: int) {
    DigitsAt(b, st, m) && RoomAt(b, st, m) && N(b[st..st + m]) == value
  }

  /** Digits that cannot carry are rounded without a carry and stay so. */
  lemma CannotCarryRounds(s: seq<int>, k: nat, r: int)
    requires IsDigits(s) && CannotCarry(s) && k <= |s| && 0 <= r <= 3 && (r > 0 ==> k > 0)
    ensures r == 0 && k < |s| ==> s[k] < HALF_NBASE
    ensures r > 0 ==> s[k - 1] % RoundPower(r) < RoundPower(r) / 2
    ensures r > 0 ==> CannotCarry(s[..k][k - 1 := s[k - 1] - s[k - 1] % RoundPower(r)])
    ensures CannotCarry(s[..k])
  {
    assert forall i :: 0 < i < |s| ==> s[i] == s[1..][i - 1] == 0;
  }

  /** Rounds the single digit a[k] to a multiple of p; the carry goes to the digit before it. */
  method RoundDigit(a: array<int>, k: nat, p: int) returns (carry: int)
    requires k < a.Length && IsDigit(a[k]) && (p == 10 || p == 100 || p == 1000)
    modifies a
    ensures a[..k] == old(a[..k]) && a[k + 1..] == old(a[k + 1..])
    ensures IsDigit(a[k]) && 0 <= carry <= 1
    ensures a[k] + NBASE * carry == old(a[k] - a[k] % p) + if old(a[k]) % p >= p / 2 then p else 0
    ensures old(a[k]) % p < p / 2 ==> carry == 0
  {
    var extra := a[k] % p;
    a[k] := a[k] - extra;
    carry := 0;
    if extra >= p / 2 {
      var pow10 := p + a[k];
      if pow10 >= NBASE {
        pow10 := pow10 - NBASE;
        carry := 1;
      }
      a[k] := pow10;
    }
  }

  /** How the last kept digit d and the carry into the digits before it arise from s. */
  ghost predicate TailRounded(s: seq<int>, nd: nat, r: int, d: int, carry: int)
    requires nd <= |s| && 0 <= r <= 3 && (nd < |s| || r > 0) && (r > 0 ==> nd > 0)
  {
    && 0 <= carry <= 1
    && (r == 0 ==> carry == if s[nd] >= HALF_NBASE then 1 else 0)
    && (r > 0 ==>
          var p := RoundPower(r);
          && IsDigit(d)
          && d + NBASE * carry == s[nd - 1] - s[nd - 1] % p + if s[nd - 1] % p >= p / 2 then p else 0)
  }

  /** A carry into the spare slot leaves a power of NBASE. */
  lemma SpilledIsPower(t: seq<int>)
    requires IsDigits(t) && t != [] && t[0] > 0 && N(t) <= BP(|t| - 1)
    ensures CannotCarry(t)
  {
    hide N, BP;
    NHead(t);
    NBound(t[1..]);
    var p := BP(|t| - 1);
    AtLeastOnce(t[0], p);
    SmallMultiple(t[0] - 1, p + 1, N(t[1..]));
    NZeroOnly(t[1..]);
  }

  /** The kept digits once the carry has settled: t is the digits before the last plus the carry. */
  lemma RoundSettled(s: seq<int>, nd: nat, r: int, t: seq<int>, d: int, carry: int)
    requires IsDigits(s) && nd <= |s| && 0 <= r <= 3 && (nd < |s| || r > 0) && (r > 0 ==> nd > 0)
    requires TailRounded(s, nd, r, d, carry)
    requires N(t) == N(s[..if r == 0 then nd else nd - 1]) + carry
    ensures N(if r == 0 then t else t + [d]) == Rounded(s, nd, r)
  {
    hide N;
    if r > 0 {
      NLastMod(s, nd, RoundPower(r));
      NAppend(t, d);
    }
  }

  /** Rounds the last kept digit and finds the carry into the digits before position k. */
  method RoundTail(a: array<int>, start: nat, n: nat, nd: nat, r: int) returns (carry: int, k: nat)
    requires DigitsAt(a[..], start, n) && RoomAt(a[..], start, n)
    requires nd <= n && 0 <= r <= 3 && (nd < n || r > 0) && (r > 0 ==> nd > 0)
    modifies a
    ensures k == if r == 0 then start + nd else start + nd - 1
    ensures TailDone(old(a[..][start..start + n]), a[..], start, nd, r, k, carry)
    ensures (start >= 1 && a[start - 1] == 0) || (carry == 0 && CannotCarry(a[start..start + nd]))
  {
    hide CannotCarry, IsDigits, TailDone, RoundPower;
    ghost var b := a[..];
    ghost var s := b[start..start + n];
    carry, k := 0, start + nd;
    if r == 0 {
      carry := if a[k] >= HALF_NBASE then 1 else 0;
    } else {
      k := k - 1;
      LastKept(b, start, n, k);
      PowerOfTen(r);
      carry := RoundDigit(a, k, RoundPower(r));
      assert a[..] == a[..k] + [a[k]] + a[k + 1..];
      assert b[k := a[k]] == b[..k] + [a[k]] + b[k + 1..];
    }
    TailIsDone(b, a[..], start, n, nd, r, k, carry);
    assert a[start..start + nd] == a[..][start..start + nd];
  }

  lemma PowerOfTen(r: int)
    requires 1 <= r <= 3
    ensures RoundPower(r) == 10 || RoundPower(r) == 100 || RoundPower(r) == 1000
  {
  }

  lemma LastKept(b: seq<int>, start: nat, n: nat, k: nat)
    requires DigitsAt(b, start, n) && start <= k < start + n
    ensures IsDigit(b[k])
  {
    assert b[k] == b[start..start + n][k - start];
  }

  /** The buffer after the last kept digit was rounded. */
  lemma TailIsDone(b: seq<int>, b': seq<int>, start: nat, n: nat, nd: nat, r: int, k: nat, carry: int)
    requires DigitsAt(b, start, n) && RoomAt(b, start, n)
    requires nd <= n && 0 <= r <= 3 && (nd < n || r > 0) && (r > 0 ==> nd > 0)
    requires k == (if r == 0 then start + nd else start + nd - 1)
    requires |b'| == |b| && b' == (if r == 0 then b else b[k := b'[k]]) && 0 <= carry <= 1
    requires r == 0 ==> carry == if b[k] >= HALF_NBASE then 1 else 0
    requires r > 0 ==>
               var p := RoundPower(r);
               && IsDigit(b'[k]) && b'[k] + NBASE * carry == b[k] - b[k] % p + (if b[k] % p >= p / 2 then p else 0)
               && (b[k] % p < p / 2 ==> carry == 0)
    ensures TailDone(b[start..start + n], b', start, nd, r, k, carry)
    ensures (start >= 1 && b'[start - 1] == 0) || (carry == 0 && CannotCarry(b'[start..start + nd]))
  {
    hide CannotCarry, RoundPower;
    var s := b[start..start + n];
    assert r > 0 ==> s[nd - 1] == b[k];
    assert r == 0 ==> s[nd] == b[k];
    assert b'[start..k] == s[..k - start];
    if !(start >= 1 && b[start - 1] == 0) {
      CannotCarryRounds(s, nd, r);
      assert r == 0 ==> b'[start..start + nd] == s[..nd];
      assert r > 0 ==> b'[start..start + nd] == s[..nd][nd - 1 := b'[k]];
    }
  }

  /** Rounds the n digits at `start` to nd digits, dropping r decimal digits of the last one.
      A carry out of the first digit moves into the slot in front. */
  method RoundBuffer(a: array<int>, start: nat, n: nat, nd: nat, r: int) returns (spilled: bool)
    requires DigitsAt(a[..], start, n) && RoomAt(a[..], start, n)
    requires nd <= n && 0 <= r <= 3 && (nd < n || r > 0) && (r > 0 ==> nd > 0)
    modifies a
    ensures spilled ==> start >= 1
    ensures RoundedAt(a[..], if spilled then start - 1 else start, if spilled then nd + 1 else nd,
                      old(Rounded(a[..][start..start + n], nd, r)))
  {
    hide N, BP, Rounded, CannotCarry, RoundedAt, CarryAdded, TailDone, IsDigits;
    ghost var s := a[..][start..start + n];
    var carry, k := RoundTail(a, start, n, nd, r);
    ghost var b := a[..];
    ghost var lo := if start >= 1 && a[start - 1] == 0 then start - 1 else start;
    ReadyToCarry(s, b, start, nd, r, k, lo, carry);
    assert a[lo..k] == b[lo..k];
    var j := PropagateCarry(a, lo, k, carry);
    spilled := j < start;
    CarryReach(b, a[..], lo, k, carry, j);
    assert a[start..start + nd] == a[..][start..start + nd] && b[start..start + nd] == b[..][start..start + nd];
    RoundComplete(s, b, a[..], start, nd, r, k, lo, carry, j);
  }

  lemma CarryReach(b: seq<int>, b': seq<int>, lo: nat, k: nat, carry: int, j: nat)
    requires CarryAdded(b, b', lo, k, carry, j)
    ensures lo <= j
  {
  }

  /** The digits the carry goes into have room for it. */
  lemma ReadyToCarry(s: seq<int>, b: seq<int>, start: nat, nd: nat, r: int, k: nat, lo: nat, carry: int)
    requires TailDone(s, b, start, nd, r, k, carry)
    requires lo == (if start >= 1 && b[start - 1] == 0 then start - 1 else start)
    requires lo == start ==> carry == 0
    ensures lo <= k <= |b| && 0 <= carry <= 1 && IsDigits(b[lo..k]) && N(b[lo..k]) + carry < BP(k - lo)
  {
    hide N, BP;
    assert lo < start ==> b[lo..k] == [0] + b[start..k];
    IsDigitsSlice(s, 0, k - start);
    assert s[0..k - start] == s[..k - start];
    CarryFits(b[lo..k], s[..k - start], lo < start, carry);
  }

  /** The state after the tail digit has been rounded in buffer b and before the carry is added. */
  ghost predicate TailDone(s: seq<int>, b: seq<int>, start: nat, nd: nat, r: int, k: nat, carry: int) {
    && IsDigits(s) && nd <= |s| && 0 <= r <= 3 && (nd < |s| || r > 0) && (r > 0 ==> nd > 0)
    && k == (if r == 0 then start + nd else start + nd - 1) && start + nd <= |b|
    && b[start..k] == s[..k - start]
    && TailRounded(s, nd, r, if r == 0 then 0 else b[k], carry)
  }

  lemma RoundComplete(s: seq<int>, b: seq<int>, b': seq<int>, start: nat, nd: nat, r: int, k: nat, lo: nat, carry: int,
                      j: nat)
    requires TailDone(s, b, start, nd, r, k, carry)
    requires lo == if start >= 1 && b[start - 1] == 0 then start - 1 else start
    requires lo == start ==> carry == 0 && CannotCarry(b[start..start + nd])
    requires CarryAdded(b, b', lo, k, carry, j)
    ensures RoundedAt(b', if j < start then start - 1 else start, if j < start then nd + 1 else nd, Rounded(s, nd, r))
  {
    if lo == start {
      RoundedInPlace(s, b, b', start, nd, r, k, j);
    } else {
      assert b[lo..k] == [0] + b[start..k];
      NLeadingZero(b[lo..k]);
      assert b[lo..k][1..] == b[start..k];
      if j < start {
        RoundedSpilled(s, b, b', start, nd, r, k, carry);
      } else {
        RoundedBehindSpare(s, b, b', start, nd, r, k, carry);
      }
    }
  }

  lemma RoundedInPlace(s: seq<int>, b: seq<int>, b': seq<int>, start: nat, nd: nat, r: int, k: nat, j: nat)
    requires TailDone(s, b, start, nd, r, k, 0) && CannotCarry(b[start..start + nd])
    requires CarryAdded(b, b', start, k, 0, j)
    ensures RoundedAt(b', start, nd, Rounded(s, nd, r))
  {
    hide N, Rounded, CannotCarry;
    assert b' == b'[..k] + b'[k..] && b == b[..k] + b[k..];
    assert b'[k..] == b[k..];
    JoinTail(s, nd, r, 0, b, start, nd, k);
  }

  lemma RoundedBehindSpare(s: seq<int>, b: seq<int>, b': seq<int>, start: nat, nd: nat, r: int, k: nat, carry: int)
    requires TailDone(s, b, start, nd, r, k, carry) && 1 <= start && |b'| == |b| && b'[start - 1] == 0
    requires b'[k..] == b[k..] && IsDigits(b'[start - 1..k]) && N(b'[start - 1..k]) == N(b[start..k]) + carry
    ensures RoundedAt(b', start, nd, Rounded(s, nd, r))
  {
    hide N, Rounded;
    assert b'[start - 1..k][1..] == b'[start..k];
    NLeadingZero(b'[start - 1..k]);
    IsDigitsSlice(b'[start - 1..k], 1, k - start + 1);
    assert r > 0 ==> b'[k..][0] == b[k..][0];
    JoinTail(s, nd, r, carry, b', start, nd, k);
  }

  lemma RoundedSpilled(s: seq<int>, b: seq<int>, b': seq<int>, start: nat, nd: nat, r: int, k: nat, carry: int)
    requires TailDone(s, b, start, nd, r, k, carry) && 1 <= start && |b'| == |b| && b'[start - 1] > 0
    requires b'[k..] == b[k..] && IsDigits(b'[start - 1..k]) && N(b'[start - 1..k]) == N(b[start..k]) + carry
    ensures RoundedAt(b', start - 1, nd + 1, Rounded(s, nd, r))
  {
    hide N, BP, Rounded;
    assert r > 0 ==> b'[k..][0] == b[k..][0];
    JoinTail(s, nd, r, carry, b', start - 1, nd + 1, k);
    RoundedBound(s, nd, r);
    SpilledIsPower(b'[start - 1..start + nd]);
  }

  /** Appending the rounded tail digit to the settled digits gives the rounded number. */
  lemma JoinTail(s: seq<int>, nd: nat, r: int, carry: int, b: seq<int>, st: nat, m: nat, k: nat)
    requires IsDigits(s) && nd <= |s| && 0 <= r <= 3 && (nd < |s| || r > 0) && (r > 0 ==> nd > 0)
    requires k == (if r == 0 then st + m else st + m - 1) && st <= k && st + m <= |b|
    requires TailRounded(s, nd, r, if r == 0 then 0 else b[k], carry)
    requires IsDigits(b[st..k]) && N(b[st..k]) == N(s[..if r == 0 then nd else nd - 1]) + carry
    ensures DigitsAt(b, st, m) && N(b[st..st + m]) == Rounded(s, nd, r)
  {
    hide N, Rounded;
    RoundSettled(s, nd, r, b[st..k], if r == 0 then 0 else b[k], carry);
    if r > 0 {
      assert b[st..st + m] == b[st..k] + [b[k]];
    }
  }

  lemma CarryFits(s: seq<int>, front: seq<int>, spare: bool, carry: int)
    requires IsDigits(front) && 0 <= carry <= 1 && (!spare ==> carry == 0)
    requires s == if spare then [0] + front else front
    ensures IsDigits(s) && N(s) == N(front) && N(s) + carry < BP(|s|)
  {
    hide N, BP;
    NBound(front);
    if spare {
      NLeadingZero(s);
      BPStep(|front|);
    }
  }

  lemma {:induction false} ShiftInt(n: int, e: nat) returns (m: int)
    ensures Shift(n as real, e) == m as real
  {
    hide Shift;
    if e == 0 {
      ShiftNone(n as real);
      m := n;
    } else {
      m := ShiftInt(n, e - 1);
      ShiftShift(n as real, e - 1, 1);
      ShiftByFour(m as real);
      m := 10 * m;
    }
  }

  /** A scale at or below the last digit changes nothing. */
  lemma RoundsToItself(s: seq<int>, w: int, scale: int)
    requires 4 * (w + 1) + scale >= 4 * |s|
    ensures IsInt(Shift(Magnitude(s, w), scale))
    ensures RoundHalfUp(Magnitude(s, w), scale) == RoundDown(Magnitude(s, w), scale) == Magnitude(s, w)
  {
    hide N, Shift;
    var e := 4 * (w - |s| + 1);
    ShiftShift(N(s) as real, e, scale);
    var m := ShiftInt(N(s), e + scale);
    RoundExact(Magnitude(s, w), scale);
  }

  /** A scale above the first digit leaves nothing. */
  lemma RoundsToNothing(s: seq<int>, w: int, scale: int)
    requires IsDigits(s) && 4 * (w + 1) + scale <= 0
    ensures RoundDown(Magnitude(s, w), scale) == 0.0
    ensures 4 * (w + 1) + scale < 0 ==> RoundHalfUp(Magnitude(s, w), scale) == 0.0
  {
    hide N, Shift, Magnitude;
    var di, m := 4 * (w + 1) + scale, Magnitude(s, w);
    MagnitudeBound(s, w);
    ShiftOrder(m, Shift(1.0, 4 * (w + 1)), scale);
    ShiftOrder(0.0, m, scale);
    ShiftShift(1.0, 4 * (w + 1), scale);
    ShiftOneMonotone(di, 0);
    ShiftNone(1.0);
    FloorIs(Shift(m, scale), 0);
    ShiftOrder(0.0, 0.0, -scale);
    if di < 0 {
      ShiftOneMonotone(di, -1);
      ShiftShift(1.0, -1, 1);
      ShiftByFour(Shift(1.0, -1));
      FloorIs(Shift(m, scale) + 0.5, 0);
    }
  }

  /** Rounding and truncation commute with the sign. */
  lemma RoundSigned(m: real, scale: int)
    requires m >= 0.0
    ensures RoundAway(m, scale) == RoundHalfUp(m, scale) && RoundAway(-m, scale) == -RoundHalfUp(m, scale)
    ensures Truncate(m, scale) == RoundDown(m, scale) && Truncate(-m, scale) == -RoundDown(m, scale)
  {
    hide Shift;
    if m == 0.0 {
      ShiftOrder(0.0, 0.0, scale);
      ShiftOrder(0.0, 0.0, -scale);
      FloorIs(0.0, 0);
      FloorIs(0.5, 0);
    }
  }

  /** Digit truncation computes truncation of the rational. */
  lemma TruncatedIsTruncation(s: seq<int>, w: int, k: nat, r: int, scale: int)
    requires IsDigits(s) && k <= |s| && 0 <= r <= 3 && 4 * (w + 1) + scale == 4 * k - r
    ensures RoundDown(Magnitude(s, w), scale)
         == Shift((N(s[..k]) - N(s[..k]) % RoundPower(r)) as real, 4 * (w - k + 1))
  {
    hide N, Shift, Magnitude;
    var f := SplitAtScale(s, w, k, r, scale);
    var y, x, p := Shift(Magnitude(s, w), scale), N(s[..k]), RoundPower(r);
    RoundedUnits(y, x, f, p);
    assert p * (x / p) == x - x % p;
    UnitsBack(x / p, w, k, r, scale);
  }

  /** Keeps nd digits of d, dropping r decimal digits of the last one. */
  method TruncKept(d: Decimal, nd: nat, r: int)
    requires d.Owned() && nd <= d.ndigits && 0 <= r <= 3 && (r > 0 ==> nd > 0)
    modifies d, d.buff
    ensures d.buff == old(d.buff) && d.isOwn && d.typemod == old(d.typemod) && d.dscale == old(d.dscale)
    ensures d.Owned() && d.sign == old(d.sign) && d.weight == old(d.weight) && d.ndigits == nd
    ensures N(d.Digs()) == old(N(d.Digs()[..nd]) - N(d.Digs()[..nd]) % RoundPower(r))
  {
    hide N, IsDigits, CannotCarry, DigitsAt, RoomAt, RoundPower;
    ghost var b := d.buff[..];
    var a, k := d.buff, d.start + nd - 1;
    RoomToCut(b, d.start, d.ndigits, nd);
    if r > 0 {
      PowerOfTen(r);
      var extra := a[k] % RoundPower(r);
      a[k] := a[k] - extra;
      assert a[..] == b[k := b[k] - extra];
    }
    CutBuffer(b, a[..], d.start, d.ndigits, nd, r);
    d.Reframe(d.start, nd, d.weight);
  }

  lemma RoomToCut(b: seq<int>, start: nat, n: int, nd: nat)
    requires DigitsAt(b, start, n) && nd <= n
    ensures start + nd <= |b|
  {
  }

  /** The buffer after the decimal digits below the kept ones were zeroed. */
  lemma CutBuffer(b: seq<int>, b': seq<int>, start: nat, n: int, nd: nat, r: int)
    requires DigitsAt(b, start, n) && RoomAt(b, start, n) && nd <= n && 0 <= r <= 3 && (r > 0 ==> nd > 0)
    requires |b'| == |b|
    requires b' == if r > 0 then b[start + nd - 1 := b[start + nd - 1] - b[start + nd - 1] % RoundPower(r)] else b
    ensures DigitsAt(b', start, nd) && RoomAt(b', start, nd)
    ensures var kept := N(b[start..start + n][..nd]); N(b'[start..start + nd]) == kept - kept % RoundPower(r)
  {
    hide N, CannotCarry;
    var s := b[start..start + n];
    IsDigitsSlice(s, 0, nd);
    SliceOfSlice(b, start, n, nd);
    if r > 0 {
      TruncTail(s, nd, r);
      NLastMod(s, nd, RoundPower(r));
      assert b[start + nd - 1] == s[nd - 1];
      UpdatedKept(b, start, s, nd, b'[start + nd - 1]);
    } else if CannotCarry(s) {
      CannotCarryPrefix(s, nd);
    }
  }

  lemma SliceOfSlice(b: seq<int>, start: nat, n: nat, k: nat)
    requires start + n <= |b| && k <= n
    ensures b[start..start + n][..k] == b[start..start + k] == b[start..start + n][0..k]
  {
  }

  lemma UpdatedKept(b: seq<int>, start: nat, s: seq<int>, nd: nat, x: int)
    requires start + |s| <= |b| && b[start..start + |s|] == s && 1 <= nd <= |s|
    ensures b[start + nd - 1 := x][start..start + nd] == s[..nd][nd - 1 := x]
  {
    assert forall i :: 0 <= i < nd ==> s[i] == b[start + i];
  }

  lemma CannotCarryPrefix(s: seq<int>, k: nat)
    requires CannotCarry(s) && k <= |s|
    ensures CannotCarry(s[..k])
  {
    assert k > 0 ==> s[..k][1..] == s[1..][..k - 1];
  }

  lemma TruncTail(s: seq<int>, nd: nat, r: int)
    requires IsDigits(s) && 1 <= nd <= |s| && 0 <= r <= 3
    ensures var extra := s[nd - 1] % RoundPower(r); var t := s[..nd][nd - 1 := s[nd - 1] - extra];
            IsDigits(t) && N(t) == N(s[..nd]) - extra && (CannotCarry(s) ==> CannotCarry(t))
  {
    hide N;
    var extra := s[nd - 1] % RoundPower(r);
    var t := s[..nd][nd - 1 := s[nd - 1] - extra];
    assert t == s[..nd - 1] + [s[nd - 1] - extra] && s[..nd] == s[..nd - 1] + [s[nd - 1]];
    NAppend(s[..nd - 1], s[nd - 1] - extra);
    NAppend(s[..nd - 1], s[nd - 1]);
    if CannotCarry(s) {
      CannotCarryPrefix(s, nd);
      assert forall i :: 0 < i < nd ==> s[i] == s[1..][i - 1] == 0;
    }
  }

  /** Truncates d in place towards zero at `rscale` decimal places. */
  method Trunc(d: Decimal, rscale: int)
    requires d.Finite()
    modifies d, d.buff
    ensures d.buff == old(d.buff) && d.isOwn == old(d.isOwn) && d.typemod == old(d.typemod)
    ensures !d.isOwn ==> unchanged(d) && unchanged(d.buff)
    ensures d.isOwn ==> d.Owned() && d.dscale == rscale && d.Val() == Truncate(old(d.Val()), rscale)
    ensures d.isOwn ==> d.Mag() == RoundDown(old(d.Mag()), rscale)
    ensures d.sign == old(d.sign) || (d.isOwn && d.sign == Pos && d.Mag() == 0.0)
  {
    hide N, Shift, RoundHalfUp, RoundDown, DigitsAt, RoomAt, Magnitude;
    if !d.isOwn {
      return;
    }
    ghost var s, w := d.Digs(), d.weight;
    DigitsOf(d);
    MagnitudeNonNegative(s, w);
    RoundSigned(Magnitude(s, w), rscale);
    d.SetScale(rscale);
    var di := (d.weight + 1) * DEC_DIGITS + rscale;
    if di <= 0 {
      RoundsToNothing(s, w, rscale);
      d.Clear();
    } else {
      var nd := (di + DEC_DIGITS - 1) / DEC_DIGITS;
      if nd <= d.ndigits {
        var r := (4 - di % DEC_DIGITS) % 4;
        TruncatedIsTruncation(s, w, nd, r, rscale);
        TruncKept(d, nd, r);
        DigitsOf(d);
        MagnitudeIs(d.Digs(), w);
      } else {
        RoundsToItself(s, w, rscale);
      }
    }
  }

  lemma MagnitudeIs(s: seq<int>, w: int)
    ensures Magnitude(s, w) == Shift(N(s) as real, 4 * (w - |s| + 1))
  {
  }

  /** Keeps nd digits of d, less r decimal digits of the last one, rounding half up. */
  method RoundKept(d: Decimal, nd: nat, r: int)
    requires d.Owned()
    requires nd <= d.ndigits && 0 <= r <= 3 && (nd < d.ndigits || r > 0) && (r > 0 ==> nd > 0)
    modifies d, d.buff
    ensures d.buff == old(d.buff) && d.isOwn && d.typemod == old(d.typemod) && d.dscale == old(d.dscale)
    ensures d.Owned() && d.sign == old(d.sign)
    ensures d.Mag() == Shift(old(Rounded(d.Digs(), nd, r)) as real, 4 * (old(d.weight) - nd + 1))
    ensures nd <= d.ndigits <= nd + 1
  {
    hide N, Shift, Rounded, CannotCarry, IsDigits, RoomAt;
    ghost var v := Rounded(d.Digs(), nd, r);
    var spilled := RoundBuffer(d.buff, d.start, d.ndigits, nd, r);
    var st, m, w := d.start, nd, d.weight;
    if spilled {
      st, m, w := st - 1, m + 1, w + 1;
    }
    assert RoundedAt(d.buff[..], st, m, v);
    d.Reframe(st, m, w);
  }

  /** How many base-10000 digits rounding keeps of n, whether they are zero or not. */
  function DigitsLeft(weight: int, n: nat, rscale: int): nat {
    var di := (weight + 1) * DEC_DIGITS + rscale;
    if di < 0 then 0 else if (di + DEC_DIGITS - 1) / DEC_DIGITS < n then (di + DEC_DIGITS - 1) / DEC_DIGITS else n
  }

  lemma LeftIs(weight: int, n: nat, rscale: int, di: int, nd: int)
    requires di == (weight + 1) * DEC_DIGITS + rscale && nd == (di + DEC_DIGITS - 1) / DEC_DIGITS
    ensures DigitsLeft(weight, n, rscale) == if di < 0 then 0 else if nd < n then nd else n
  {
  }

  /** Rounds d in place to `rscale` decimal places, ties away from zero. */
  method Round(d: Decimal, rscale: int) returns (rc: int)
    requires d.Finite()
    modifies d, d.buff
    ensures d.buff == old(d.buff) && d.isOwn == old(d.isOwn) && d.typemod == old(d.typemod)
    ensures !d.isOwn ==> rc == -6 && unchanged(d) && unchanged(d.buff)
    ensures d.isOwn ==> rc == 0 && d.Owned() && d.dscale == rscale
    ensures d.isOwn ==> d.Mag() == RoundHalfUp(old(d.Mag()), rscale)
    ensures d.isOwn ==> d.Val() == RoundAway(old(d.Val()), rscale)
    ensures d.sign == old(d.sign) || (d.isOwn && d.sign == Pos && d.Mag() == 0.0)
    ensures d.isOwn ==> var k := old(DigitsLeft(d.weight, d.ndigits, rscale)); k <= d.ndigits <= k + 1
  {
    hide N, Shift, RoundHalfUp, RoundDown, Rounded, DigitsAt, RoomAt, Magnitude, DigitsLeft;
    if !d.isOwn {
      return -6;
    }
    ghost var s, w := d.Digs(), d.weight;
    DigitsOf(d);
    MagnitudeNonNegative(s, w);
    RoundSigned(Magnitude(s, w), rscale);
    d.SetScale(rscale);
    var di := (d.weight + 1) * DEC_DIGITS + rscale;
    LeftIs(w, |s|, rscale, di, (di + DEC_DIGITS - 1) / DEC_DIGITS);
    if di < 0 {
      RoundsToNothing(s, w, rscale);
      d.Clear();
    } else {
      var nd := (di + DEC_DIGITS - 1) / DEC_DIGITS;
      di := di % DEC_DIGITS;
      if nd < d.ndigits || (nd == d.ndigits && di > 0) {
        var r := (4 - di) % 4;
        RoundedIsRounding(s, w, nd, r, rscale);
        RoundKept(d, nd, r);
      } else {
        RoundsToItself(s, w, rscale);
      }
    }
    rc := 0;
  }

  lemma DigitsOf(d: Decimal)
    requires d.Finite()
    ensures IsDigits(d.Digs()) && |d.Digs()| == d.ndigits
  {
  }

  /** Makes freshly computed digits the value of `result`, rounded to `rscale` and stripped. */
  method FinishRounded(result: Decimal, res: array<int>, weight: int, sign: Sign, rscale: int) returns (rc: int)
    requires res.Length >= 1 && res[0] == 0 && IsDigits(res[1..]) && sign != Special
    modifies result, res
    ensures rc == 0 && result.Owned() && result.Stripped() && result.dscale == rscale && result.buff == res
    ensures result.typemod == old(result.typemod)
    ensures result.Mag() == RoundHalfUp(old(Magnitude(res[1..], weight)), rscale)
    ensures result.sign == if result.Mag() == 0.0 then Pos else sign
  {
    hide N, Shift, Magnitude, RoundHalfUp, DigitsAt, RoomAt, IsDigits, IsStripped;
    result.Install(res, weight, 0, sign);
    rc := Round(result, rscale);
    result.Strip();
  }

  /** Makes freshly computed digits the value of `result`, truncated at `rscale` and stripped. */
  method FinishTruncated(result: Decimal, res: array<int>, weight: int, sign: Sign, rscale: int)
    requires res.Length >= 1 && res[0] == 0 && IsDigits(res[1..]) && sign != Special
    modifies result, res
    ensures result.Owned() && result.Stripped() && result.dscale == rscale && result.buff == res
    ensures result.typemod == old(result.typemod)
    ensures result.Mag() == RoundDown(old(Magnitude(res[1..], weight)), rscale)
    ensures result.sign == if result.Mag() == 0.0 then Pos else sign
  {
    hide N, Shift, Magnitude, RoundDown, DigitsAt, RoomAt, IsDigits, IsStripped;
    result.Install(res, weight, 0, sign);
    Trunc(result, rscale);
    result.Strip();
  }
}
