// Long division of digit strings: Knuth, The Art of Computer Programming volume 2, Algorithm 4.3.1D.
module LongDivision {
  import opened Powers
  import opened Digits
  import AddSub

  /** The integer made of three leading digits. */
  function Head(u0: int, u1: int, u2: int): int {
    (u0 * NBASE + u1) * NBASE + u2
  }

  /** The first three dividend digits leave room for q times the first two divisor digits. */
  ghost predicate Allowed(q: int, head: int, v1: int, v2: int) {
    q * (v1 * NBASE + v2) <= head
  }

  /** The code's test, multiplied out. */
  lemma AdjustTest(qhat: int, next2: int, u2: int, v1: int, v2: int)
    ensures v2 * qhat > (next2 - qhat * v1) * NBASE + u2 <==> !Allowed(qhat, next2 * NBASE + u2, v1, v2)
  {
    assert qhat * (v1 * NBASE + v2) == (qhat * v1) * NBASE + v2 * qhat;
  }

  lemma FirstGuess(q: int, u0: int, u1: int, u2: int, v1: int, v2: int)
    requires IsDigit(u1) && IsDigit(u2) && IsDigit(v2) && 0 <= u0 < v1 && q >= 0
    requires Allowed(q, Head(u0, u1, u2), v1, v2)
    ensures q <= (u0 * NBASE + u1) / v1
  {
    var next2 := u0 * NBASE + u1;
    NonNegativeProduct(q, v2);
    assert q * (v1 * NBASE + v2) == (q * v1) * NBASE + q * v2;
    assert q * v1 <= next2;
    DivideBound(q, v1, next2);
  }

  lemma DivideBound(q: int, v: int, n: int)
    requires v > 0 && q * v <= n
    ensures q <= n / v
  {
    var m := n / v;
    assert n < m * v + v;
    if m < q {
      NextMultiple(m, q, v);
    }
  }

  lemma SmallQuotient(n: int, v: int, b: int)
    requires v > 0 && 0 <= n < v * b
    ensures 0 <= n / v < b
  {
    var m := n / v;
    assert m * v <= n;
    if b <= m {
      NextMultiple(b - 1, m, v);
      DistributeInt(b, 1, v);
    }
  }

  /** The values that one test of the adjust loop computes. */
  ghost predicate TestFits(qhat: int, next2: int, u2: int, v1: int, v2: int) {
    && InInt(next2) && InInt(v2 * qhat) && InInt(qhat * v1) && InInt(next2 - qhat * v1)
    && InInt((next2 - qhat * v1) * NBASE) && InInt((next2 - qhat * v1) * NBASE + u2)
  }

  /** A rest below two units of the base keeps the test within an int, and a test that holds means a rest below one. */
  lemma SmallRest(qhat: int, next2: int, u2: int, v1: int, v2: int)
    requires 0 <= qhat < NBASE && IsDigit(u2) && IsDigit(v1) && IsDigit(v2) && 0 <= next2 - qhat * v1 < 2 * NBASE
    ensures TestFits(qhat, next2, u2, v1, v2)
    ensures v2 * qhat > (next2 - qhat * v1) * NBASE + u2 ==> next2 - (qhat - 1) * v1 < 2 * NBASE
  {
    DigitProduct(v2, qhat);
    DigitProduct(qhat, v1);
    DistributeInt(qhat, 1, v1);
  }

  /** The first guess leaves a small rest. */
  lemma GuessLeavesLittle(u0: int, u1: int, v1: int, qhat: int)
    requires IsDigit(u1) && IsDigit(v1) && v1 >= 1
    requires if u0 == v1 then qhat == NBASE - 1 else qhat == (u0 * NBASE + u1) / v1
    ensures 0 <= u0 * NBASE + u1 - qhat * v1 < 2 * NBASE
  {
    var n := u0 * NBASE + u1;
    if u0 != v1 {
      assert n == (n / v1) * v1 + n % v1;
    }
  }

  /** The largest trial digit that the first three dividend digits and two divisor digits allow. `fits` records whether
      every value of every test was within an int. */
  method EstimateDigit(u0: int, u1: int, u2: int, v1: int, v2: int) returns (qhat: int, ghost fits: bool)
    requires IsDigit(u0) && IsDigit(u1) && IsDigit(u2) && IsDigit(v1) && IsDigit(v2)
    requires 1 <= v1 && u0 <= v1
    ensures 0 <= qhat < NBASE
    ensures Allowed(qhat, Head(u0, u1, u2), v1, v2)
    ensures forall q :: 0 <= q < NBASE && Allowed(q, Head(u0, u1, u2), v1, v2) ==> q <= qhat
    ensures fits
  {
    hide Allowed, TestFits;
    var next2digits := u0 * NBASE + u1;
    ghost var head := Head(u0, u1, u2);
    if u0 == v1 {
      qhat := NBASE - 1;
    } else {
      qhat := next2digits / v1;
      assert next2digits < v1 * NBASE;
      SmallQuotient(next2digits, v1, NBASE);
      forall q | 0 <= q < NBASE && Allowed(q, head, v1, v2) ensures q <= qhat {
        FirstGuess(q, u0, u1, u2, v1, v2);
      }
    }
    AdjustTest(qhat, next2digits, u2, v1, v2);
    ZeroAllowed(head, v1, v2);
    GuessLeavesLittle(u0, u1, v1, qhat);
    SmallRest(qhat, next2digits, u2, v1, v2);
    fits := TestFits(qhat, next2digits, u2, v1, v2);
    while v2 * qhat > (next2digits - qhat * v1) * NBASE + u2
      invariant 0 <= qhat < NBASE
      invariant forall q :: 0 <= q < NBASE && Allowed(q, head, v1, v2) ==> q <= qhat
      invariant v2 * qhat > (next2digits - qhat * v1) * NBASE + u2 <==> !Allowed(qhat, head, v1, v2)
      invariant fits && 0 <= next2digits - qhat * v1 < 2 * NBASE
      decreases qhat
    {
      SmallRest(qhat, next2digits, u2, v1, v2);
      DistributeInt(qhat, 1, v1);
      qhat := qhat - 1;
      SmallRest(qhat, next2digits, u2, v1, v2);
      fits := fits && TestFits(qhat, next2digits, u2, v1, v2);
      AdjustTest(qhat, next2digits, u2, v1, v2);
    }
  }

  lemma ZeroAllowed(head: int, v1: int, v2: int)
    requires head >= 0
    ensures Allowed(0, head, v1, v2)
  {
  }

  /** Subtracts qhat * divisor from the dividend window u[j..j + n], n = |v|, column by column. */
  method MulSub(u: array<int>, j: nat, v: seq<int>, qhat: int) returns (borrow: int, ghost fits: bool)
    requires j + |v| <= u.Length && IsDigits(u[..]) && IsDigits(v) && 0 <= qhat < NBASE
    requires v != [] && v[0] == 0
    modifies u
    ensures u[..j] == old(u[..j]) && u[j + |v|..] == old(u[j + |v|..])
    ensures IsDigits(u[..]) && -1 <= borrow <= 0 && fits
    ensures N(u[j..j + |v|]) + borrow * BP(|v|) == old(N(u[j..j + |v|])) - qhat * N(v)
  {
    hide N, BP, AddSub.Carried, Less, Product;
    var n := |v|;
    ghost var w := u[j..j + n];
    var carry, i := 0, n;
    borrow, fits := 0, true;
    NothingLess(u[j + n..j + n], w[n..], v[n..], qhat);
    while i > 0
      invariant 0 <= i <= n && -1 <= borrow <= 0 && 0 <= carry < NBASE && fits
      invariant u[..j + i] == old(u[..j + i]) && u[j + n..] == old(u[j + n..])
      invariant IsDigits(u[j + i..j + n]) && (i == 0 ==> carry == 0)
      invariant AddSub.Carried(u[j + i..j + n], borrow - carry, Less(w[i..], v[i..], qhat))
    {
      i := i - 1;
      ghost var t, c := u[j + i + 1..j + n], borrow - carry;
      assert u[j + i] == u[..j + i + 1][j + i] == w[i];
      DigitTimes(v[i], qhat, carry);
      carry := carry + Product(v[i], qhat);
      borrow := borrow - carry % NBASE;
      fits := fits && InInt(carry) && InInt(borrow);
      carry := carry / NBASE;
      borrow := borrow + u[j + i];
      fits := fits && InInt(borrow) && InInt(borrow + NBASE);
      if borrow < 0 {
        u[j + i] := borrow + NBASE;
        borrow := -1;
      } else {
        u[j + i] := borrow;
        borrow := 0;
      }
      assert u[j + i..j + n] == [u[j + i]] + t;
      LessColumn(w, v, qhat, i, t, c, u[j + i], borrow - carry);
    }
    assert w[0..] == w && v[0..] == v;
    AddSub.CarriedIs(u[j..j + n], borrow, Less(w, v, qhat));
    LessIs(w, v, qhat);
    assert u[..] == u[..j] + u[j..j + n] + u[j + n..];
  }

  /** w minus q times v. */
  ghost function Less(w: seq<int>, v: seq<int>, q: int): int {
    N(w) - q * N(v)
  }

  lemma LessIs(w: seq<int>, v: seq<int>, q: int)
    ensures Less(w, v, q) == N(w) - q * N(v)
  {
  }

  lemma NothingLess(t: seq<int>, w: seq<int>, v: seq<int>, q: int)
    requires t == [] && w == [] && v == []
    ensures AddSub.Carried(t, 0, Less(w, v, q))
  {
    AddSub.NothingCarried(t);
    NEmpty();
    assert q * 0 == 0;
  }

  lemma LessColumn(w: seq<int>, v: seq<int>, q: int, i: nat, t: seq<int>, c: int, x: int, c': int)
    requires i < |w| == |v| && |t| == |w| - i - 1 && AddSub.Carried(t, c, Less(w[i + 1..], v[i + 1..], q))
    requires x + NBASE * c' == w[i] - Product(v[i], q) + c
    ensures AddSub.Carried([x] + t, c', Less(w[i..], v[i..], q))
  {
    hide N, BP;
    AddSub.ColumnStep(t, c, N(w[i + 1..]) - q * N(v[i + 1..]), x, c', w[i] - v[i] * q);
    NHead(w[i..]); NHead(v[i..]);
    assert w[i..][1..] == w[i + 1..] && v[i..][1..] == v[i + 1..];
    MulSubColumn(w[i], v[i], q, BP(|t|), N(w[i + 1..]), N(v[i + 1..]));
  }

  lemma DigitTimes(x: int, y: int, c: int)
    requires IsDigit(x) && IsDigit(y) && IsDigit(c)
    ensures 0 <= c + Product(x, y) < NBASE * NBASE && Product(0, y) == 0
  {
    DigitProduct(x, y);
  }

  lemma MulSubColumn(w: int, v: int, q: int, p: int, wt: int, vt: int)
    ensures (w - v * q) * p + (wt - q * vt) == (w * p + wt) - q * (v * p + vt)
  {
    DistributeInt(w, v * q, p);
    assert q * (v * p + vt) == q * (v * p) + q * vt;
    assert (v * q) * p == q * (v * p);
  }

  /** Adds the divisor back to the dividend window u[j..j + n], n = |v|. */
  method AddBack(u: array<int>, j: nat, v: seq<int>) returns (carry: int, ghost fits: bool)
    requires j + |v| <= u.Length && IsDigits(u[..]) && IsDigits(v)
    modifies u
    ensures u[..j] == old(u[..j]) && u[j + |v|..] == old(u[j + |v|..])
    ensures IsDigits(u[..]) && 0 <= carry <= 1 && fits
    ensures N(u[j..j + |v|]) + carry * BP(|v|) == old(N(u[j..j + |v|])) + N(v)
  {
    hide N, BP, AddSub.Carried;
    var n := |v|;
    ghost var w := u[j..j + n];
    var i := n;
    carry, fits := 0, true;
    AddSub.NothingCarried(u[j + n..j + n]); AddSub.NothingCarried(w[n..]); AddSub.NothingCarried(v[n..]);
    while i > 0
      invariant 0 <= i <= n && 0 <= carry <= 1 && fits
      invariant u[..j + i] == old(u[..j + i]) && u[j + n..] == old(u[j + n..])
      invariant IsDigits(u[j + i..j + n]) && AddSub.Carried(u[j + i..j + n], carry, N(w[i..]) + N(v[i..]))
    {
      i := i - 1;
      ghost var t, c := u[j + i + 1..j + n], carry;
      assert u[j + i] == u[..j + i + 1][j + i] == w[i];
      carry := carry + u[j + i] + v[i];
      fits := fits && InInt(carry);
      if carry >= NBASE {
        u[j + i] := carry - NBASE;
        carry := 1;
      } else {
        u[j + i] := carry;
        carry := 0;
      }
      assert u[j + i..j + n] == [u[j + i]] + t;
      AddSub.SumColumn(w, v, i, t, c, u[j + i], carry);
    }
    assert w[0..] == w && v[0..] == v;
    AddSub.CarriedIs(u[j..j + n], carry, N(w) + N(v));
    assert u[..] == u[..j] + u[j..j + n] + u[j + n..];
  }

  /** Three leading digits and the rest. */
  lemma NHeadThree(w: seq<int>)
    requires |w| >= 3
    ensures N(w) == Head(w[0], w[1], w[2]) * BP(|w| - 3) + N(w[3..])
  {
    hide N, BP;
    NSplit(w, 3);
    assert w[..3] == [w[0]] + [w[1]] + [w[2]];
    NOne(w[0]);
    NAppend([w[0]], w[1]);
    NAppend([w[0]] + [w[1]], w[2]);
  }

  /** A quotient digit is allowed by the leading digits alone. */
  lemma QuotientAllowed(q: int, head: int, p: int, tw: int, v2: int, tv: int)
    requires q >= 0 && p > 0 && tw < p && tv >= 0
    requires q * (v2 * p + tv) <= head * p + tw
    ensures q * v2 <= head
  {
    NonNegativeProduct(q, tv);
    assert q * (v2 * p + tv) == (q * v2) * p + q * tv;
    if head < q * v2 {
      NextMultiple(head, q * v2, p);
    }
  }

  /** The trial digit exceeds the window by less than one divisor. */
  lemma TrialOvershoot(qhat: int, head: int, p: int, tw: int, v2: int, tv: int)
    requires 0 <= qhat < NBASE && p > 0 && tw >= 0 && 0 <= tv < p && v2 >= NBASE
    requires qhat * v2 <= head
    ensures qhat * (v2 * p + tv) - (head * p + tw) < v2 * p + tv
  {
    assert qhat * (v2 * p + tv) == (qhat * v2) * p + qhat * tv;
    ProductBelow(qhat, tv, NBASE, p);
    NonNegativeProduct(head - qhat * v2, p);
    DistributeInt(head, qhat * v2, p);
    NonNegativeProduct(v2 - NBASE, p);
    DistributeInt(v2, NBASE, p);
  }

  /** Knuth's theorem: the trial digit is the quotient digit or one more. */
  lemma TrialDigit(w: seq<int>, v: seq<int>, qhat: int)
    requires IsDigits(w) && IsDigits(v) && |w| == |v| >= 3 && v[0] == 0 && v[1] >= 1
    requires N(w[..|w| - 1]) < N(v) && 0 <= qhat < NBASE
    requires Allowed(qhat, Head(w[0], w[1], w[2]), v[1], v[2])
    requires forall q :: 0 <= q < NBASE && Allowed(q, Head(w[0], w[1], w[2]), v[1], v[2]) ==> q <= qhat
    ensures -N(v) < N(w) - qhat * N(v) < N(v)
    ensures N(w) / N(v) <= qhat <= N(w) / N(v) + 1
  {
    hide N, BP, Head;
    var n := |w|;
    NHeadThree(w); NHeadThree(v);
    HeadOfDivisor(v[1], v[2]);
    NBound(w); NBound(w[3..]); NBound(v[3..]);
    assert w == w[..n - 1] + [w[n - 1]];
    NAppend(w[..n - 1], w[n - 1]);
    TrialOfParts(N(w), N(v), Head(w[0], w[1], w[2]), BP(n - 3), N(w[3..]), v[1], v[2], N(v[3..]), qhat);
  }

  /** The theorem on plain numbers: w = head p + tw, v = (v1 NBASE + v2) p + tv. */
  lemma TrialOfParts(w: int, v: int, head: int, p: int, tw: int, v1: int, v2: int, tv: int, qhat: int)
    requires p > 0 && 0 <= tw < p && 0 <= tv < p && IsDigit(v1) && IsDigit(v2) && v1 >= 1 && 0 <= qhat < NBASE
    requires w == head * p + tw && v == (v1 * NBASE + v2) * p + tv && 0 <= w < NBASE * v
    requires Allowed(qhat, head, v1, v2) && forall q :: 0 <= q < NBASE && Allowed(q, head, v1, v2) ==> q <= qhat
    ensures -v < w - qhat * v < v && w / v <= qhat <= w / v + 1
  {
    var d := v1 * NBASE + v2;
    NonNegativeProduct(d - 1, p);
    DistributeInt(d, 1, p);
    var q := w / v;
    SmallQuotient(w, v, NBASE);
    assert q * v <= w;
    QuotientAllowed(q, head, p, tw, d, tv);
    assert Allowed(q, head, v1, v2);
    TrialOvershoot(qhat, head, p, tw, d, tv);
    QuotientGap(w, v, q, qhat);
  }

  lemma HeadOfDivisor(v1: int, v2: int)
    ensures Head(0, v1, v2) == v1 * NBASE + v2
  {
  }

  lemma QuotientGap(w: int, v: int, q: int, qhat: int)
    requires v > 0 && q == w / v && q <= qhat && qhat * v - w < v
    ensures w - qhat * v < v && qhat <= q + 1
  {
    assert q * v <= w < q * v + v;
    NonNegativeProduct(qhat - q, v);
    DistributeInt(qhat, q, v);
    if q + 1 < qhat {
      NextMultiple(q + 1, qhat, v);
      DistributeInt(q, 1, v);
    }
  }

  /** The first digit of a window below the divisor does not exceed the divisor's. */
  lemma TopDigit(w: seq<int>, v: seq<int>)
    requires IsDigits(w) && IsDigits(v) && |w| == |v| >= 3 && v[0] == 0 && N(w[..|w| - 1]) < N(v)
    ensures w[0] <= v[1]
  {
    hide N, BP;
    var a, b := w[..|w| - 1], v[1..];
    NHead(v);
    NHead(a); NHead(b);
    NBound(a[1..]); NBound(b[1..]);
    if v[1] < w[0] {
      GapBeatsTail(v[1], w[0], BP(|w| - 2), N(b[1..]), N(a[1..]));
    }
  }

  /** Two leading zero digits leave less than the divisor. */
  lemma NothingToDivide(w: seq<int>, v: seq<int>)
    requires IsDigits(w) && IsDigits(v) && |w| == |v| >= 3 && v[0] == 0 && v[1] >= 1
    requires w[0] == 0 && w[1] == 0
    ensures N(w) < N(v)
  {
    if w[..1] == v[..1] {
      NFirstDifference(w, v, 1);
    }
  }

  /** One quotient digit: divides the window u[j..j + |v|] by v and leaves the remainder in it. */
  method DivideWindow(u: array<int>, j: nat, v: seq<int>) returns (qhat: int, ghost fits: bool)
    requires IsDigits(u[..]) && IsDigits(v) && |v| >= 3 && v[0] == 0 && v[1] >= 1
    requires j + |v| <= u.Length && N(u[j..j + |v| - 1]) < N(v)
    modifies u
    ensures u[..j] == old(u[..j]) && u[j + |v|..] == old(u[j + |v|..]) && IsDigits(u[..])
    ensures 0 <= qhat < NBASE && fits
    ensures old(N(u[j..j + |v|])) == qhat * N(v) + N(u[j..j + |v|])
    ensures N(u[j..j + |v|]) < N(v)
  {
    hide N, BP, Allowed, Head;
    ghost var w := u[j..j + |v|];
    assert w[..|w| - 1] == u[j..j + |v| - 1];
    assert w[0] == u[j] && w[1] == u[j + 1] && w[2] == u[j + 2];
    IsDigitsSlice(u[..], j, j + |v|);
    assert u[..][j..j + |v|] == w;
    if u[j] * NBASE + u[j + 1] == 0 {
      NothingToDivide(w, v);
      return 0, InInt(u[j] * NBASE + u[j + 1]);
    }
    TopDigit(w, v);
    qhat, fits := EstimateDigit(u[j], u[j + 1], u[j + 2], v[1], v[2]);
    TrialDigit(w, v, qhat);
    NBound(v); NBound(w);
    if qhat > 0 {
      var borrow;
      ghost var f;
      borrow, f := MulSub(u, j, v, qhat);
      fits := fits && f;
      WindowBound(u[..], j, u[j..j + |v|]);
      if borrow != 0 {
        qhat := qhat - 1;
        var carry;
        carry, f := AddBack(u, j, v);
        fits := fits && f;
        WindowBound(u[..], j, u[j..j + |v|]);
        BorrowCancelled(u[j..j + |v|], carry, N(w), qhat, v);
      }
    }
  }

  lemma WindowBound(b: seq<int>, j: nat, w: seq<int>)
    requires IsDigits(b) && j + |w| <= |b| && w == b[j..j + |w|]
    ensures IsDigits(w) && 0 <= N(w) < BP(|w|)
  {
    NBound(w);
  }

  /** The carry of the add-back cancels the borrow. */
  lemma BorrowCancelled(s: seq<int>, carry: int, w: int, q: int, v: seq<int>)
    requires IsDigits(s) && |s| == |v| && 0 <= carry <= 1 && N(v) < BP(|v|)
    requires -N(v) < w - (q + 1) * N(v) < 0
    requires N(s) + carry * BP(|v|) == w - (q + 1) * N(v) + BP(|v|) + N(v)
    ensures carry == 1 && w == q * N(v) + N(s) && N(s) < N(v)
  {
    hide N, BP;
    NBound(s);
    DistributeInt(q, 1, N(v));
  }

  /** A remainder below a divisor with a leading zero has a leading zero itself. */
  lemma RemainderTop(w: seq<int>, v: seq<int>)
    requires IsDigits(w) && IsDigits(v) && |w| == |v| >= 1 && v[0] == 0 && N(w) < N(v)
    ensures w[0] == 0 && N(w[1..]) == N(w)
  {
    hide N, BP;
    NHead(w); NHead(v);
    NBound(v[1..]); NBound(w[1..]);
    SmallMultiple(w[0], BP(|w| - 1), N(w[1..]));
  }

  /** quotient * divisor, moved up k columns. */
  function Taken(q: int, v: int, k: nat): int {
    q * v * BP(k)
  }

  lemma TakenStep(q: int, d: int, v: int, k: nat)
    ensures Taken(q * NBASE + d, v, k) == Taken(q, v, k + 1) + d * v * BP(k)
  {
    hide BP;
    BPStep(k);
    var p := BP(k);
    DistributeInt(q * NBASE, d, v);
    DistributeInt(q * NBASE * v, d * v, p);
    assert q * NBASE * v * p == q * v * (NBASE * p);
  }

  /** Dividing one window moves qhat * v, in its column, from the dividend to the quotient. */
  lemma WindowDivided(b: seq<int>, b': seq<int>, j: nat, m: nat, qhat: int, v: seq<int>)
    requires |b| == |b'| && j + |v| <= m <= |b| && |v| >= 1 && v[0] == 0
    requires IsDigits(b') && IsDigits(v)
    requires b'[j + |v|..] == b[j + |v|..]
    requires N(b[j..j + |v|]) == qhat * N(v) + N(b'[j..j + |v|]) && N(b'[j..j + |v|]) < N(v)
    ensures N(b[j..m]) == qhat * N(v) * BP(m - j - |v|) + N(b'[j + 1..m])
    ensures N(b'[j + 1..j + |v|]) < N(v)
  {
    hide N, BP;
    var n, k := |v|, m - j - |v|;
    var w, w' := b[j..j + n], b'[j..j + n];
    assert b[j..m][..n] == w && b'[j..m][..n] == w';
    assert b[j..m][n..] == b[j + n..][..k] && b'[j..m][n..] == b'[j + n..][..k];
    NSplit(b[j..m], n); NSplit(b'[j..m], n);
    DistributeInt(qhat * N(v), N(w'), BP(k));
    RemainderTop(w', v);
    assert w'[1..] == b'[j + 1..j + n];
    assert b'[j..m][0] == 0 && b'[j..m][1..] == b'[j + 1..m];
    NHead(b'[j..m]);
  }

  /** The main loop: quotient digits from the top, each by one window. */
  method LongDivide(u: array<int>, v: seq<int>, resNd: nat) returns (res: array<int>, ghost fits: bool)
    requires IsDigits(u[..]) && IsDigits(v) && |v| >= 3 && v[0] == 0 && v[1] >= 1
    requires resNd + |v| - 1 <= u.Length && N(u[..|v| - 1]) < N(v)
    modifies u
    ensures fresh(res) && res.Length == resNd + 1 && res[0] == 0 && IsDigits(res[1..])
    ensures 0 <= old(N(u[..resNd + |v| - 1])) - N(res[1..]) * N(v) < N(v) && fits
  {
    hide N, BP, Taken;
    ghost var m, total := resNd + |v| - 1, N(u[..resNd + |v| - 1]);
    res := new int[resNd + 1];
    res[0] := 0;
    var j := 0;
    fits := true;
    NEmpty();
    TakenNone(N(v), resNd);
    assert u[0..m] == u[..m] && u[0..|v| - 1] == u[..|v| - 1];
    assert res[1..1] == [];
    while j < resNd
      invariant 0 <= j <= resNd && res[0] == 0 && fits
      invariant IsDigits(u[..]) && IsDigits(res[1..j + 1])
      invariant N(u[j..j + |v| - 1]) < N(v)
      invariant total == Taken(N(res[1..j + 1]), N(v), resNd - j) + N(u[j..m])
    {
      ghost var b, q := u[..], N(res[1..j + 1]);
      var qhat;
      ghost var f;
      qhat, f := DivideWindow(u, j, v);
      fits := fits && f;
      ghost var b' := u[..];
      assert b[j..j + |v|] == b[..][j..j + |v|];
      WindowDivided(b, b', j, m, qhat, v);
      assert b'[j + 1..m] == u[j + 1..m] && b'[j + 1..j + |v|] == u[j + 1..j + |v|] && b[j..m] == b[..][j..m];
      res[j + 1] := qhat;
      assert res[1..j + 2] == res[1..j + 1] + [qhat];
      NAppend(res[1..j + 1], qhat);
      TakenStep(q, qhat, N(v), resNd - j - 1);
      j := j + 1;
    }
    assert res[1..] == res[1..resNd + 1];
    assert u[j..j + |v| - 1] == u[j..m];
    TakenLast(N(res[1..]), N(v));
    IsDigitsSlice(u[..], j, m);
    assert u[..][j..m] == u[j..m];
    NBound(u[j..m]);
  }

  lemma TakenNone(v: int, k: nat)
    ensures Taken(0, v, k) == 0
  {
  }

  lemma TakenLast(q: int, v: int)
    ensures Taken(q, v, 0) == q * v
  {
  }

  /** Multiplies the number in a[lo..hi] by d in place. */
  method ScaleUp(a: array<int>, lo: nat, hi: nat, d: int) returns (carry: int, ghost fits: bool)
    requires lo <= hi <= a.Length && IsDigits(a[..]) && 1 <= d < NBASE
    modifies a
    ensures a[..lo] == old(a[..lo]) && a[hi..] == old(a[hi..])
    ensures IsDigits(a[..]) && 0 <= carry < NBASE && fits
    ensures N(a[lo..hi]) + carry * BP(hi - lo) == d * old(N(a[lo..hi]))
  {
    hide N, BP, AddSub.Carried, Product, IsDigits, InInt;
    ghost var b, w := a[..], a[lo..hi];
    var i := hi;
    carry, fits := 0, true;
    NothingScaled(a[hi..hi], w[hi - lo..], d);
    NoDigits(a[hi..hi]);
    while i > lo
      invariant lo <= i <= hi && 0 <= carry < NBASE && fits
      invariant a[..i] == old(a[..i]) && a[hi..] == old(a[hi..])
      invariant IsDigits(a[i..hi]) && AddSub.Carried(a[i..hi], carry, Product(d, N(w[i - lo..])))
    {
      i := i - 1;
      ghost var t, c := a[i + 1..hi], carry;
      assert a[i] == a[..i + 1][i] == w[i - lo];
      assert a[i] == b[i];
      DigitAt(b, i);
      DigitTimes(a[i], d, carry);
      carry := carry + Product(a[i], d);
      SmallFits(carry);
      fits := fits && InInt(carry);
      a[i] := carry % NBASE;
      carry := carry / NBASE;
      assert a[i..hi] == [a[i]] + t;
      DigitsCons(a[i], t);
      ScaledColumn(w, d, i - lo, t, c, a[i], carry);
    }
    assert w[0..] == w;
    AddSub.CarriedIs(a[lo..hi], carry, Product(d, N(w)));
    ProductIs(d, N(w));
    assert a[..] == b[..lo] + a[lo..hi] + b[hi..];
    DigitsAround(b, lo, hi, a[lo..hi]);
  }

  lemma SmallFits(x: int)
    requires 0 <= x < NBASE * NBASE
    ensures InInt(x)
  {
  }

  lemma DigitsAround(b: seq<int>, lo: nat, hi: nat, mid: seq<int>)
    requires IsDigits(b) && IsDigits(mid) && lo <= hi <= |b|
    ensures IsDigits(b[..lo] + mid + b[hi..])
  {
  }

  lemma ProductIs(x: int, y: int)
    ensures Product(x, y) == x * y
  {
  }

  lemma NothingScaled(t: seq<int>, w: seq<int>, d: int)
    requires t == [] && w == []
    ensures AddSub.Carried(t, 0, Product(d, N(w)))
  {
    AddSub.NothingCarried(t);
    assert d * 0 == 0;
  }

  lemma ScaledColumn(w: seq<int>, d: int, i: nat, t: seq<int>, c: int, x: int, c': int)
    requires i < |w| && |t| == |w| - i - 1 && AddSub.Carried(t, c, Product(d, N(w[i + 1..])))
    requires x + NBASE * c' == Product(w[i], d) + c
    ensures AddSub.Carried([x] + t, c', Product(d, N(w[i..])))
  {
    hide N, BP;
    AddSub.ColumnStep(t, c, d * N(w[i + 1..]), x, c', w[i] * d);
    NHead(w[i..]);
    assert w[i..][1..] == w[i + 1..];
    ScaleColumn(d, w[i], BP(|t|), N(w[i + 1..]));
  }

  lemma ScaleColumn(d: int, x: int, p: int, t: int)
    ensures d * (x * p + t) == (x * d) * p + d * t
  {
    assert d * (x * p + t) == d * (x * p) + d * t;
    assert d * (x * p) == (x * d) * p;
  }

  /** q is the quotient of the digits l, followed by zeros up to `len`, by r; k digits are ignored. */
  ghost predicate IsQuotient(q: int, l: seq<int>, len: nat, r: seq<int>, k: nat) {
    0 <= N(Window(l, 0, len)) - Taken(q, N(r), k) < N(r) * BP(k)
  }

  /** The one-digit divisor: schoolbook short division. */
  method ShortDivide(u: seq<int>, d: int, resNd: nat) returns (res: array<int>, ghost fits: bool)
    requires IsDigits(u) && 1 <= d < NBASE && resNd <= |u|
    ensures fresh(res) && res.Length == resNd + 1 && res[0] == 0 && IsDigits(res[1..])
    ensures 0 <= N(u[..resNd]) - N(res[1..]) * d < d && fits
  {
    hide N;
    res := new int[resNd + 1];
    res[0] := 0;
    var i, carry := 0, 0;
    fits := true;
    NEmpty();
    assert u[..0] == [] && res[1..1] == [];
    while i < resNd
      invariant 0 <= i <= resNd && 0 <= carry < d && res[0] == 0 && fits
      invariant IsDigits(res[1..i + 1])
      invariant N(u[..i]) == N(res[1..i + 1]) * d + carry
    {
      ghost var q := N(res[1..i + 1]);
      carry := carry * NBASE + u[i];
      fits := fits && InInt(carry);
      SmallQuotient(carry, d, NBASE);
      res[i + 1] := carry / d;
      ghost var c := carry;
      carry := carry % d;
      assert u[..i + 1] == u[..i] + [u[i]] && res[1..i + 2] == res[1..i + 1] + [res[i + 1]];
      NAppend(u[..i], u[i]);
      NAppend(res[1..i + 1], res[i + 1]);
      ShortStep(q, d, c, res[i + 1], carry);
      i := i + 1;
    }
    assert res[1..] == res[1..resNd + 1];
  }

  lemma ShortStep(q: int, d: int, c: int, x: int, c': int)
    requires d > 0 && x == c / d && c' == c % d
    ensures (q * d) * NBASE + c == (q * NBASE + x) * d + c'
  {
    DistributeInt(q * NBASE, x, d);
    assert q * NBASE * d == (q * d) * NBASE;
  }

  /** From the quotient of the leading m digits to the quotient of the whole dividend. */
  lemma LiftQuotient(q: int, v: int, w: seq<int>, m: nat)
    requires IsDigits(w) && m <= |w| && 0 <= N(w[..m]) - q * v < v
    ensures 0 <= N(w) - Taken(q, v, |w| - m) < v * BP(|w| - m)
  {
    hide N, BP;
    var k := |w| - m;
    NSplit(w, m);
    NBound(w[m..]);
    var x, p := N(w[..m]) - q * v, BP(k);
    DistributeInt(N(w[..m]), q * v, p);
    NonNegativeProduct(x, p);
    NextMultiple(x, v, p);
  }

  /** Scaling dividend and divisor alike does not change the quotient. */
  lemma UnscaleQuotient(q: int, d: int, w: int, v: int, k: nat)
    requires d >= 1 && 0 <= d * w - Taken(q, d * v, k) < d * v * BP(k)
    ensures 0 <= w - Taken(q, v, k) < v * BP(k)
  {
    hide BP;
    var p := BP(k);
    var x, y := w - q * v * p, v * p;
    assert q * (d * v) * p == d * (q * v * p);
    assert d * w - d * (q * v * p) == d * x;
    assert d * v * p == d * y;
    ScaleOrder(d, x, 0);
    ScaleOrder(d, y, x);
  }

  /** The leading digits of a scaled dividend stay below the scaled divisor. */
  lemma ScaledStart(u: seq<int>, v: int, d: int, w: int, n: nat)
    requires IsDigits(u) && 1 <= n < |u| && d >= 1 && N(u) == d * w && 0 <= w < BP(|u| - 1) && BP(n - 1) <= v
    ensures N(u[..n]) < d * v
  {
    hide N, BP;
    NSplit(u, n);
    NBound(u[n..]);
    NBound(u[..n]);
    var k := |u| - n;
    BPAdd(n - 1, k);
    var x, p, b := N(u[..n]), BP(k), BP(n - 1);
    ScaleOrder(d, w, b * p);
    assert d * (b * p) == (d * b) * p;
    if d * b <= x {
      NonNegativeProduct(x - d * b, p);
      DistributeInt(x, d * b, p);
    }
    ScaleOrder(d, b, v);
  }

  /** Quotient digits of l by r: `resNd` of them, behind a spare slot. `fits` records whether every value on the way was
      within an int. */
  method DivDigits(l: seq<int>, r: seq<int>, resNd: nat) returns (res: array<int>, ghost fits: bool)
    requires IsDigits(l) && IsDigits(r) && r != [] && r[0] != 0 && resNd >= 1
    ensures fresh(res) && res.Length == resNd + 1 && res[0] == 0 && IsDigits(res[1..])
    ensures var len := AddSub.Max(resNd + |r|, |l|);
            IsQuotient(N(res[1..]), l, len, r, len + 1 - resNd - |r|)
    ensures fits
  {
    hide N, BP, Window, Taken;
    var n2 := |r|;
    var divNd := AddSub.Max(resNd + n2, |l|);
    var w := Window(l, 0, divNd);
    if n2 == 1 {
      NOne(r[0]);
      assert r == [r[0]];
      res, fits := ShortDivide(w, r[0], resNd);
      LiftQuotient(N(res[1..]), r[0], w, resNd);
    } else {
      var dividend, divisor, d;
      ghost var f;
      dividend, divisor, d, f := Normalise(l, r, divNd);
      ghost var u := dividend[..];
      NHead(r); NBound(r[1..]); NBound(w);
      AtLeastOnce(r[0], BP(n2 - 1));
      ScaledStart(u, N(r), d, N(w), n2);
      assert u[..n2] == dividend[..n2];
      res, fits := LongDivide(dividend, divisor[..], resNd);
      fits := fits && f;
      ghost var m := resNd + n2;
      assert u[..m] == u[..][..m];
      LiftQuotient(N(res[1..]), d * N(r), u, m);
      UnscaleQuotient(N(res[1..]), d, N(w), N(r), divNd + 1 - m);
    }
  }

  /** The scale factor brings the first digit to at least NBASE / 2 without overflowing it. */
  lemma ScaleFactor(v: int) returns (d: int)
    requires 1 <= v < HALF_NBASE
    ensures d == NBASE / (v + 1) && 2 <= d <= HALF_NBASE && d * (v + 1) <= NBASE && HALF_NBASE <= d * v
  {
    d := NBASE / (v + 1);
    DivideBound(2, v + 1, NBASE);
    assert d * (v + 1) <= NBASE < d * (v + 1) + (v + 1);
    assert d * (v + 1) == d * v + d;
    if d > 2 && v > 1 {
      NonNegativeProduct(d - 3, v - 2);
      assert (d - 3) * (v - 2) == d * v - 2 * d - 3 * v + 6;
    }
  }

  lemma ScaledRange(d: int, r0: int, t: int, p: int)
    requires 0 <= t < p && d >= 1 && d * (r0 + 1) <= NBASE && HALF_NBASE <= d * r0
    ensures HALF_NBASE * p <= d * (r0 * p + t) < NBASE * p
  {
    var a := d * r0;
    assert a + d <= NBASE by { assert d * (r0 + 1) == d * r0 + d; }
    assert d * (r0 * p + t) == a * p + d * t by { assert d * (r0 * p) == (d * r0) * p; }
    ScaleOrder(d, t, p);
    NonNegativeProduct(d, t);
    NonNegativeProduct(NBASE - a - d, p);
    DistributeInt(NBASE - a, d, p);
    DistributeInt(NBASE, a, p);
    NonNegativeProduct(a - HALF_NBASE, p);
    DistributeInt(a, HALF_NBASE, p);
  }

  lemma ScaledDivisor(r: seq<int>, d: int, s: seq<int>, carry: int)
    requires IsDigits(r) && IsDigits(s) && |r| == |s| >= 1 && carry >= 0 && d >= 1
    requires d * (r[0] + 1) <= NBASE && HALF_NBASE <= d * r[0]
    requires N(s) + carry * BP(|r|) == d * N(r)
    ensures carry == 0 && s[0] >= HALF_NBASE
  {
    hide N, BP;
    var p := BP(|r| - 1);
    NHead(r); NHead(s);
    NBound(r[1..]); NBound(s[1..]); NBound(s);
    BPStep(|r| - 1);
    ScaledRange(d, r[0], N(r[1..]), p);
    SmallMultiple(carry, BP(|r|), N(s));
    if s[0] < HALF_NBASE {
      NextMultiple(s[0], HALF_NBASE, p);
    }
  }

  /** A zeroed workspace of n + 1 digits with the given ones after the first. */
  method Load(s: seq<int>, n: nat) returns (a: array<int>)
    requires IsDigits(s) && |s| <= n
    ensures fresh(a) && a.Length == n + 1 && a[..] == [0] + Window(s, 0, n) && IsDigits(a[..])
  {
    a := new int[n + 1](i => 0);
    forall i | 0 <= i < |s| { a[i + 1] := s[i]; }
    assert a[..] == [0] + Window(s, 0, n);
  }

  method ScaleDivisor(divisor: array<int>, r: seq<int>, d: int) returns (ghost fits: bool)
    requires IsDigits(r) && r != [] && divisor[..] == [0] + r && IsDigits(divisor[..])
    requires 1 <= d < NBASE && d * (r[0] + 1) <= NBASE && HALF_NBASE <= d * r[0]
    modifies divisor
    ensures IsDigits(divisor[..]) && divisor[0] == 0 && divisor[1] >= HALF_NBASE && N(divisor[..]) == d * N(r) && fits
  {
    hide N, BP;
    assert divisor[1..|r| + 1] == r;
    var carry;
    carry, fits := ScaleUp(divisor, 1, |r| + 1, d);
    ghost var s := divisor[1..|r| + 1];
    assert divisor[..] == [0] + s;
    IsDigitsSlice(divisor[..], 1, |r| + 1);
    assert divisor[..][1..|r| + 1] == s;
    ScaledDivisor(r, d, s, carry);
    NCons(0, s);
  }

  method ScaleDividend(dividend: array<int>, l: seq<int>, d: int) returns (ghost fits: bool)
    requires IsDigits(l) && |l| + 1 <= dividend.Length && 1 <= d < NBASE
    requires dividend[..] == [0] + Window(l, 0, dividend.Length - 1) && IsDigits(dividend[..])
    modifies dividend
    ensures IsDigits(dividend[..]) && N(dividend[..]) == d * N(Window(l, 0, dividend.Length - 1)) && fits
  {
    hide N, BP;
    ghost var n := |l| + 1;
    ghost var w := Window(l, 0, dividend.Length - 1);
    NWindow(l, 0, dividend.Length - 1);
    assert dividend[0..n] == [0] + l;
    NCons(0, l);
    ghost var rest := dividend[n..];
    assert AllZero(rest) by {
      assert forall i :: 0 <= i < |rest| ==> rest[i] == w[n - 1 + i];
    }
    var carry;
    carry, fits := ScaleUp(dividend, 0, |l| + 1, d);
    ghost var s := dividend[0..n];
    assert dividend[..] == s + rest;
    IsDigitsSlice(dividend[..], 0, n);
    assert dividend[..][0..n] == s;
    NConcat(s, rest);
    NZeros(rest);
    ScaledDividend(l, d, s, carry, BP(|rest|));
  }

  lemma ScaledDividend(l: seq<int>, d: int, s: seq<int>, carry: int, p: int)
    requires IsDigits(l) && IsDigits(s) && |s| == |l| + 1 && carry >= 0 && 1 <= d < NBASE
    requires N(s) + carry * BP(|s|) == d * N(l)
    ensures carry == 0 && N(s) * p == d * (N(l) * p)
  {
    hide N, BP;
    NBound(l); NBound(s);
    BPStep(|l|);
    ProductBelow(d, N(l), NBASE, BP(|l|));
    SmallMultiple(carry, BP(|s|), N(s));
  }

  /** Loads both operands into the workspace, scaled so that the divisor's first digit is large. */
  method Normalise(l: seq<int>, r: seq<int>, divNd: nat)
    returns (dividend: array<int>, divisor: array<int>, d: int, ghost fits: bool)
    requires IsDigits(l) && IsDigits(r) && |r| >= 2 && r[0] != 0 && divNd >= |l|
    ensures fresh(dividend) && fresh(divisor) && dividend != divisor && d >= 1
    ensures dividend.Length == divNd + 1 && IsDigits(dividend[..]) && N(dividend[..]) == d * N(Window(l, 0, divNd))
    ensures divisor.Length == |r| + 1 && IsDigits(divisor[..]) && N(divisor[..]) == d * N(r)
    ensures divisor[0] == 0 && divisor[1] >= HALF_NBASE && fits
  {
    hide N, BP, IsDigits;
    dividend := Load(l, divNd);
    divisor := Load(r, |r|);
    assert Window(r, 0, |r|) == r;
    d, fits := 1, true;
    NCons(0, r);
    NCons(0, Window(l, 0, divNd));
    DigitAt(r, 0);
    if divisor[1] < HALF_NBASE {
      ghost var f := ScaleFactor(r[0]);
      d := NBASE / (divisor[1] + 1);
      ghost var f1 := ScaleDivisor(divisor, r, d);
      ghost var f2 := ScaleDividend(dividend, l, d);
      fits := f1 && f2;
    }
  }

  lemma DigitAt(s: seq<int>, i: nat)
    requires IsDigits(s) && i < |s|
    ensures IsDigit(s[i])
  {
  }
}
