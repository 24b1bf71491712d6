// Multiplication with postponed carries.
module Multiply {
  import opened Powers
  import opened Digits
  import opened Decimals
  import opened Rounding
  import opened Accumulator
  import AddSub

  const MUL_GUARD_DIGITS := 2

  lemma NUpdate(s: seq<int>, k: nat, v: int)
    requires k < |s|
    ensures N(s[k := s[k] + v]) == N(s) + v * BP(|s| - 1 - k)
  {
    hide N, BP;
    var t := s[k := s[k] + v];
    NSplit(s, k);
    NSplit(t, k);
    assert t[..k] == s[..k] && t[k..][1..] == s[k..][1..];
    NHead(s[k..]);
    NHead(t[k..]);
    DistributeInt(s[k], v, BP(|s| - 1 - k));
  }

  /** x * m, moved up k columns. */
  function Row(x: int, m: int, k: nat): int {
    x * m * BP(k)
  }

  lemma RowStep(x: int, d: int, j: nat, k: nat, t: int)
    ensures Row(x, d * BP(j) + t, k) == Row(x, t, k) + (x * d) * BP(j + k)
  {
    hide BP;
    BPAdd(j, k);
    var p, q := BP(j), BP(k);
    assert x * (d * p + t) == x * (d * p) + x * t;
    DistributeInt(x * (d * p), x * t, q);
    assert x * (d * p) * q == (x * d) * (p * q);
  }

  /** One row of the schoolbook product: adds x * r, ending at column ri, carries left alone. */
  method AddRow(dig: array<int>, ri: int, x: int, r: seq<int>)
    requires IsDigits(r) && IsDigit(x) && |r| - 1 <= ri < dig.Length
    modifies dig
    ensures N(dig[..]) == old(N(dig[..])) + Row(x, N(r), dig.Length - 1 - ri)
    ensures forall k :: 0 <= k < dig.Length ==> old(dig[k]) <= dig[k] <= old(dig[k]) + x * (NBASE - 1)
    ensures forall k :: 0 <= k < dig.Length ==> dig[k] == old(dig[k]) + Product(x, At(r, k - (ri - |r| + 1)))
  {
    hide N, BP, Row;
    var i, i2 := ri, |r|;
    ghost var n := dig.Length;
    NEmpty();
    assert r[|r|..] == [];
    RowZero(x, n - 1 - ri);
    while i2 > 0
      invariant 0 <= i2 <= |r| && i == ri - |r| + i2
      invariant N(dig[..]) == old(N(dig[..])) + Row(x, N(r[i2..]), n - 1 - ri)
      invariant forall k :: 0 <= k <= i ==> dig[k] == old(dig[k])
      invariant forall k :: i < k < n ==> old(dig[k]) <= dig[k] <= old(dig[k]) + x * (NBASE - 1)
      invariant forall k :: i < k < n ==> dig[k] == old(dig[k]) + Product(x, At(r, k - (ri - |r| + 1)))
    {
      i2 := i2 - 1;
      ghost var s := dig[..];
      DigitProduct(x, r[i2]);
      var v := x * r[i2];
      NUpdate(s, i, v);
      dig[i] := dig[i] + v;
      assert dig[..] == s[i := s[i] + v];
      NHead(r[i2..]);
      assert r[i2..][1..] == r[i2 + 1..];
      RowStep(x, r[i2], |r| - 1 - i2, n - 1 - ri, N(r[i2 + 1..]));
      i := i - 1;
    }
    assert r[0..] == r;
  }

  lemma RowZero(x: int, k: nat)
    ensures Row(x, 0, k) == 0
  {
  }

  /** One carry pass over the accumulator; every entry becomes a digit. `fits` records whether
      every sum of the pass was within INT_MAX. */
  method CarryPass(dig: array<int>) returns (carry: int, ghost fits: bool)
    requires forall k :: 0 <= k < dig.Length ==> dig[k] >= 0
    modifies dig
    ensures IsDigits(dig[..]) && carry >= 0
    ensures N(dig[..]) + carry * BP(dig.Length) == old(N(dig[..]))
    ensures carry == CarryOut(old(dig[..])) && dig[..] == Normal(old(dig[..])) && fits == PassFits(old(dig[..]))
  {
    hide N, BP, AddSub.Carried, PassDone, Normal, CarryOut, PassFits;
    ghost var s := dig[..];
    var n := dig.Length;
    var i := n;
    carry, fits := 0, true;
    PassStart(s[n..], dig[n..]);
    AddSub.NothingCarried(dig[n..]); AddSub.NothingCarried(s[n..]);
    while i > 0
      invariant 0 <= i <= n && carry >= 0
      invariant dig[..i] == s[..i]
      invariant IsDigits(dig[i..])
      invariant AddSub.Carried(dig[i..], carry, N(s[i..]))
      invariant PassDone(s[i..], dig[i..], carry, fits)
    {
      i := i - 1;
      ghost var t, c, f := dig[i + 1..], carry, fits;
      var newdig := dig[i] + carry;
      assert dig[i] == dig[..i + 1][i] == s[i];
      fits := fits && newdig <= INT_MAX;
      if newdig >= NBASE {
        carry := newdig / NBASE;
        newdig := newdig - carry * NBASE;
      } else {
        carry := 0;
      }
      dig[i] := newdig;
      assert dig[i..] == [newdig] + t;
      AddSub.PlainColumn(s, i, t, c, newdig, carry);
      PassStep(s, i, t, c, f, newdig, carry);
    }
    assert dig[0..] == dig[..] && s[0..] == s;
    AddSub.CarriedIs(dig[..], carry, N(s));
    PassIs(s, dig[..], carry, fits);
  }

  /** The product of the digits still to come fits, so the pass never carries out of the top. */
  lemma ProductFits(a: seq<int>, b: seq<int>, n: nat)
    requires IsDigits(a) && IsDigits(b) && |a| + |b| <= n
    ensures 0 <= N(a) * N(b) < BP(n)
  {
    hide N, BP;
    NBound(a); NBound(b);
    BPAdd(|a|, |b|);
    BPMonotone(|a| + |b|, n);
    ProductBelow(N(a), N(b), BP(|a|), BP(|b|));
  }

  lemma NoCarryLeft(s: seq<int>, carry: int, total: int, n: nat)
    requires IsDigits(s) && |s| == n && carry >= 0 && N(s) + carry * BP(n) == total < BP(n)
    ensures carry == 0
  {
    hide N, BP;
    NBound(s);
    SmallMultiple(carry, BP(n), N(s));
  }

  /** The rows added so far, in front of the digits of l still to come. */
  lemma NextRow(l: seq<int>, i: nat, m: int)
    requires i < |l|
    ensures N(l[i..]) * m == N(l[i + 1..]) * m + Row(l[i], m, |l| - 1 - i)
  {
    hide N, BP;
    NHead(l[i..]);
    assert l[i..][1..] == l[i + 1..];
    var d, p, t := l[i], BP(|l| - 1 - i), N(l[i + 1..]);
    DistributeInt(d * p, t, m);
    assert d * p * m == d * m * p;
  }

  /** Accumulates the product of l and r without propagating carries, except when the
      accumulator entries might outgrow an int. `fits` records whether the sums of the passes
      made on the way were within INT_MAX. */
  method Accumulate(l: seq<int>, r: seq<int>) returns (dig: array<int>, rc: int, ghost fits: bool)
    requires IsDigits(l) && IsDigits(r)
    ensures rc == 0 && fresh(dig) && dig.Length == |l| + |r| + 1
    ensures forall k :: 0 <= k < dig.Length ==> 0 <= dig[k] <= MaxDig(l, 0) * (NBASE - 1) <= INT_MAX
    ensures N(dig[..]) == N(l) * N(r)
    ensures dig[..] == Entries(l, r, 0) && fits == PassesFitFrom(l, r, 0)
  {
    hide N, BP, IsDigits, Accumulated, Entries, MaxDig, PassesFitFrom;
    var n := |l| + |r| + 1;
    dig := new int[n](i => 0);
    var maxdig, ri, i1 := 0, n - 1, |l|;
    fits := true;
    AccumulateStart(dig[..], l, r);
    while i1 > 0
      invariant 0 <= i1 <= |l| && ri == n - 1 - (|l| - i1)
      invariant Accumulated(dig[..], l, r, i1, maxdig) && fits == PassesFitFrom(l, r, i1)
    {
      i1 := i1 - 1;
      ghost var passFits;
      rc, maxdig, passFits := AddLeftDigit(dig, l, r, i1, ri, maxdig);
      if rc != 0 {
        return;
      }
      PassesFitNext(l, r, i1);
      fits := fits && passFits;
      ri := ri - 1;
    }
    AccumulatedAll(dig[..], l, r, maxdig);
    forall k | 0 <= k < n ensures 0 <= dig[k] <= MaxDig(l, 0) * (NBASE - 1) <= INT_MAX {
      assert dig[k] == dig[..][k];
    }
    rc := 0;
  }

  /** The accumulator after the rows of l[i..]: its entries, their bound, the product exact. */
  ghost predicate Accumulated(dig: seq<int>, l: seq<int>, r: seq<int>, i: nat, maxdig: int)
    requires i <= |l|
  {
    dig == Entries(l, r, i) && maxdig == MaxDig(l, i) && N(dig) == Product(N(l[i..]), N(r))
  }

  lemma AccumulatedAll(dig: seq<int>, l: seq<int>, r: seq<int>, maxdig: int)
    requires IsDigits(l) && IsDigits(r) && Accumulated(dig, l, r, 0, maxdig)
    ensures N(dig) == N(l) * N(r) && dig == Entries(l, r, 0)
    ensures forall k :: 0 <= k < |dig| ==> 0 <= dig[k] <= MaxDig(l, 0) * (NBASE - 1) <= INT_MAX
  {
    hide N, Entries, MaxDig;
    assert l[0..] == l;
    EntriesBounded(l, r, 0);
  }

  /** Adds the row of the digit l[i], propagating carries first if the entries might outgrow an int.
      `fits` tells whether the sums of that pass, if there is one, were within INT_MAX; they are
      when maxdig was at most 214748. */
  method AddLeftDigit(dig: array<int>, l: seq<int>, r: seq<int>, i: nat, ri: int, maxdigIn: int)
    returns (rc: int, maxdig: int, ghost fits: bool)
    requires IsDigits(l) && IsDigits(r) && i < |l| && ri == |r| + i + 1 && Accumulated(dig[..], l, r, i + 1, maxdigIn)
    modifies dig
    ensures rc == 0 && Accumulated(dig[..], l, r, i, maxdig)
    ensures fits <==> (PassBefore(l, i) ==> PassFits(Entries(l, r, i + 1)))
    ensures NBASE * maxdigIn - 1 <= INT_MAX ==> fits
  {
    hide N, BP, Row, Product, PassFits, Entries, Normal, IsDigits;
    var leftDigit := l[i];
    NextDigit(l, i, N(r));
    EntriesBounded(l, r, i + 1);
    maxdig, fits := maxdigIn, true;
    if leftDigit == 0 {
      RowOfZero(N(r), |l| - 1 - i);
      EntriesSkip(l, r, i);
      return 0, maxdig, fits;
    }
    maxdig := maxdig + leftDigit;
    ghost var was := dig[..];
    if maxdig > MAX_DIG {
      var carry;
      carry, fits := Flatten(dig, l, r, i);
      if NBASE * maxdigIn - 1 <= INT_MAX { BoundedFits(was, maxdigIn); }
      if carry != 0 {
        return -6, maxdig, fits;
      }
      maxdig := 1 + leftDigit;
    }
    assert dig[..] == BeforeRow(l, r, i);
    AddRow(dig, ri, leftDigit, r);
    EntriesNext(dig[..], l, r, i);
    rc := 0;
  }

  /** Propagates the carries of the accumulator; the product so far leaves none over. */
  method Flatten(dig: array<int>, ghost l: seq<int>, ghost r: seq<int>, ghost i: nat)
    returns (carry: int, ghost fits: bool)
    requires IsDigits(l) && IsDigits(r) && i < |l| && dig.Length == |l| + |r| + 1
    requires (forall k :: 0 <= k < dig.Length ==> dig[k] >= 0) && N(dig[..]) == Product(N(l[i + 1..]), N(r))
    modifies dig
    ensures carry == 0 && N(dig[..]) == old(N(dig[..])) && dig[..] == Normal(old(dig[..]))
    ensures fits == PassFits(old(dig[..]))
  {
    hide N, BP, Normal, PassFits;
    var n := dig.Length;
    IsDigitsSlice(l, i + 1, |l|);
    assert l[i + 1..|l|] == l[i + 1..];
    ProductFits(l[i + 1..], r, n);
    carry, fits := CarryPass(dig);
    NoCarryLeft(dig[..], carry, N(l[i + 1..]) * N(r), n);
  }

  lemma AccumulateStart(dig: seq<int>, l: seq<int>, r: seq<int>)
    requires AllZero(dig) && |dig| == |l| + |r| + 1
    ensures Accumulated(dig, l, r, |l|, 0) && PassesFitFrom(l, r, |l|)
  {
    NEmpty();
    NZeros(dig);
    assert l[|l|..] == [];
  }

  lemma PassesFitNext(l: seq<int>, r: seq<int>, i: nat)
    requires i < |l|
    ensures PassesFitFrom(l, r, i) <==>
              PassesFitFrom(l, r, i + 1) && (PassBefore(l, i) ==> PassFits(Entries(l, r, i + 1)))
  {
    hide PassFits, Entries, PassBefore;
  }

  /** What the digit l[i] adds to the product. */
  lemma NextDigit(l: seq<int>, i: nat, m: int)
    requires IsDigits(l) && i < |l|
    ensures IsDigit(l[i]) && Product(N(l[i..]), m) == Product(N(l[i + 1..]), m) + Row(l[i], m, |l| - 1 - i)
  {
    hide N, Row;
    NextRow(l, i, m);
  }

  lemma EntriesSkip(l: seq<int>, r: seq<int>, i: nat)
    requires i < |l| && l[i] == 0
    ensures Entries(l, r, i) == Entries(l, r, i + 1) && MaxDig(l, i) == MaxDig(l, i + 1)
  {
  }

  lemma EntriesNext(dig: seq<int>, l: seq<int>, r: seq<int>, i: nat)
    requires i < |l| && |dig| == |l| + |r| + 1
    requires forall k :: 0 <= k < |dig| ==> dig[k] == BeforeRow(l, r, i)[k] + Product(l[i], At(r, k - (i + 2)))
    ensures dig == Entries(l, r, i)
  {
    hide Product, BeforeRow;
  }

  lemma RowOfZero(m: int, k: nat)
    ensures Row(0, m, k) == 0
  {
  }

  /** The final carry pass, which stores the digits behind a spare slot. */
  method FinalPass(dig: array<int>) returns (res: array<int>, carry: int, ghost fits: bool)
    requires forall k :: 0 <= k < dig.Length ==> dig[k] >= 0
    ensures fresh(res) && res.Length == dig.Length + 1 && res[0] == 0 && IsDigits(res[1..]) && carry >= 0
    ensures N(res[1..]) + carry * BP(dig.Length) == N(dig[..]) && carry == CarryOut(dig[..])
    ensures res[1..] == Normal(dig[..]) && fits == PassFits(dig[..])
  {
    hide N, BP, AddSub.Carried, PassDone, Normal, CarryOut, PassFits;
    var n := dig.Length;
    res := new int[n + 1];
    res[0] := 0;
    var i := n;
    carry, fits := 0, true;
    PassStart(dig[n..], res[n + 1..]);
    AddSub.NothingCarried(res[n + 1..]); AddSub.NothingCarried(dig[n..]);
    while i > 0
      invariant 0 <= i <= n && carry >= 0 && res[0] == 0
      invariant IsDigits(res[i + 1..])
      invariant AddSub.Carried(res[i + 1..], carry, N(dig[i..]))
      invariant PassDone(dig[i..], res[i + 1..], carry, fits)
    {
      i := i - 1;
      ghost var t, c, f := res[i + 2..], carry, fits;
      var newdig := dig[i] + carry;
      fits := fits && newdig <= INT_MAX;
      if newdig >= NBASE {
        carry := newdig / NBASE;
        newdig := newdig - carry * NBASE;
      } else {
        carry := 0;
      }
      res[i + 1] := newdig;
      assert res[i + 1..] == [newdig] + t;
      assert dig[..][i..] == dig[i..] && dig[..][i + 1..] == dig[i + 1..];
      AddSub.PlainColumn(dig[..], i, t, c, newdig, carry);
      PassStep(dig[..], i, t, c, f, newdig, carry);
    }
    assert dig[0..] == dig[..];
    AddSub.CarriedIs(res[1..], carry, N(dig[..]));
    PassIs(dig[..], res[1..], carry, fits);
  }

  /** How many digits of each operand take part when at most `maxdigits` result digits are wanted. */
  function Kept(nl: nat, nr: nat, maxdigits: int): (k: (nat, nat))
    requires nl > 0 && nr > 0
    ensures k.0 <= nl && k.1 <= nr
    ensures nl + nr + 1 <= maxdigits ==> k == (nl, nr)
    ensures nl + nr + 1 > maxdigits >= 3 ==> maxdigits <= k.0 + k.1 + 1 <= maxdigits + 1
  {
    if nl + nr + 1 <= maxdigits then (nl, nr)
    else if maxdigits < 3 then (0, 0)
    else
      var m := if maxdigits % 2 == 0 then maxdigits + 1 else maxdigits;
      var cut := nl + nr + 1 - m;
      if nl > nr then
        if nl - cut < nr then ((nl - cut + nr) / 2, (nl - cut + nr) / 2) else (nl - cut, nr)
      else
        if nr - cut < nl then ((nr - cut + nl) / 2, (nr - cut + nl) / 2) else (nl, nr - cut)
  }

  function MaxDigits(lw: int, rw: int, rscale: int): int {
    lw + rw + 2 + 1 + rscale * DEC_DIGITS + MUL_GUARD_DIGITS
  }

  /** Which digits take part: all, if one more than their number is within the limit; none, if the limit is below three;
      otherwise the limit made odd, less one, in equal parts or with the shorter operand whole. */
  lemma KeptRule(nl: nat, lw: int, nr: nat, rw: int, rscale: int)
    requires nl > 0 && nr > 0
    ensures var m, k := lw + rw + 4 * rscale + 5, Kept(nl, nr, MaxDigits(lw, rw, rscale));
            && (nl + nr + 1 <= m ==> k == (nl, nr))
            && (nl + nr + 1 > m && m < 3 ==> k == (0, 0))
            && (nl + nr + 1 > m >= 3 ==> k.0 + k.1 + 1 == (if m % 2 == 0 then m + 1 else m))
            && (nl + nr + 1 > m >= 3 ==> k.0 == k.1 || (nl > nr && k.1 == nr < k.0) || (nl <= nr && k.0 == nl < k.1))
  {
  }

  ghost function ExactProduct(a: seq<int>, wa: int, b: seq<int>, wb: int): real {
    Times(Magnitude(a, wa), Magnitude(b, wb))
  }

  lemma ExactIs(left: Decimal, right: Decimal)
    requires left.Valid() && right.Valid()
    ensures ExactProduct(left.Digs(), left.weight, right.Digs(), right.weight) == Times(left.Mag(), right.Mag())
  {
  }

  lemma MagnitudeProduct(a: seq<int>, wa: int, b: seq<int>, wb: int, s: seq<int>)
    requires |s| == |a| + |b| + 1 && N(s) == N(a) * N(b)
    ensures Magnitude(s, wa + wb + 2) == ExactProduct(a, wa, b, wb)
  {
    hide N, Shift, BP, Times;
    TimesInt(N(a), N(b));
    ShiftTimesTimes(N(a) as real, 4 * (wa - |a| + 1), N(b) as real, 4 * (wb - |b| + 1));
  }

  /** The digits of the product of l and r, behind a spare slot. `fits` records whether every sum of
      every carry pass was within INT_MAX. */
  method MulDigits(l: seq<int>, r: seq<int>) returns (res: array<int>, rc: int, ghost fits: bool)
    requires IsDigits(l) && IsDigits(r)
    ensures rc == 0 && fresh(res) && res.Length == |l| + |r| + 2 && res[0] == 0 && IsDigits(res[1..])
    ensures N(res[1..]) == N(l) * N(r)
    ensures fits == PassesFit(l, r) && (SafeLeft(l) ==> fits)
  {
    hide N, BP, PassFits, PassesFitFrom, Entries, MaxDig, Normal, SafeLeft;
    ghost var early;
    var dig, rc';
    dig, rc', early := Accumulate(l, r);
    if rc' != 0 {
      return dig, -6, early;
    }
    var carry;
    res, carry, fits := FinalPass(dig);
    fits := fits && early;
    if SafeLeft(l) { SafeFits(l, r); }
    ProductFits(l, r, |l| + |r| + 1);
    NoCarryLeft(res[1..], carry, N(l) * N(r), |l| + |r| + 1);
    rc := if carry != 0 then -6 else 0;
  }

  /** result = left * right, of which only the digits that matter at `rscale` are computed. `fits`
      records whether every sum of the carry passes was within INT_MAX. */
  method Mul(left: Decimal, right: Decimal, result: Decimal, rscale: int) returns (rc: int, ghost fits: bool)
    requires left.Finite() && right.Finite()
    modifies result
    ensures rc == 0 && result.Finite() && result.Stripped() && result.dscale == rscale && fresh(result.buff)
    ensures result.typemod == -1
    ensures result.Mag() == old(ProductAt(left.Digs(), left.weight, right.Digs(), right.weight, rscale))
    ensures result.sign == if old(left.sign == right.sign) || result.Mag() == 0.0 then Pos else Neg
    ensures Near(result.Mag(), Times(old(left.Mag()), old(right.Mag())), rscale,
                 old(MulSlack(left.ndigits, left.weight, right.ndigits, right.weight, rscale)))
    ensures fits == old(MulFits(left.Digs(), left.weight, right.Digs(), right.weight, rscale))
  {
    hide N, BP, Shift, Magnitude, ExactProduct, RoundHalfUp, DigitsAt, RoomAt, Kept, IsDigits, IsStripped, PassesFit,
         Times, MulSlack, Near;
    var l := left.Digs();
    var r := right.Digs();
    DigitsOf(left);
    DigitsOf(right);
    ProductError(l, left.weight, r, right.weight, rscale);
    assert ExactProduct(l, left.weight, r, right.weight) == Times(left.Mag(), right.Mag()) by { ExactIs(left, right); }
    if |l| == 0 || |r| == 0 {
      ZeroResult(result, rscale);
      return 0, true;
    }
    var sign := if left.sign == right.sign then Pos else Neg;
    var weight, maxdigits := left.weight + right.weight + 2, MaxDigits(left.weight, right.weight, rscale);
    var k := Kept(|l|, |r|, maxdigits);
    if |l| + |r| + 1 > maxdigits && maxdigits < 3 {
      NothingKept(l, left.weight, r, right.weight, rscale);
      ZeroResult(result, rscale);
      return 0, true;
    }
    IsDigitsSlice(l, 0, k.0);
    IsDigitsSlice(r, 0, k.1);
    var res;
    res, rc, fits := MulDigits(l[..k.0], r[..k.1]);
    MagnitudeProduct(l[..k.0], left.weight, r[..k.1], right.weight, res[1..]);
    assert RoundHalfUp(Magnitude(res[1..], weight), rscale) == ProductAt(l, left.weight, r, right.weight, rscale);
    result.Init();
    rc := FinishRounded(result, res, weight, sign, rscale);
  }

  /** What multiplication computes: the product of the kept digits, rounded. */
  ghost function ProductAt(l: seq<int>, lw: int, r: seq<int>, rw: int, rscale: int): real {
    if l == [] || r == [] then 0.0
    else
      var k := Kept(|l|, |r|, MaxDigits(lw, rw, rscale));
      RoundHalfUp(ExactProduct(l[..k.0], lw, r[..k.1], rw), rscale)
  }

  /** What cutting the operands to k digits can take off a product of weight w. */
  ghost function Slack(nl: nat, nr: nat, k: (nat, nat), w: int): real {
    CutUnit(nl, k.0, w) + CutUnit(nr, k.1, w)
  }

  ghost function CutUnit(n: nat, k: nat, w: int): real {
    if k < n then Shift(1.0, 4 * (w - k)) else 0.0
  }

  /** The digits in front of a cut, and what is behind them. */
  lemma CutOperand(s: seq<int>, w: int, k: nat, v: int)
    requires IsDigits(s) && k <= |s|
    ensures 0.0 <= Magnitude(s[..k], w) <= Magnitude(s, w) <= Shift(1.0, 4 * (w + 1))
    ensures Times(Magnitude(s, w) - Magnitude(s[..k], w), Shift(1.0, 4 * v)) <= CutUnit(|s|, k, w + v + 1)
  {
    hide N, Shift, Times;
    MagnitudeSplit(s, w, k);
    MagnitudeBound(s, w);
    IsDigitsSlice(s, 0, k);
    MagnitudeNonNegative(s[..k], w);
    IsDigitsSlice(s, k, |s|);
    assert s[k..|s|] == s[k..];
    MagnitudeBound(s[k..], w - k);
    var a := Magnitude(s[k..], w - k);
    if k == |s| {
      assert s[k..] == [];
      NEmpty();
      MagnitudeNonNegative([], w - k);
      TimesZero(a, Shift(1.0, 4 * v));
    } else {
      ShiftOneMonotone(4 * v, 4 * v);
      TimesOrder(a, Shift(1.0, 4 * (w - k + 1)), Shift(1.0, 4 * v), Shift(1.0, 4 * v));
      ShiftTimesTimes(1.0, 4 * (w - k + 1), 1.0, 4 * v);
      assert Times(1.0, 1.0) == 1.0 by { TimesInt(1, 1); }
    }
  }

  lemma TimesOrder(a: real, b: real, c: real, d: real)
    requires 0.0 <= a <= b && 0.0 <= c <= d
    ensures 0.0 <= Times(a, c) <= Times(b, d)
  {
    ProductSign(a, c);
    ProductSign(b - a, c);
    ProductSign(d - c, b);
    Distribute(b, a, c);
    Distribute(d, c, b);
  }

  /** A product of cut operands is below the product by at most the slack. */
  lemma CutProduct(l: seq<int>, lw: int, r: seq<int>, rw: int, k: (nat, nat))
    requires IsDigits(l) && IsDigits(r) && k.0 <= |l| && k.1 <= |r|
    ensures var x, y := ExactProduct(l, lw, r, rw), ExactProduct(l[..k.0], lw, r[..k.1], rw);
            0.0 <= x - y <= Slack(|l|, |r|, k, lw + rw + 2)
  {
    hide Magnitude, Shift, CutUnit, Times;
    var a, b, c, d := Magnitude(l, lw), Magnitude(l[..k.0], lw), Magnitude(r, rw), Magnitude(r[..k.1], rw);
    CutOperand(l, lw, k.0, rw + 1);
    CutOperand(r, rw, k.1, lw + 1);
    TimesOrder(a - b, a - b, c, Shift(1.0, 4 * (rw + 1)));
    TimesOrder(c - d, c - d, b, Shift(1.0, 4 * (lw + 1)));
    DifferenceOfProducts(a, b, c, d);
    assert lw + (rw + 1) + 1 == rw + (lw + 1) + 1 == lw + rw + 2;
  }

  lemma DifferenceOfProducts(a: real, b: real, c: real, d: real)
    ensures Times(a, c) - Times(b, d) == Times(a - b, c) + Times(c - d, b)
  {
    Distribute(a, b, c);
    Distribute(c, d, b);
  }

  /** Rounding moves a number by at most half a unit of the scale. */
  lemma RoundError(x: real, scale: int)
    ensures -Shift(1.0, -scale) <= 2.0 * (RoundHalfUp(x, scale) - x) <= Shift(1.0, -scale)
  {
    hide Shift, RoundHalfUp;
    NearestMultiple(x, scale);
  }

  /** p is x rounded at the scale, but for a loss of up to `slack` before rounding. */
  ghost predicate Near(p: real, x: real, scale: int, slack: real) {
    -Shift(1.0, -scale) - 2.0 * slack <= 2.0 * (p - x) <= Shift(1.0, -scale)
  }

  /** How far the computed product is from the exact one. */
  lemma ProductError(l: seq<int>, lw: int, r: seq<int>, rw: int, rscale: int)
    requires IsDigits(l) && IsDigits(r)
    ensures Near(ProductAt(l, lw, r, rw, rscale), ExactProduct(l, lw, r, rw), rscale,
              MulSlack(|l|, lw, |r|, rw, rscale))
  {
    hide Shift, Magnitude, Times, RoundHalfUp, Kept;
    if l == [] || r == [] {
      MagnitudeNonNegative([], lw);
      MagnitudeNonNegative([], rw);
      TimesZero(Magnitude(l, lw), Magnitude(r, rw));
      ShiftOneMonotone(-rscale, -rscale);
    } else {
      var k := Kept(|l|, |r|, MaxDigits(lw, rw, rscale));
      CutProduct(l, lw, r, rw, k);
      RoundError(ExactProduct(l[..k.0], lw, r[..k.1], rw), rscale);
    }
  }

  ghost function MulSlack(nl: nat, lw: int, nr: nat, rw: int, rscale: int): real {
    if nl == 0 || nr == 0 then 0.0 else Slack(nl, nr, Kept(nl, nr, MaxDigits(lw, rw, rscale)), lw + rw + 2)
  }

  /** Whether its carry passes fit an int; there are none when an operand is zero or nothing is kept. */
  ghost predicate MulFits(l: seq<int>, lw: int, r: seq<int>, rw: int, rscale: int) {
    l == [] || r == [] ||
    var m := MaxDigits(lw, rw, rscale);
    var k := Kept(|l|, |r|, m);
    (|l| + |r| + 1 > m && m < 3) || PassesFit(l[..k.0], r[..k.1])
  }

  lemma NothingKept(l: seq<int>, lw: int, r: seq<int>, rw: int, rscale: int)
    requires l != [] && r != []
    requires |l| + |r| + 1 > MaxDigits(lw, rw, rscale) && MaxDigits(lw, rw, rscale) < 3
    ensures ProductAt(l, lw, r, rw, rscale) == 0.0
  {
    hide Shift, Magnitude, Times;
    MagnitudeNonNegative([], lw);
    TimesZero(Magnitude([], lw), Magnitude([], rw));
    assert l[..0] == [] && r[..0] == [];
    RoundOfZero(rscale);
  }

  lemma RoundOfZero(scale: int)
    ensures RoundHalfUp(0.0, scale) == 0.0 && RoundDown(0.0, scale) == 0.0
  {
    hide Shift;
    ShiftOrder(0.0, 0.0, scale);
    ShiftOrder(0.0, 0.0, -scale);
    FloorIs(0.0, 0);
    FloorIs(0.5, 0);
  }

  method ZeroResult(result: Decimal, rscale: int)
    modifies result
    ensures result.Finite() && result.Stripped() && result.dscale == rscale && fresh(result.buff)
    ensures result.Mag() == 0.0 && result.sign == Pos && result.typemod == -1
  {
    result.Init();
    result.dscale := rscale;
    MagnitudeNonNegative([], 0);
  }
}
