// The decimal record: base-10000 digits inside a buffer that keeps a spare slot
// in front of the digits, and the exact rational a record denotes.
module Decimals {
  import opened Powers
  import opened Digits

  /** The rational denoted by digits whose first digit counts multiples of 10000^weight. */
  function Magnitude(s: seq<int>, weight: int): real {
    Shift(N(s) as real, 4 * (weight - |s| + 1))
  }

  /** Zero-extending digits on either side keeps the rational they denote. */
  lemma MagnitudeWindow(s: seq<int>, weight: int, lo: int, hi: int)
    requires lo <= 0 && |s| <= hi
    ensures Magnitude(Window(s, lo, hi), weight - lo) == Magnitude(s, weight)
  {
    hide N, BP, Shift;
    NWindow(s, lo, hi);
    ShiftBP(N(s), hi - |s|);
    ShiftShift(N(s) as real, 4 * (hi - |s|), 4 * (weight - hi + 1));
  }

  lemma MagnitudeNonNegative(s: seq<int>, weight: int)
    requires IsDigits(s)
    ensures Magnitude(s, weight) >= 0.0
    ensures Magnitude(s, weight) == 0.0 <==> AllZero(s)
  {
    hide N, Shift;
    NBound(s);
    ShiftOrder(0.0, N(s) as real, 4 * (weight - |s| + 1));
    if AllZero(s) {
      NZeros(s);
    } else if N(s) == 0 {
      NZeroOnly(s);
    }
  }

  lemma MagnitudeDropFirst(s: seq<int>, weight: int)
    requires s != [] && s[0] == 0
    ensures Magnitude(s[1..], weight - 1) == Magnitude(s, weight)
  {
    assert s == Window(s[1..], -1, |s| - 1);
    MagnitudeWindow(s[1..], weight - 1, -1, |s| - 1);
  }

  lemma MagnitudeDropLast(s: seq<int>, weight: int)
    requires s != [] && s[|s| - 1] == 0
    ensures Magnitude(s[..|s| - 1], weight) == Magnitude(s, weight)
  {
    var t := s[..|s| - 1];
    assert s == Window(t, 0, |s|);
    MagnitudeWindow(t, weight, 0, |s|);
  }

  /** Splitting the digits splits the magnitude. */
  lemma MagnitudeSplit(s: seq<int>, weight: int, k: nat)
    requires k <= |s|
    ensures Magnitude(s, weight) == Shift(N(s[..k]) as real, 4 * (weight - k + 1)) + Magnitude(s[k..], weight - k)
  {
    hide N, BP, Shift;
    NSplit(s, k);
    var e := 4 * (weight - |s| + 1);
    ShiftBP(N(s[..k]), |s| - k);
    ShiftShift(N(s[..k]) as real, 4 * (|s| - k), e);
    ShiftSum((N(s[..k]) * BP(|s| - k)) as real, N(s[k..]) as real, e);
  }

  /** The first digit counts multiples of 10000^weight; the rest is the same number one weight lower. */
  lemma MagnitudePeel(s: seq<int>, weight: int)
    requires s != []
    ensures Magnitude(s, weight) == Shift(s[0] as real, 4 * weight) + Magnitude(s[1..], weight - 1)
  {
    hide N, Shift, Magnitude;
    assert s[..1] == [s[0]];
    NOne(s[0]);
    MagnitudeSplit(s, weight, 1);
  }

  lemma MagnitudeBound(s: seq<int>, weight: int)
    requires IsDigits(s)
    ensures 0.0 <= Magnitude(s, weight) < Shift(1.0, 4 * (weight + 1))
  {
    hide N, BP, Shift;
    NBound(s);
    var e := 4 * (weight - |s| + 1);
    ShiftBP(1, |s|);
    ShiftShift(1.0, 4 * |s|, e);
    ShiftOrder(N(s) as real, BP(|s|) as real, e);
    MagnitudeNonNegative(s, weight);
  }

  lemma MagnitudeOrder(a: seq<int>, b: seq<int>, weight: int)
    requires |a| == |b|
    ensures N(a) <= N(b) <==> Magnitude(a, weight) <= Magnitude(b, weight)
  {
    hide N, Shift;
    ShiftOrder(N(b) as real, N(a) as real, 4 * (weight - |a| + 1));
  }

  /** A window that cuts off leading digits keeps a number too small to use them. */
  lemma MagnitudeCut(s: seq<int>, weight: int, lo: int, hi: int)
    requires IsDigits(s) && 0 <= lo <= hi && |s| <= hi
    requires Magnitude(s, weight) < Shift(1.0, 4 * (weight - lo + 1))
    ensures Magnitude(Window(s, lo, hi), weight - lo) == Magnitude(s, weight)
  {
    hide N, BP, Shift;
    var top, rest := Window(s, 0, lo), Window(s, lo, hi);
    assert Window(s, 0, hi) == top + rest;
    NConcat(top, rest);
    MagnitudeWindow(s, weight, 0, hi);
    NBound(top); NBound(rest);
    var e := 4 * (weight - hi + 1);
    ShiftBP(1, hi - lo);
    ShiftShift(1.0, 4 * (hi - lo), e);
    ShiftOrder(N(top + rest) as real, BP(hi - lo) as real, e);
    SmallMultiple(N(top), BP(hi - lo), N(rest));
  }

  datatype Sign = Pos | Neg | Special

  predicate IsStripped(s: seq<int>, weight: int, sign: Sign) {
    if s == [] then sign == Pos && weight == 0 else s[0] != 0 && s[|s| - 1] != 0
  }

  predicate IsInt(x: real) {
    x.Floor as real == x
  }

  lemma MagnitudeStripped(s: seq<int>, weight: int)
    requires IsDigits(s) && (s != [] ==> s[0] != 0)
    ensures Magnitude(s, weight) >= 0.0
    ensures Magnitude(s, weight) == 0.0 <==> s == []
  {
    MagnitudeNonNegative(s, weight);
  }

  /** Digits whose rounding never carries out of the first digit: zero, or a power of NBASE. */
  predicate CannotCarry(s: seq<int>) {
    s != [] ==> s[0] <= 1 && AllZero(s[1..])
  }

  /** A buffer holding `n` digits from position `start`. */
  predicate DigitsAt(b: seq<int>, start: nat, n: int) {
    0 <= n && start + n <= |b| && IsDigits(b[start..start + n])
  }

  /** A carry out of the first digit has a zero slot to go to, or cannot happen. */
  predicate RoomAt(b: seq<int>, start: nat, n: int)
    requires DigitsAt(b, start, n)
  {
    (start >= 1 && b[start - 1] == 0) || CannotCarry(b[start..start + n])
  }

  /** Moves past leading zero digits, lowering the weight. */
  method SkipLeading(a: array<int>, first: nat, count: int, weight: int) returns (digits: nat, n: nat, w: int)
    requires DigitsAt(a[..], first, count)
    ensures DigitsAt(a[..], digits, n)
    ensures first <= digits && digits + n == first + count
    ensures n > 0 ==> a[digits] != 0
    ensures RoomAt(a[..], first, count) ==> RoomAt(a[..], digits, n)
    ensures Magnitude(a[..][digits..digits + n], w) == Magnitude(a[..][first..first + count], weight)
  {
    hide N, Shift, Magnitude;
    ghost var b := a[..];
    digits, n, w := first, count, weight;
    while n > 0 && a[digits] == 0
      invariant first <= digits && digits + n == first + count
      invariant first < digits ==> b[digits - 1] == 0
      invariant Magnitude(b[digits..digits + n], w) == Magnitude(b[first..first + count], weight)
    {
      MagnitudeDropFirst(b[digits..digits + n], w);
      assert b[digits..digits + n][1..] == b[digits + 1..digits + n];
      digits, w, n := digits + 1, w - 1, n - 1;
    }
    IsDigitsSlice(b[first..first + count], digits - first, count);
    assert b[digits..digits + n] == b[first..first + count][digits - first..count];
  }

  /** Drops trailing zero digits. */
  method SkipTrailing(a: array<int>, digits: nat, count: int, w: int) returns (n: nat)
    requires DigitsAt(a[..], digits, count)
    ensures DigitsAt(a[..], digits, n) && n <= count
    ensures n > 0 ==> a[digits + n - 1] != 0
    ensures RoomAt(a[..], digits, count) ==> RoomAt(a[..], digits, n)
    ensures Magnitude(a[..][digits..digits + n], w) == Magnitude(a[..][digits..digits + count], w)
  {
    hide N, Shift, Magnitude;
    ghost var b := a[..];
    n := count;
    while n > 0 && a[digits + n - 1] == 0
      invariant n <= count
      invariant Magnitude(b[digits..digits + n], w) == Magnitude(b[digits..digits + count], w)
    {
      MagnitudeDropLast(b[digits..digits + n], w);
      assert b[digits..digits + n][..n - 1] == b[digits..digits + n - 1];
      n := n - 1;
    }
    assert b[digits..digits + n] == b[digits..digits + count][..n];
  }

  class Decimal {
    var typemod: int
    var ndigits: int
    var sign: Sign
    var dscale: int
    var weight: int
    var isOwn: bool
    var buff: array<int>
    var start: nat   // the digits are buff[start..start + ndigits]

    ghost predicate Valid()
      reads this, buff
    {
      DigitsAt(buff[..], start, ndigits) && (sign == Special ==> ndigits == 0)
    }

    function Digs(): seq<int>
      reads this, buff
      requires Valid()
    {
      buff[..][start..start + ndigits]
    }

    ghost function Mag(): real
      reads this, buff
      requires Valid()
    {
      Magnitude(Digs(), weight)
    }

    ghost function Val(): real
      reads this, buff
      requires Valid()
    {
      if sign == Neg then -Mag() else Mag()
    }

    ghost predicate Stripped()
      reads this, buff
      requires Valid()
    {
      IsStripped(Digs(), weight, sign)
    }

    ghost predicate Room()
      reads this, buff
      requires Valid()
    {
      RoomAt(buff[..], start, ndigits)
    }

    /** A finite number in a buffer of its own. */
    ghost predicate Owned()
      reads this, buff
    {
      Finite() && isOwn
    }

    /** A finite number that can take part in arithmetic. */
    ghost predicate Finite()
      reads this, buff
    {
      Valid() && sign != Special && (isOwn ==> Room())
    }

    /** No nonzero decimal digit lies below the display scale. */
    ghost predicate Scaled()
      reads this, buff
      requires Valid()
    {
      dscale >= 0 && IsInt(Shift(Mag(), dscale))
    }

    constructor ()
      ensures Valid() && Digs() == [] && sign == Pos && weight == 0 && dscale == 0 && typemod == -1
      ensures !isOwn && fresh(buff)
    {
      typemod := -1;
      ndigits := 0;
      sign := Pos;
      dscale := 0;
      weight := 0;
      isOwn := false;
      buff := new int[0];
      start := 0;
    }

    method Init()
      modifies this
      ensures Valid() && Digs() == [] && sign == Pos && weight == 0 && dscale == 0 && typemod == -1
      ensures !isOwn && fresh(buff)
    {
      typemod := -1;
      ndigits := 0;
      sign := Pos;
      dscale := 0;
      weight := 0;
      isOwn := false;
      buff := new int[0];
      start := 0;
    }

    /** Drops leading and trailing zero digits; the number does not change. */
    method Strip()
      requires Valid()
      modifies this
      ensures Valid()
      ensures unchanged(`typemod) && unchanged(`dscale) && unchanged(`isOwn) && unchanged(`buff)
      ensures !isOwn ==> unchanged(this)
      ensures isOwn ==> Stripped()
      ensures isOwn && old(Room()) ==> Room()
      ensures Mag() == old(Mag())
      ensures sign == if isOwn && Mag() == 0.0 then Pos else old(sign)
    {
      hide N, Shift, Magnitude, IsDigits, RoomAt, AllZero;
      if !isOwn {
        return;
      }
      var digits, n, w := SkipLeading(buff, start, ndigits, weight);
      n := SkipTrailing(buff, digits, n, w);
      ghost var s := buff[..][digits..digits + n];
      MagnitudeStripped(s, w);
      if n == 0 {
        MagnitudeStripped(s, 0);
        sign, w := Pos, 0;
      }
      start, ndigits, weight := digits, n, w;
      assert Digs() == s;
    }

    method Clear()
      requires Finite()
      modifies this`ndigits, this`weight, this`sign
      ensures Finite() && ndigits == 0 && Digs() == [] && weight == 0 && sign == Pos && Mag() == 0.0
    {
      ndigits, weight, sign := 0, 0, Pos;
      MagnitudeNonNegative([], 0);
    }

    method SetScale(ds: int)
      requires Finite()
      modifies this`dscale
      ensures Finite() && dscale == ds && Digs() == old(Digs()) && Mag() == old(Mag())
    {
      hide Magnitude, IsDigits, CannotCarry;
      dscale := ds;
    }

    /** Points the record at m digits of its buffer from position st. */
    method Reframe(st: nat, m: nat, w: int)
      requires sign != Special && DigitsAt(buff[..], st, m) && RoomAt(buff[..], st, m)
      modifies this`start, this`ndigits, this`weight
      ensures Finite() && start == st && ndigits == m && weight == w && Digs() == buff[..][st..st + m]
    {
      hide IsDigits, CannotCarry;
      start, ndigits, weight := st, m, w;
    }

    method SetSign(s: Sign)
      requires Finite() && s != Special
      modifies this`sign
      ensures Finite() && sign == s && Mag() == old(Mag())
      ensures old(Stripped()) ==> (Stripped() <==> s == Pos || Mag() > 0.0)
    {
      hide N, Shift, Magnitude, IsDigits, RoomAt, AllZero;
      if Stripped() {
        MagnitudeStripped(Digs(), weight);
      }
      sign := s;
    }

    /** Takes over a freshly filled buffer whose first slot is the spare one. */
    method Install(res: array<int>, w: int, ds: int, sg: Sign)
      requires res.Length >= 1 && res[0] == 0 && IsDigits(res[1..]) && sg != Special
      modifies this
      ensures Owned() && typemod == old(typemod) && dscale == ds && buff == res && sign == sg
      ensures Digs() == res[1..] && weight == w && ndigits == res.Length - 1
    {
      hide N, Shift, Magnitude, IsDigits, CannotCarry, AllZero;
      ndigits, buff, start, weight, dscale, isOwn, sign := res.Length - 1, res, 1, w, ds, true, sg;
      assert buff[..][start..start + ndigits] == res[1..];
    }

    method Adopt(res: array<int>, w: int, ds: int)
      requires res.Length >= 1 && res[0] == 0 && IsDigits(res[1..])
      modifies this
      ensures Owned() && Stripped() && sign == Pos && typemod == -1 && dscale == ds && buff == res
      ensures Mag() == Magnitude(res[1..], w)
    {
      hide N, Shift, Magnitude, IsDigits, CannotCarry, AllZero;
      Init();
      Install(res, w, ds, Pos);
      Strip();
    }
  }
}
