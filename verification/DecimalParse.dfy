// Reading a decimal from text: the grammar, the bounds, and the value that is stored.
module DecimalParse {
  import opened Powers
  import opened Digits
  import opened Decimals
  import opened Compare
  import opened Arithmetic
  import opened Rounding
  import opened Typmod
  import opened DecimalText

  const MAX_DWEIGHT := 131072
  const MAX_PRECISION := 1000

  predicate IsDigitChar(c: char) {
    '0' <= c <= '9'
  }

  function DigitOf(c: char): (d: int)
    requires IsDigitChar(c)
    ensures 0 <= d < 10
  {
    c as int - '0' as int
  }

  /** Digits in front of and behind the point, and the text that follows. */
  datatype Mantissa = Mantissa(ints: seq<int>, fracs: seq<int>, rest: string) | Malformed

  function ScanMantissa(cs: string, dot: bool): Mantissa {
    if cs == "" then Mantissa([], [], "")
    else if IsDigitChar(cs[0]) then
      var m := ScanMantissa(cs[1..], dot);
      if m.Malformed? then m
      else if dot then m.(fracs := [DigitOf(cs[0])] + m.fracs)
      else m.(ints := [DigitOf(cs[0])] + m.ints)
    else if cs[0] == '.' then
      if dot then Malformed else ScanMantissa(cs[1..], true)
    else Mantissa([], [], cs)
  }

  predicate IsSpace(c: char) {
    c == ' ' || '\t' <= c <= '\r'
  }

  function SkipSpaces(cs: string): string {
    if cs != "" && IsSpace(cs[0]) then SkipSpaces(cs[1..]) else cs
  }

  /** The leading digits of cs as a number, read from n on. */
  function ScanNumber(cs: string, n: nat): nat {
    if cs != "" && IsDigitChar(cs[0]) then ScanNumber(cs[1..], 10 * n + DigitOf(cs[0])) else n
  }

  function SkipDigits(cs: string): string {
    if cs != "" && IsDigitChar(cs[0]) then SkipDigits(cs[1..]) else cs
  }

  datatype Exponent = Exponent(value: int, rest: string) | NoNumber

  /** An integer as strtoll reads it, without the clamping that no accepted exponent reaches. */
  function ScanExponent(cs: string): Exponent {
    var t := SkipSpaces(cs);
    var neg := t != "" && t[0] == '-';
    var u := if t != "" && (t[0] == '-' || t[0] == '+') then t[1..] else t;
    if u == "" || !IsDigitChar(u[0]) then NoNumber
    else Exponent(if neg then 0 - ScanNumber(u, 0) else ScanNumber(u, 0), SkipDigits(u))
  }

  datatype Parsed = Bad | Number(neg: bool, ints: seq<int>, fracs: seq<int>, exp: int)

  function Scale0(fracs: int, exp: int): int {
    if fracs - exp < 0 then 0 else fracs - exp
  }

  /** A numeral within the bounds. */
  function Bounded(neg: bool, ints: seq<int>, fracs: seq<int>, exp: int): Parsed {
    if |ints| - 1 + exp >= MAX_DWEIGHT || Scale0(|fracs|, exp) > MAX_DSCALE then Bad else Number(neg, ints, fracs, exp)
  }

  function Finish(neg: bool, m: Mantissa): Parsed {
    if m.Malformed? then Bad
    else if m.rest != "" && (m.rest[0] == 'e' || m.rest[0] == 'E') then
      var e := ScanExponent(m.rest[1..]);
      if e.NoNumber? || e.rest != "" || e.value > MAX_PRECISION || e.value < -MAX_PRECISION then Bad
      else Bounded(neg, m.ints, m.fracs, e.value)
    else if m.rest != "" then Bad
    else Bounded(neg, m.ints, m.fracs, 0)
  }

  /** What a text that is no special name denotes. */
  function Parse(cs: string): Parsed {
    var neg := cs != "" && cs[0] == '-';
    var t := if cs != "" && (cs[0] == '-' || cs[0] == '+') then cs[1..] else cs;
    var dot := t != "" && t[0] == '.';
    var u := if dot then t[1..] else t;
    if u == "" || !IsDigitChar(u[0]) then Bad else Finish(neg, ScanMantissa(u, dot))
  }

  /** Case-insensitive match against a lower-case name. */
  predicate Named(cs: string, name: string) {
    |cs| == |name| && forall i :: 0 <= i < |name| ==>
      cs[i] == name[i] || ('a' <= name[i] <= 'z' && cs[i] as int == name[i] as int - 32)
  }

  predicate IsSpecialName(cs: string) {
    Named(cs, "nan") || Named(cs, "min") || Named(cs, "max") || Named(cs, "inf") || Named(cs, "-inf")
  }

  function SpecialCode(cs: string): int {
    if Named(cs, "nan") then NAN else if Named(cs, "min") || Named(cs, "-inf") then MIN else MAX
  }

  /** m with digits put in front. */
  function Prepend(ints: seq<int>, fracs: seq<int>, m: Mantissa): Mantissa {
    if m.Malformed? then m else Mantissa(ints + m.ints, fracs + m.fracs, m.rest)
  }

  lemma ScanDigit(cs: string, dot: bool, ints: seq<int>, fracs: seq<int>)
    requires cs != "" && IsDigitChar(cs[0])
    ensures Prepend(ints, fracs, ScanMantissa(cs, dot)) ==
              if dot then Prepend(ints, fracs + [DigitOf(cs[0])], ScanMantissa(cs[1..], dot))
              else Prepend(ints + [DigitOf(cs[0])], fracs, ScanMantissa(cs[1..], dot))
  {
    var m, d := ScanMantissa(cs[1..], dot), DigitOf(cs[0]);
    if m.Mantissa? {
      assert ints + [d] + m.ints == ints + ([d] + m.ints) && fracs + [d] + m.fracs == fracs + ([d] + m.fracs);
    }
  }

  /** The mantissa is in place: its digits start at dec[4]. */
  ghost predicate Stored(dec: seq<int>, i: int, ints: seq<int>, fracs: seq<int>) {
    && 4 <= i <= |dec| && dec[4..i] == ints + fracs && i == 4 + |ints| + |fracs| && IsDec(ints + fracs)
  }

  /** Reads the digits and the point; fails on a second point and on absurdly many digits. */
  method ReadMantissa(value: string, cp0: nat, dot0: bool, dec: array<int>)
    returns (ok: bool, cp: nat, i: nat, dweight: int, dscale: int, ghost ints: seq<int>, ghost fracs: seq<int>)
    requires cp0 <= |value| && dec.Length >= |value| - cp0 + 8
    modifies dec
    ensures ok ==>
              && cp <= |value| && ScanMantissa(value[cp0..], dot0) == Mantissa(ints, fracs, value[cp..])
              && Stored(dec[..], i, ints, fracs) && dweight == |ints| - 1 && dscale == |fracs| && i + 4 <= dec.Length
    ensures forall k :: 0 <= k < 4 ==> dec[k] == old(dec[k])
    ensures !ok ==> forall neg :: Finish(neg, ScanMantissa(value[cp0..], dot0)) == Bad
  {
    hide ScanMantissa, Finish, IsDec;
    var have_dp := dot0;
    cp, i, dweight, dscale, ints, fracs := cp0, 4, -1, 0, [], [];
    ghost var all := ScanMantissa(value[cp0..], dot0);
    NothingRead(all);
    NothingStored(dec[..]);
    while cp < |value|
      invariant cp0 <= cp <= |value| && Stored(dec[..], i, ints, fracs) && i + |value| - cp + 4 <= dec.Length
      invariant dweight == |ints| - 1 && dscale == |fracs| && (!have_dp ==> fracs == [])
      invariant forall k :: 0 <= k < 4 ==> dec[k] == old(dec[k])
      invariant all == Prepend(ints, fracs, ScanMantissa(value[cp..], have_dp))
      invariant dweight <= MAX_DWEIGHT + MAX_PRECISION && dscale <= MAX_DSCALE + MAX_PRECISION
    {
      if IsDigitChar(value[cp]) {
        ScanDigit(value[cp..], have_dp, ints, fracs);
        assert value[cp..][1..] == value[cp + 1..];
        var d := DigitOf(value[cp]);
        StoreDigit(dec[..], i, ints, fracs, d, have_dp);
        dec[i] := d;
        i, cp := i + 1, cp + 1;
        if !have_dp {
          ints := ints + [d];
          dweight := dweight + 1;
          if dweight > MAX_DWEIGHT + MAX_PRECISION {
            TooLong(ints, fracs, all);
            return false, cp, i, dweight, dscale, ints, fracs;
          }
        } else {
          fracs := fracs + [d];
          dscale := dscale + 1;
          if dscale > MAX_DSCALE + MAX_PRECISION {
            TooLong(ints, fracs, all);
            return false, cp, i, dweight, dscale, ints, fracs;
          }
        }
      } else if value[cp] == '.' {
        PointRead(value[cp..], have_dp);
        assert value[cp..][1..] == value[cp + 1..];
        if have_dp {
          TooLong(ints, fracs, all);
          return false, cp, i, dweight, dscale, ints, fracs;
        }
        have_dp, cp := true, cp + 1;
      } else {
        break;
      }
    }
    Stops(value[cp..], have_dp, ints, fracs);
    ok := true;
  }

  lemma NothingStored(dec: seq<int>)
    requires |dec| >= 4
    ensures Stored(dec, 4, [], [])
  {
    assert dec[4..4] == [] + [];
  }

  lemma NothingRead(m: Mantissa)
    ensures Prepend([], [], m) == m && IsDec([])
  {
  }

  lemma StoreDigit(dec: seq<int>, i: nat, ints: seq<int>, fracs: seq<int>, d: int, dot: bool)
    requires Stored(dec, i, ints, fracs) && 0 <= d < 10 && i < |dec| && (!dot ==> fracs == [])
    ensures dot ==> Stored(dec[i := d], i + 1, ints, fracs + [d])
    ensures !dot ==> Stored(dec[i := d], i + 1, ints + [d], fracs)
  {
    assert dec[i := d][4..i + 1] == dec[4..i] + [d];
    assert ints + (fracs + [d]) == (ints + fracs) + [d];
    assert !dot ==> (ints + [d]) + fracs == (ints + fracs) + [d];
  }

  lemma PointRead(cs: string, dot: bool)
    requires cs != "" && cs[0] == '.'
    ensures ScanMantissa(cs, dot) == if dot then Malformed else ScanMantissa(cs[1..], true)
  {
  }

  lemma Stops(cs: string, dot: bool, ints: seq<int>, fracs: seq<int>)
    requires cs == "" || (!IsDigitChar(cs[0]) && cs[0] != '.')
    ensures Prepend(ints, fracs, ScanMantissa(cs, dot)) == Mantissa(ints, fracs, cs)
  {
  }

  /** Too many digits, or two points, cannot be repaired by an exponent. */
  lemma TooLong(ints: seq<int>, fracs: seq<int>, all: Mantissa)
    requires all.Malformed? || (|all.ints| >= |ints| && |all.fracs| >= |fracs|)
    requires all.Malformed? || |ints| - 1 > MAX_DWEIGHT + MAX_PRECISION || |fracs| > MAX_DSCALE + MAX_PRECISION
    ensures forall neg :: Finish(neg, all) == Bad
  {
  }

  /** Reads an integer the way strtoll does. */
  method ReadExponent(value: string, cp: nat) returns (found: bool, exponent: int, cp': nat)
    requires cp <= |value|
    ensures var e := ScanExponent(value[cp..]);
            if e.NoNumber? then !found else found && exponent == e.value && cp' <= |value| && value[cp'..] == e.rest
  {
    hide SkipSpaces, ScanNumber, SkipDigits;
    cp', exponent, found := cp, 0, false;
    while cp' < |value| && IsSpace(value[cp'])
      invariant cp <= cp' <= |value| && SkipSpaces(value[cp..]) == SkipSpaces(value[cp'..])
    {
      SpaceRead(value[cp'..]);
      assert value[cp'..][1..] == value[cp' + 1..];
      cp' := cp' + 1;
    }
    SpacesEnd(value[cp'..]);
    var neg := cp' < |value| && value[cp'] == '-';
    if cp' < |value| && (value[cp'] == '-' || value[cp'] == '+') {
      assert value[cp'..][1..] == value[cp' + 1..];
      cp' := cp' + 1;
    }
    if cp' == |value| || !IsDigitChar(value[cp']) {
      return;
    }
    found := true;
    ghost var u := value[cp'..];
    var n: nat := 0;
    while cp' < |value| && IsDigitChar(value[cp'])
      invariant cp <= cp' <= |value| && ScanNumber(u, 0) == ScanNumber(value[cp'..], n)
      invariant SkipDigits(u) == SkipDigits(value[cp'..])
    {
      DigitRead(value[cp'..], n);
      assert value[cp'..][1..] == value[cp' + 1..];
      n := 10 * n + DigitOf(value[cp']);
      cp' := cp' + 1;
    }
    DigitsEnd(value[cp'..], n);
    exponent := if neg then 0 - n else n;
  }

  lemma SpaceRead(cs: string)
    requires cs != "" && IsSpace(cs[0])
    ensures SkipSpaces(cs) == SkipSpaces(cs[1..])
  {
  }

  lemma SpacesEnd(cs: string)
    requires cs == "" || !IsSpace(cs[0])
    ensures SkipSpaces(cs) == cs
  {
  }

  lemma DigitRead(cs: string, n: nat)
    requires cs != "" && IsDigitChar(cs[0])
    ensures ScanNumber(cs, n) == ScanNumber(cs[1..], 10 * n + DigitOf(cs[0])) && SkipDigits(cs) == SkipDigits(cs[1..])
  {
  }

  lemma DigitsEnd(cs: string, n: nat)
    requires cs == "" || !IsDigitChar(cs[0])
    ensures ScanNumber(cs, n) == n && SkipDigits(cs) == cs
  {
  }

  /** The weight of the first base-10000 digit when the first decimal digit has weight dweight. */
  function WeightOf(dweight: int): int {
    if dweight >= 0 then (dweight + 1 + DEC_DIGITS - 1) / DEC_DIGITS - 1 else 0 - ((0 - dweight - 1) / DEC_DIGITS + 1)
  }

  lemma OffsetRange(dweight: int)
    ensures 0 <= 4 * (WeightOf(dweight) + 1) - (dweight + 1) < 4
    ensures dweight < MAX_DWEIGHT ==> WeightOf(dweight) < MAX_WEIGHT
  {
  }

  lemma {:induction false} DZeros(z: seq<int>, ds: seq<int>)
    requires AllZero(z)
    ensures D(z + ds) == D(ds) && D(z) == 0
  {
    hide D;
    if z == [] {
      assert z + ds == ds;
      DEmpty(z);
    } else {
      assert (z + ds)[1..] == z[1..] + ds;
      DDropZero(z + ds);
      DDropZero(z);
      DZeros(z[1..], ds);
    }
  }

  /** Zeros on either side only move the point. */
  lemma PaddedValue(z: seq<int>, ds: seq<int>, t: seq<int>, e: int)
    requires AllZero(z) && AllZero(t)
    ensures Shift(D(z + ds + t) as real, e) == Shift(D(ds) as real, e + |t|)
  {
    hide D, Shift;
    assert z + ds + t == z + (ds + t);
    DZeros(z, ds + t);
    DConcat(ds, t, e);
    DZeros(t, []);
    ShiftOrder(0.0, 0.0, e);
  }

  /** Packs four decimal digits at a time. */
  method Convert(dec: array<int>, start: nat, ndigits: nat) returns (res: array<int>)
    requires start + 4 * ndigits <= dec.Length && IsDec(dec[start..start + 4 * ndigits])
    ensures fresh(res) && res.Length == ndigits + 1 && res[0] == 0 && IsDigits(res[1..])
    ensures N(res[1..]) == D(dec[start..start + 4 * ndigits])
  {
    hide N, D;
    res := new int[ndigits + 1];
    res[0] := 0;
    var j, i := 0, start;
    ghost var all := dec[start..start + 4 * ndigits];
    NEmpty();
    DEmpty([]);
    assert res[1..1] == [] && all[..0] == [];
    while j < ndigits
      invariant 0 <= j <= ndigits && i == start + 4 * j && res[0] == 0
      invariant IsDigits(res[1..1 + j]) && N(res[1..1 + j]) == D(all[..4 * j])
    {
      assert dec[i] == all[4 * j] && dec[i + 1] == all[4 * j + 1] && dec[i + 2] == all[4 * j + 2] &&
             dec[i + 3] == all[4 * j + 3];
      var x := ((dec[i] * 10 + dec[i + 1]) * 10 + dec[i + 2]) * 10 + dec[i + 3];
      PackFour(res[1..1 + j], all, j, x);
      res[1 + j] := x;
      assert res[1..1 + (j + 1)] == res[1..1 + j] + [x];
      j, i := j + 1, i + DEC_DIGITS;
    }
    assert all[..4 * j] == all && res[1..1 + j] == res[1..];
  }

  lemma PackFour(s: seq<int>, all: seq<int>, j: nat, x: int)
    requires IsDigits(s) && IsDec(all) && 4 * j + 4 <= |all| && N(s) == D(all[..4 * j])
    requires x == ((all[4 * j] * 10 + all[4 * j + 1]) * 10 + all[4 * j + 2]) * 10 + all[4 * j + 3]
    ensures IsDigit(x) && IsDigits(s + [x]) && N(s + [x]) == D(all[..4 * (j + 1)])
  {
    hide N, D;
    var k := 4 * j;
    NAppend(s, x);
    DAppend(all[..k], all[k]);
    DAppend(all[..k + 1], all[k + 1]);
    DAppend(all[..k + 2], all[k + 2]);
    DAppend(all[..k + 3], all[k + 3]);
    assert all[..k + 1] == all[..k] + [all[k]] && all[..k + 2] == all[..k + 1] + [all[k + 1]];
    assert all[..k + 3] == all[..k + 2] + [all[k + 2]] && all[..k + 4] == all[..k + 3] + [all[k + 3]];
  }

  /** The rational a numeral denotes. */
  ghost function Denotes(ints: seq<int>, fracs: seq<int>, exp: int): real {
    Shift(D(ints + fracs) as real, exp - |fracs|)
  }

  /** The digits in front of the point count whole units, those behind it parts, and the exponent moves the point. */
  lemma DenotesParts(ints: seq<int>, fracs: seq<int>, exp: int)
    ensures Denotes(ints, fracs, exp) == Shift(D(ints) as real, exp) + Shift(D(fracs) as real, exp - |fracs|)
    ensures Scale0(|fracs|, exp) == if |fracs| > exp then |fracs| - exp else 0
  {
    hide D, Shift;
    DConcat(ints, fracs, exp - |fracs|);
  }

  /** The aligned window of digits has the numeral's value. */
  lemma AlignedValue(w: seq<int>, s: seq<int>, ints: seq<int>, fracs: seq<int>, exp: int, offset: nat)
    requires |w| == 4 * |s| && N(s) == D(w) && offset == 4 * (WeightOf(|ints| - 1 + exp) + 1) - (|ints| + exp)
    requires offset + |ints| + |fracs| <= |w| && w[offset..offset + |ints| + |fracs|] == ints + fracs
    requires AllZero(w[..offset]) && AllZero(w[offset + |ints| + |fracs|..])
    ensures Magnitude(s, WeightOf(|ints| - 1 + exp)) == Denotes(ints, fracs, exp)
  {
    hide N, D, Shift, WeightOf, AllZero;
    var n, weight := offset + |ints| + |fracs|, WeightOf(|ints| - 1 + exp);
    var z, t := w[..offset], w[n..];
    assert w == z + (ints + fracs) + t;
    PaddedValue(z, ints + fracs, t, 4 * (weight - |s| + 1));
  }

  lemma WeightBelow(s: seq<int>, w: int, top: int)
    requires IsDigits(s) && s != [] && s[0] != 0 && Magnitude(s, w) < Shift(1.0, 4 * (top + 1))
    ensures w <= top
  {
    hide N, Shift, Magnitude;
    MagnitudePeel(s, w);
    MagnitudeNonNegative(s[1..], w - 1);
    ShiftOrder(1.0, s[0] as real, 4 * w);
    if w > top {
      ShiftOneMonotone(4 * (top + 1), 4 * w);
    }
  }

  /** Fills the record from the decimal digits. */
  method Store(d: Decimal, dec: array<int>, i: nat, dweight: int, dscale: int, sign: Sign, ghost ints: seq<int>,
               ghost fracs: seq<int>, ghost exp: int)
    requires Stored(dec[..], i, ints, fracs) && i + 3 <= dec.Length && dweight == |ints| - 1 + exp && sign != Special
    requires forall k :: 0 <= k < 4 || i <= k < i + 3 ==> dec[k] == 0
    modifies d
    ensures d.Owned() && d.Stripped() && d.typemod == old(d.typemod) && d.dscale == dscale && fresh(d.buff)
    ensures d.Mag() == Denotes(ints, fracs, exp) && d.sign == (if d.Mag() == 0.0 then Pos else sign)
    ensures dweight < MAX_DWEIGHT ==> d.weight < MAX_WEIGHT
  {
    hide N, D, Shift, Magnitude, WeightOf, Denotes;
    OffsetRange(dweight);
    var weight := WeightOf(dweight);
    var offset := (weight + 1) * DEC_DIGITS - (dweight + 1);
    var ddigits := i - DEC_DIGITS;
    var ndigits := (ddigits + offset + DEC_DIGITS - 1) / DEC_DIGITS;
    ghost var w := dec[4 - offset..4 - offset + 4 * ndigits];
    WindowShape(dec[..], i, ints, fracs, offset, ndigits);
    var res := Convert(dec, DEC_DIGITS - offset, ndigits);
    AlignedValue(w, res[1..], ints, fracs, exp, offset);
    MagnitudeBound(res[1..], weight);
    d.Install(res, weight, dscale, sign);
    d.Strip();
    if d.ndigits != 0 {
      WeightBelow(d.Digs(), d.weight, weight);
    }
  }

  /** What lies in the window that is packed: the digits between zeros. */
  lemma WindowShape(dec: seq<int>, i: nat, ints: seq<int>, fracs: seq<int>, offset: nat, ndigits: nat)
    requires Stored(dec, i, ints, fracs) && i + 3 <= |dec| && offset < 4
    requires forall k :: 0 <= k < 4 || i <= k < i + 3 ==> dec[k] == 0
    requires ndigits == (i - 4 + offset + 3) / 4
    ensures 4 - offset + 4 * ndigits <= i + 3
    ensures var w := dec[4 - offset..4 - offset + 4 * ndigits];
            && IsDec(w) && |w| == 4 * ndigits && offset + |ints| + |fracs| <= |w|
            && w[offset..offset + |ints| + |fracs|] == ints + fracs
            && AllZero(w[..offset]) && AllZero(w[offset + |ints| + |fracs|..])
  {
    var w := dec[4 - offset..4 - offset + 4 * ndigits];
    var n := |ints| + |fracs|;
    forall k | 0 <= k < |w| ensures w[k] == dec[4 - offset + k] {
    }
    var mid := w[offset..offset + n];
    assert |mid| == |dec[4..i]| && forall k :: 0 <= k < n ==> mid[k] == w[offset + k] && dec[4..i][k] == dec[4 + k];
    assert mid == dec[4..i];
    forall k | 0 <= k < |w| ensures 0 <= w[k] < 10 {
      if offset <= k < offset + n {
        assert w[k] == (ints + fracs)[k - offset];
      }
    }
  }

  method SetSpecial(d: Decimal, code: int)
    modifies d
    ensures d.Valid() && IsSpecial(d.sign, d.dscale, code) && d.Digs() == [] && d.weight == 0
  {
    d.Init();
    d.sign, d.dscale := Special, code;
  }

  /** The numeral's value has no digit below the scale it is stored with. */
  lemma DenotesScaled(ints: seq<int>, fracs: seq<int>, exp: int)
    ensures IsInt(Shift(Denotes(ints, fracs, exp), Scale0(|fracs|, exp)))
  {
    hide Shift, D, IsInt;
    var n, e := D(ints + fracs), exp - |fracs|;
    ShiftShift(n as real, e, Scale0(|fracs|, exp));
    if e >= 0 {
      var m := ShiftInt(n, e);
      IntIs(m);
    } else {
      ShiftNone(n as real);
      IntIs(n);
    }
  }

  /** Scans a numeral: where its digits ended up, its weight and scale, or that it is not one. */
  method ScanNumeral(value: string, dec: array<int>, cp0: nat, dot: bool, neg: bool)
    returns (rc: int, i: nat, dweight: int, dscale: int, ghost p: Parsed)
    requires cp0 <= |value| && dec.Length >= |value| - cp0 + 8
    modifies dec
    ensures p == Finish(neg, ScanMantissa(value[cp0..], dot)) && rc == if p == Bad then -6 else 0
    ensures rc == 0 ==> p.neg == neg && Stored(dec[..], i, p.ints, p.fracs) && i + 4 <= dec.Length
    ensures rc == 0 ==>
              dweight == |p.ints| - 1 + p.exp < MAX_DWEIGHT && dscale == Scale0(|p.fracs|, p.exp) <= MAX_DSCALE
    ensures forall k :: 0 <= k < 4 ==> dec[k] == old(dec[k])
  {
    hide ScanMantissa, ScanExponent, Stored;
    rc := -6;
    var ok, cp;
    ghost var ints, fracs;
    ok, cp, i, dweight, dscale, ints, fracs := ReadMantissa(value, cp0, dot, dec);
    p := Finish(neg, ScanMantissa(value[cp0..], dot));
    if !ok {
      return;
    }
    if cp < |value| && (value[cp] == 'e' || value[cp] == 'E') {
      assert value[cp..][1..] == value[cp + 1..];
      var found, exponent, cp' := ReadExponent(value, cp + 1);
      if !found {
        return;
      }
      if exponent > MAX_PRECISION || exponent < -MAX_PRECISION {
        return;
      }
      cp := cp';
      dweight := dweight + exponent;
      dscale := dscale - exponent;
      if dscale < 0 {
        dscale := 0;
      }
    }
    if dweight >= MAX_DWEIGHT || dscale > MAX_DSCALE {
      return;
    }
    if cp < |value| {
      return;
    }
    rc := 0;
  }

  /** The answer for a rounded magnitude under a type modifier. */
  ghost function TypedRc(m: real, weight: int, typmod: int): int {
    if m >= Shift(1.0, Precision(typmod) - Scale(typmod)) then -10
    else if OutOfBound(weight, Scale(typmod)) then -6
    else 0
  }

  /** Reads a decimal. Without a type modifier it accepts exactly the bounded numerals, and stores their value. */
  method FromStr(value: string, d: Decimal) returns (rc: int)
    modifies d
    ensures IsSpecialName(value) ==>
              rc == 0 && d.Valid() && IsSpecial(d.sign, d.dscale, SpecialCode(value)) && d.Digs() == []
    ensures !IsSpecialName(value) && Parse(value) == Bad ==> rc == -6 && unchanged(d)
    ensures !IsSpecialName(value) && Parse(value) != Bad ==>
              var p := Parse(value);
              var v := Denotes(p.ints, p.fracs, p.exp);
              && d.Owned()
              && (old(d.typemod) == -1 ==>
                    && rc == 0 && WellFormed(d) && d.typemod == -1 && d.Mag() == v
                    && d.dscale == Scale0(|p.fracs|, p.exp)
                    && d.sign == (if v == 0.0 then Pos else if p.neg then Neg else Pos))
              && (old(d.typemod) != -1 ==>
                    && d.Mag() == RoundHalfUp(v, Scale(old(d.typemod))) && d.dscale == Scale(old(d.typemod))
                    && rc == TypedRc(d.Mag(), d.weight, old(d.typemod)))
  {
    hide ScanMantissa, Finish, Stored, Shift, Magnitude, Denotes, RoundHalfUp, RoundAway, Named, N, IsInt, IsStripped;
    if IsSpecialName(value) {
      SetSpecial(d, SpecialCode(value));
      return 0;
    }
    var cp, sign := 0, Pos;
    if |value| > 0 && (value[0] == '+' || value[0] == '-') {
      sign := if value[0] == '-' then Neg else Pos;
      cp := 1;
    }
    assert value[cp..] == if cp == 1 then value[1..] else value;
    var have_dp := cp < |value| && value[cp] == '.';
    if have_dp {
      assert value[cp..][1..] == value[cp + 1..];
      cp := cp + 1;
    }
    if cp == |value| || !IsDigitChar(value[cp]) {
      return -6;
    }
    var dec := new int[|value| - cp + 2 * DEC_DIGITS];
    forall k | 0 <= k < DEC_DIGITS { dec[k] := 0; }
    var i, dweight, dscale;
    ghost var p;
    rc, i, dweight, dscale, p := ScanNumeral(value, dec, cp, have_dp, sign == Neg);
    assert p == Parse(value);
    if rc != 0 {
      return;
    }
    rc := Complete(d, dec, i, dweight, dscale, sign, p);
  }

  /** Stores a scanned numeral, applies the type modifier and checks the bounds. */
  method Complete(d: Decimal, dec: array<int>, i: nat, dweight: int, dscale: int, sign: Sign, ghost p: Parsed)
    returns (rc: int)
    requires p.Number? && sign == (if p.neg then Neg else Pos) && Stored(dec[..], i, p.ints, p.fracs)
    requires i + 4 <= dec.Length
    requires dweight == |p.ints| - 1 + p.exp < MAX_DWEIGHT && dscale == Scale0(|p.fracs|, p.exp) <= MAX_DSCALE
    requires forall k :: 0 <= k < 4 ==> dec[k] == 0
    modifies d, dec
    ensures var v := Denotes(p.ints, p.fracs, p.exp);
            && d.Owned()
            && (old(d.typemod) == -1 ==>
                  && rc == 0 && WellFormed(d) && d.typemod == -1 && d.Mag() == v && d.dscale == Scale0(|p.fracs|, p.exp)
                  && d.sign == (if v == 0.0 then Pos else if p.neg then Neg else Pos))
            && (old(d.typemod) != -1 ==>
                  && d.Mag() == RoundHalfUp(v, Scale(old(d.typemod))) && d.dscale == Scale(old(d.typemod))
                  && rc == TypedRc(d.Mag(), d.weight, old(d.typemod)))
  {
    hide Stored, Shift, Magnitude, Denotes, RoundHalfUp, RoundAway, N, IsInt;
    ghost var digits := dec[..];
    forall k | i <= k < i + 3 { dec[k] := 0; }
    StaysStored(digits, dec[..], i, p.ints, p.fracs);
    Store(d, dec, i, dweight, dscale, sign, p.ints, p.fracs, p.exp);
    DenotesScaled(p.ints, p.fracs, p.exp);
    rc := ApplyTypmod(d, d.typemod);
    if rc != 0 {
      return;
    }
    if OutOfBound(d.weight, d.dscale) {
      rc := -6;
    }
  }

  lemma StaysStored(dec: seq<int>, dec': seq<int>, i: nat, ints: seq<int>, fracs: seq<int>)
    requires Stored(dec, i, ints, fracs) && |dec'| == |dec| && forall k :: 0 <= k < i ==> dec'[k] == dec[k]
    ensures Stored(dec', i, ints, fracs)
  {
    assert dec'[4..i] == dec[4..i];
  }
}
