// Printing a decimal into a caller's buffer of the promised length.
module DecimalPrint {
  import opened Powers
  import opened Digits
  import opened Decimals
  import opened Compare
  import opened DecimalText

  function DigitChar(d: int): char
    requires 0 <= d < 10
  {
    ('0' as int + d) as char
  }

  function Chars(ds: seq<int>): (cs: string)
    requires IsDec(ds)
    ensures |cs| == |ds| && forall i :: 0 <= i < |ds| ==> cs[i] == DigitChar(ds[i])
  {
    seq(|ds|, i requires 0 <= i < |ds| => DigitChar(ds[i]))
  }

  /** Sign, digits, and a point with the fraction if there is one. */
  function Text(neg: bool, ints: seq<int>, fracs: seq<int>): string
    requires IsDec(ints) && IsDec(fracs)
  {
    (if neg then "-" else "") + Chars(ints) + (if fracs == [] then "" else "." + Chars(fracs))
  }

  function SpecialText(dscale: int): string {
    if dscale == NAN then "NaN" else if dscale == MIN then "MIN" else "MAX"
  }

  predicate IsNamed(sign: Sign, dscale: int) {
    sign == Special && (dscale == NAN || dscale == MIN || dscale == MAX)
  }

  function TextOf(sign: Sign, s: seq<int>, weight: int, dscale: nat): string
    requires IsDigits(s)
  {
    if IsNamed(sign, dscale) then SpecialText(dscale)
    else Text(sign == Neg, IntPart(s, weight), FracPart(s, weight, dscale))
  }

  /** The buffer length that is promised to suffice. */
  function SprintLen(sign: Sign, weight: int, scale: int): int {
    if IsNamed(sign, scale) then 4
    else (if (weight + 1) * DEC_DIGITS <= 0 then 1 else (weight + 1) * DEC_DIGITS) + scale + DEC_DIGITS + 2
  }

  /** Writes digit d, if putit, behind the digits out that follow the text before. */
  method PutDigit(value: array<char>, cp: nat, d: int, putit: bool, ghost before: string, ghost out: seq<int>)
    returns (cp': nat, ghost out': seq<int>)
    requires 0 <= d < 10 && cp < value.Length && IsDec(out) && value[..cp] == before + Chars(out)
    modifies value
    ensures out' == (if putit then out + [d] else out) && IsDec(out')
    ensures cp' == cp + |out'| - |out| && value[..cp'] == before + Chars(out')
    ensures forall k :: cp' <= k < value.Length ==> value[k] == old(value[k])
  {
    cp', out' := cp, out;
    if putit {
      value[cp] := DigitChar(d);
      cp', out' := cp + 1, out + [d];
      assert value[..cp'] == value[..cp] + [DigitChar(d)];
    }
  }

  /** Writes four digits, the leading zeros left out unless putit. */
  method PutBlock(value: array<char>, cp: nat, dig: int, putit: bool, ghost before: string, ghost out: seq<int>)
    returns (cp': nat, ghost out': seq<int>)
    requires IsDigit(dig) && cp + 4 <= value.Length && IsDec(out) && value[..cp] == before + Chars(out)
    modifies value
    ensures out' == out + (if putit then Four(dig) else Short(dig)) && IsDec(out')
    ensures cp' == cp + |out'| - |out| && value[..cp'] == before + Chars(out')
    ensures forall k :: cp' <= k < value.Length ==> value[k] == old(value[k])
  {
    hide Chars, IsDec, Four, Short;
    var a, b, c, x := TakeOff(dig);
    var pa := putit || a > 0;
    var pb := pa || b > 0;
    var pc := pb || c > 0;
    ghost var o1, o2, o3;
    cp', o1 := PutDigit(value, cp, a, pa, before, out);
    cp', o2 := PutDigit(value, cp', b, pb, before, o1);
    cp', o3 := PutDigit(value, cp', c, pc, before, o2);
    cp', out' := PutDigit(value, cp', x, true, before, o3);
    Assembled(out, a, b, c, x, pa, pb, pc);
  }

  /** Takes the four digits off one by one. */
  method TakeOff(dig: int) returns (a: int, b: int, c: int, d: int)
    requires IsDigit(dig)
    ensures 0 <= a < 10 && 0 <= b < 10 && 0 <= c < 10 && 0 <= d < 10 && Four(dig) == [a, b, c, d]
    ensures Short(dig) == if a > 0 then [a, b, c, d] else if b > 0 then [b, c, d] else if c > 0 then [c, d] else [d]
  {
    d := dig;
    a := d / 1000;
    d := d - a * 1000;
    b := d / 100;
    d := d - b * 100;
    c := d / 10;
    d := d - c * 10;
  }

  /** Once one digit is put, all later ones are. */
  lemma Assembled(out: seq<int>, a: int, b: int, c: int, d: int, pa: bool, pb: bool, pc: bool)
    requires (pa ==> pb) && (pb ==> pc)
    ensures var o1 := if pa then out + [a] else out;
            var o2 := if pb then o1 + [b] else o1;
            var o3 := if pc then o2 + [c] else o2;
            o3 + [d] == out + if pa then [a, b, c, d] else if pb then [b, c, d] else if pc then [c, d] else [d]
  {
  }

  lemma DigitAt(s: seq<int>, d: int)
    requires IsDigits(s)
    ensures IsDigit(At(s, d))
  {
  }

  /** Writes the digits in front of the point. */
  method PutInt(value: array<char>, cp: nat, s: seq<int>, weight: int) returns (cp': nat)
    requires IsDigits(s) && cp + (if weight < 0 then 1 else 4 * (weight + 1)) <= value.Length
    modifies value
    ensures cp' == cp + |IntPart(s, weight)|
    ensures value[..cp'] == old(value[..cp]) + Chars(IntPart(s, weight))
    ensures forall k :: cp' <= k < value.Length ==> value[k] == old(value[k])
  {
    hide IsDigits, Spread, Short, Chars, IsDigit, IsDec;
    ghost var before, out := value[..cp], [];
    NoChars();
    assert before == before + Chars([]);
    if weight < 0 {
      cp', out := PutDigit(value, cp, 0, true, before, out);
      assert out == [0];
      return;
    }
    DigitAt(s, 0);
    cp', out := PutBlock(value, cp, At(s, 0), false, before, out);
    FirstBlock(s);
    var d := 1;
    while d <= weight
      invariant 1 <= d <= weight + 1 && cp' == cp + |out| && out == IntPart(s, d - 1) && IsDec(out)
      invariant value[..cp'] == before + Chars(out)
      invariant forall k :: cp' <= k < value.Length ==> value[k] == old(value[k])
    {
      OneMoreBlock(s, d);
      cp', out := PutBlock(value, cp', At(s, d), true, before, out);
      d := d + 1;
    }
  }

  lemma NoChars()
    ensures IsDec([]) && Chars([]) == ""
  {
  }

  lemma FirstBlock(s: seq<int>)
    requires IsDigits(s)
    ensures IsDigit(At(s, 0)) && IntPart(s, 0) == Short(At(s, 0)) == [] + Short(At(s, 0))
  {
  }

  lemma OneMoreBlock(s: seq<int>, d: nat)
    requires IsDigits(s) && d >= 1
    ensures IsDigit(At(s, d)) && IntPart(s, d) == IntPart(s, d - 1) + Four(At(s, d))
  {
    hide Spread, Short;
    SpreadAppend(Window(s, 1, d), At(s, d));
    assert Window(s, 1, d + 1) == Window(s, 1, d) + [At(s, d)];
  }

  /** Writes the point and whole blocks behind it, then cuts back to dscale digits. */
  method PutFrac(value: array<char>, cp: nat, s: seq<int>, weight: int, dscale: nat) returns (cp': nat)
    requires IsDigits(s) && dscale > 0 && cp + 1 + 4 * Blocks(dscale) <= value.Length
    modifies value
    ensures cp' == cp + 1 + dscale
    ensures value[..cp'] == old(value[..cp]) + ("." + Chars(FracPart(s, weight, dscale)))
    ensures forall k :: cp + 1 + 4 * Blocks(dscale) <= k < value.Length ==> value[k] == old(value[k])
  {
    hide IsDigits, Spread, Chars, IsDigit, IsDec, Window;
    ghost var before, out := value[..cp] + ".", [];
    value[cp] := '.';
    cp' := cp + 1;
    NoChars();
    assert value[..cp'] == before + Chars([]);
    var endcp := cp' + dscale;
    var d := weight + 1;
    var i := 0;
    ghost var n := 0;
    NoBlocks(s, weight + 1);
    while i < dscale
      invariant i == 4 * n && 0 <= n <= Blocks(dscale) && d == weight + 1 + n && cp' == cp + 1 + |out| && IsDec(out)
      invariant out == Spread(Window(s, weight + 1, weight + 1 + n)) && |out| == 4 * n
      invariant value[..cp'] == before + Chars(out)
      invariant forall k :: cp' <= k < value.Length ==> value[k] == old(value[k])
    {
      NextBlock(s, weight + 1, n);
      cp', out := PutBlock(value, cp', At(s, d), true, before, out);
      d, i, n := d + 1, i + DEC_DIGITS, n + 1;
    }
    // the blocks reach the end, so there is nothing left to fill up
    assert cp' >= endcp;
    FirstChars(out, dscale);
    assert value[..endcp] == value[..cp'][..endcp];
    cp' := endcp;
  }

  lemma NoBlocks(s: seq<int>, lo: int)
    requires IsDigits(s)
    ensures Spread(Window(s, lo, lo)) == []
  {
  }

  lemma NextBlock(s: seq<int>, lo: int, n: nat)
    requires IsDigits(s)
    ensures IsDigit(At(s, lo + n))
    ensures Spread(Window(s, lo, lo + n + 1)) == Spread(Window(s, lo, lo + n)) + Four(At(s, lo + n))
    ensures |Four(At(s, lo + n))| == 4
  {
    hide Spread;
    SpreadAppend(Window(s, lo, lo + n), At(s, lo + n));
    assert Window(s, lo, lo + n + 1) == Window(s, lo, lo + n) + [At(s, lo + n)];
  }

  lemma FirstChars(ds: seq<int>, k: nat)
    requires IsDec(ds) && k <= |ds|
    ensures IsDec(ds[..k]) && Chars(ds[..k]) == Chars(ds)[..k] && |Chars(ds)| == |ds|
  {
  }

  /** Writes the terminated text; the promised length always suffices. */
  method ToStr(d: Decimal, value: array<char>) returns (rc: int, ghost len: nat)
    requires d.Valid() && d.dscale >= 0
    modifies value
    ensures rc == if value.Length >= SprintLen(d.sign, d.weight, d.dscale) then 0 else -6
    ensures rc != 0 ==> unchanged(value)
    ensures rc == 0 ==>
              && len < SprintLen(d.sign, d.weight, d.dscale) && value[len] == '\0'
              && value[..len] == TextOf(d.sign, d.Digs(), d.weight, d.dscale)
    ensures forall k :: SprintLen(d.sign, d.weight, d.dscale) <= k < value.Length ==> value[k] == old(value[k])
  {
    hide IsDigits, TextOf, SprintLen;
    len := 0;
    if SprintLen(d.sign, d.weight, d.dscale) > value.Length {
      return -6, 0;
    }
    var cp := PutText(d, value);
    ghost var text := value[..cp];
    value[cp] := '\0';
    assert value[..cp] == text;
    rc, len := 0, cp;
  }

  /** Writes the name of a special value, or the number. */
  method PutText(d: Decimal, value: array<char>) returns (cp: nat)
    requires d.Valid() && d.dscale >= 0 && value.Length >= SprintLen(d.sign, d.weight, d.dscale)
    modifies value
    ensures cp < SprintLen(d.sign, d.weight, d.dscale) && value[..cp] == TextOf(d.sign, d.Digs(), d.weight, d.dscale)
    ensures forall k :: SprintLen(d.sign, d.weight, d.dscale) <= k < value.Length ==> value[k] == old(value[k])
  {
    hide IsDigits, TextOf, Text, IntPart, FracPart, SprintLen;
    LenIs(d.sign, d.weight, d.dscale);
    TextIs(d.sign, d.Digs(), d.weight, d.dscale);
    if IsNamed(d.sign, d.dscale) {
      cp := PutName(value, d.dscale);
    } else {
      cp := PutNumber(value, d.sign == Neg, d.Digs(), d.weight, d.dscale);
    }
  }

  lemma LenIs(sign: Sign, weight: int, scale: int)
    ensures SprintLen(sign, weight, scale) == if IsNamed(sign, scale) then 4 else SprintLen(Pos, weight, scale)
  {
  }

  lemma TextIs(sign: Sign, s: seq<int>, weight: int, dscale: nat)
    requires IsDigits(s)
    ensures TextOf(sign, s, weight, dscale) ==
              if IsNamed(sign, dscale) then SpecialText(dscale)
              else Text(sign == Neg, IntPart(s, weight), FracPart(s, weight, dscale))
  {
  }

  method PutName(value: array<char>, dscale: int) returns (cp: nat)
    requires value.Length >= 4
    modifies value
    ensures cp == 3 && value[..cp] == SpecialText(dscale)
    ensures forall k :: cp <= k < value.Length ==> value[k] == old(value[k])
  {
    value[0], value[1], value[2] := SpecialText(dscale)[0], SpecialText(dscale)[1], SpecialText(dscale)[2];
    cp := 3;
  }

  /** Sign, digits in front of the point, and the fraction. */
  method PutNumber(value: array<char>, neg: bool, s: seq<int>, weight: int, dscale: nat) returns (cp: nat)
    requires IsDigits(s) && value.Length >= SprintLen(Pos, weight, dscale)
    modifies value
    ensures cp < SprintLen(Pos, weight, dscale)
    ensures value[..cp] == Text(neg, IntPart(s, weight), FracPart(s, weight, dscale))
    ensures forall k :: SprintLen(Pos, weight, dscale) <= k < value.Length ==> value[k] == old(value[k])
  {
    hide IsDigits, IntPart, FracPart, Chars, IsDec;
    cp := 0;
    if neg {
      value[0] := '-';
      cp := 1;
    }
    assert value[..cp] == if neg then "-" else "";
    cp := PutInt(value, cp, s, weight);
    NoFraction(s, weight, dscale);
    if dscale > 0 {
      cp := PutFrac(value, cp, s, weight, dscale);
    }
  }

  lemma NoFraction(s: seq<int>, weight: int, dscale: nat)
    requires IsDigits(s)
    ensures IsDec(FracPart(s, weight, dscale)) && (FracPart(s, weight, dscale) == [] <==> dscale == 0)
  {
  }
}
