// The numerals that reading accepts, spelled out character by character, and the special names.
module DecimalGrammar {
  import opened Digits
  import opened Decimals
  import opened Compare
  import opened DecimalText
  import opened DecimalPrint
  import opened DecimalParse
  import opened DecimalRoundTrip

  /** The parts of a numeral: sign, digits, point, digits, and an exponent with its mark, spaces, sign and digits. */
  datatype Numeral = Numeral(sign: string, ints: seq<int>, pointed: bool, fracs: seq<int>,
                             mark: string, spaces: string, esign: string, eds: seq<int>)

  predicate IsSign(s: string) {
    s == "" || s == "+" || s == "-"
  }

  predicate IsBlank(s: string) {
    forall i :: 0 <= i < |s| ==> s[i] in " \t\n\r" || s[i] as int == 11 || s[i] as int == 12
  }

  /** At least one digit, digits behind the point only if there is one, and an exponent with digits if there is a
      mark. */
  predicate Proper(n: Numeral) {
    && IsSign(n.sign) && IsDec(n.ints) && IsDec(n.fracs) && (!n.pointed ==> n.fracs == [])
    && (n.ints != [] || n.fracs != [])
    && (if n.mark == "" then n.spaces == "" && n.esign == "" && n.eds == [] else n.mark == "e" || n.mark == "E")
    && (n.mark != "" ==> IsBlank(n.spaces) && IsSign(n.esign) && n.eds != []) && IsDec(n.eds)
  }

  function Spelled(n: Numeral): string
    requires Proper(n)
  {
    n.sign + (Chars(n.ints) + (Fraction(n) + Power(n)))
  }

  function Fraction(n: Numeral): string
    requires Proper(n)
  {
    if n.pointed then "." + Chars(n.fracs) else ""
  }

  function Power(n: Numeral): string
    requires Proper(n)
  {
    n.mark + (n.spaces + (n.esign + Chars(n.eds)))
  }

  function ExponentOf(n: Numeral): int {
    if n.esign == "-" then -D(n.eds) else D(n.eds)
  }

  /** At most 131072 digits in front of the point, 16383 behind it, and an exponent of at most 1000 either way. */
  predicate InLimits(n: Numeral) {
    var e := ExponentOf(n);
    -1000 <= e <= 1000 && |n.ints| + e <= 131072 && |n.fracs| - e <= 16383
  }

  // Every spelling is read as what it spells.

  lemma BlankIsSpace(c: char)
    ensures IsSpace(c) <==> c in " \t\n\r" || c as int == 11 || c as int == 12
  {
  }

  lemma {:induction false} SkipBlank(s: string, t: string)
    requires IsBlank(s) && (t == "" || !IsSpace(t[0]))
    ensures SkipSpaces(s + t) == t
  {
    if s == "" {
      assert s + t == t;
    } else {
      BlankIsSpace(s[0]);
      assert (s + t)[1..] == s[1..] + t;
      SkipBlank(s[1..], t);
    }
  }

  lemma {:induction false} ScanNumberIs(front: seq<int>, ds: seq<int>)
    requires IsDec(front) && IsDec(ds) && D(front) >= 0
    ensures ScanNumber(Chars(ds), D(front)) == D(front + ds) && SkipDigits(Chars(ds)) == ""
    decreases |ds|
  {
    hide D;
    if ds == [] {
      assert front + ds == front;
    } else {
      CharIsDigit(ds[0]);
      DAppend(front, ds[0]);
      assert Chars(ds)[1..] == Chars(ds[1..]) && front + [ds[0]] + ds[1..] == front + ds;
      ScanNumberIs(front + [ds[0]], ds[1..]);
    }
  }

  lemma ScanSigned(cs: string, esign: string, u: string)
    requires SkipSpaces(cs) == esign + u && IsSign(esign) && u != "" && IsDigitChar(u[0])
    ensures ScanExponent(cs) ==
              Exponent(if esign == "-" then 0 - ScanNumber(u, 0) else ScanNumber(u, 0), SkipDigits(u))
  {
    hide SkipSpaces, ScanNumber, SkipDigits;
    DigitIsNoSign();
    BehindSign(esign, u);
  }

  lemma ScanPower(spaces: string, esign: string, eds: seq<int>)
    requires IsBlank(spaces) && IsSign(esign) && IsDec(eds) && eds != []
    ensures ScanExponent(spaces + (esign + Chars(eds))) == Exponent(if esign == "-" then -D(eds) else D(eds), "")
  {
    hide SkipSpaces, ScanNumber, SkipDigits, ScanExponent, D, IsBlank, IsDec;
    var u := Chars(eds);
    FirstChar(eds);
    BehindSign(esign, u);
    NoBlankAhead(esign, u);
    SkipBlank(spaces, esign + u);
    ScanSigned(spaces + (esign + u), esign, u);
    NoneRead();
    assert [] + eds == eds;
    ScanNumberIs([], eds);
  }

  lemma FirstChar(ds: seq<int>)
    requires IsDec(ds) && ds != []
    ensures Chars(ds) != "" && IsDigitChar(Chars(ds)[0])
  {
    CharIsDigit(ds[0]);
  }

  lemma NoneRead()
    ensures D([]) == 0 && IsDec([])
  {
  }

  lemma NoBlankAhead(esign: string, u: string)
    requires IsSign(esign) && u != "" && IsDigitChar(u[0])
    ensures esign + u != "" && !IsSpace((esign + u)[0])
  {
  }

  lemma NothingScanned(rest: string, dot: bool)
    requires rest == "" || rest[0] in "eE"
    ensures ScanMantissa(rest, dot) == Mantissa([], [], rest)
  {
  }

  /** The digits and the point are scanned as they were spelled. */
  lemma ScanSpelled(n: Numeral)
    requires Proper(n)
    ensures ScanMantissa(Chars(n.ints) + (Fraction(n) + Power(n)), false) == Mantissa(n.ints, n.fracs, Power(n))
    ensures n.pointed ==> ScanMantissa(Chars(n.fracs) + Power(n), true) == Mantissa([], n.fracs, Power(n))
  {
    hide ScanMantissa, Power, IsDec;
    var p := Power(n);
    NoExponentDigit(n);
    if n.pointed {
      ScanPointed(n.ints, n.fracs, p);
      assert Fraction(n) + p == "." + Chars(n.fracs) + p;
    } else {
      ScanWhole(n.ints, p);
      assert Fraction(n) + p == p;
    }
  }

  lemma NoExponentDigit(n: Numeral)
    requires Proper(n)
    ensures Power(n) == "" || Power(n)[0] in "eE"
  {
    assert n.mark == "" ==> Chars(n.eds) == "";
  }

  lemma ScanWhole(ints: seq<int>, p: string)
    requires IsDec(ints) && (p == "" || p[0] in "eE")
    ensures ScanMantissa(Chars(ints) + p, false) == Mantissa(ints, [], p)
  {
    hide ScanMantissa;
    NothingScanned(p, false);
    ScanChars(ints, p, false);
    assert ints + [] == ints;
  }

  lemma ScanPointed(ints: seq<int>, fracs: seq<int>, p: string)
    requires IsDec(ints) && IsDec(fracs) && (p == "" || p[0] in "eE")
    ensures ScanMantissa(Chars(fracs) + p, true) == Mantissa([], fracs, p)
    ensures ScanMantissa(Chars(ints) + ("." + Chars(fracs) + p), false) == Mantissa(ints, fracs, p)
  {
    hide ScanMantissa;
    NothingScanned(p, true);
    ScanChars(fracs, p, true);
    assert fracs + [] == fracs;
    var tail := "." + Chars(fracs) + p;
    assert tail[1..] == Chars(fracs) + p;
    PointRead(tail, false);
    ScanChars(ints, tail, false);
    assert ints + [] == ints && [] + fracs == fracs;
  }

  lemma FinishSpelled(n: Numeral, neg: bool)
    requires Proper(n)
    ensures Finish(neg, Mantissa(n.ints, n.fracs, Power(n))) ==
              if InLimits(n) then Number(neg, n.ints, n.fracs, ExponentOf(n)) else Bad
  {
    hide ScanExponent, D;
    if n.mark != "" {
      ScanPower(n.spaces, n.esign, n.eds);
      assert Power(n)[1..] == n.spaces + (n.esign + Chars(n.eds));
    } else {
      DEmpty(n.eds);
    }
  }

  /** The text behind the sign starts with a digit, or with a point and a digit. */
  lemma FirstSpelled(n: Numeral)
    requires Proper(n)
    ensures var t := Chars(n.ints) + (Fraction(n) + Power(n));
            if n.ints != [] then t != "" && IsDigitChar(t[0])
            else |t| >= 2 && t[0] == '.' && IsDigitChar(t[1]) && t[1..] == Chars(n.fracs) + Power(n)
  {
    if n.ints != [] {
      CharIsDigit(n.ints[0]);
    } else {
      CharIsDigit(n.fracs[0]);
      assert Chars(n.ints) == "";
      var t := Fraction(n) + Power(n);
      assert t[1..] == Chars(n.fracs) + Power(n);
    }
  }

  /** Every numeral within the limits is read as its sign, digits and exponent; every other one is refused. */
  lemma ParseSpelled(n: Numeral)
    requires Proper(n)
    ensures Parse(Spelled(n)) ==
              if InLimits(n) then Number(n.sign == "-", n.ints, n.fracs, ExponentOf(n)) else Bad
    ensures !IsSpecialName(Spelled(n))
  {
    hide ScanMantissa, Finish, Fraction, Power, Chars, InLimits;
    var t := Chars(n.ints) + (Fraction(n) + Power(n));
    ScanSpelled(n);
    FinishSpelled(n, n.sign == "-");
    FirstSpelled(n);
    BehindSign(n.sign, t);
    DigitIsNoSign();
    NumeralIsNoName(n.sign, t);
  }

  lemma DigitIsNoSign()
    ensures !IsDigitChar('.') && !IsDigitChar('-') && !IsDigitChar('+')
  {
  }

  lemma BehindSign(sign: string, t: string)
    requires IsSign(sign) && t != ""
    ensures sign + t != "" && (sign == "" ==> sign + t == t)
    ensures sign != "" ==> (sign + t)[0] == sign[0] && (sign + t)[1..] == t
  {
  }

  lemma NumeralIsNoName(sign: string, t: string)
    requires IsSign(sign) && t != "" && (IsDigitChar(t[0]) || t[0] == '.')
    ensures !IsSpecialName(sign + t)
  {
    BehindSign(sign, t);
    var cs := sign + t;
    assert sign != "" ==> cs[1] == t[0];
  }

  // Nothing else is read.

  lemma Unchar(c: char) returns (d: int)
    requires IsDigitChar(c)
    ensures 0 <= d < 10 && DigitChar(d) == c && DigitOf(c) == d
  {
    d := DigitOf(c);
  }

  lemma CharsCons(d: int, ds: seq<int>, rest: string)
    requires 0 <= d < 10 && IsDec(ds)
    ensures IsDec([d] + ds) && Chars([d] + ds) + rest == [DigitChar(d)] + (Chars(ds) + rest)
  {
    assert Chars([d] + ds) == [DigitChar(d)] + Chars(ds);
  }

  /** What was scanned is how the text began. */
  lemma {:induction false} Unscan(u: string, dot: bool) returns (pointed: bool)
    requires ScanMantissa(u, dot).Mantissa?
    ensures var m := ScanMantissa(u, dot);
            && IsDec(m.ints) && IsDec(m.fracs) && (m.rest == "" || !(IsDigitChar(m.rest[0]) || m.rest[0] == '.'))
            && (dot ==> m.ints == [] && u == Chars(m.fracs) + m.rest)
            && (!dot && pointed ==> u == Chars(m.ints) + ("." + Chars(m.fracs) + m.rest))
            && (!dot && !pointed ==> m.fracs == [] && u == Chars(m.ints) + m.rest)
    decreases |u|
  {
    var m := ScanMantissa(u, dot);
    pointed := false;
    if u != "" && IsDigitChar(u[0]) {
      var d := Unchar(u[0]);
      pointed := Unscan(u[1..], dot);
      var m' := ScanMantissa(u[1..], dot);
      assert u == [DigitChar(d)] + u[1..];
      CharsCons(d, m'.fracs, m.rest);
      CharsCons(d, m'.ints, m.rest);
      CharsCons(d, m'.ints, "." + Chars(m'.fracs) + m.rest);
    } else if u != "" && u[0] == '.' {
      var b := Unscan(u[1..], true);
      pointed := true;
      assert u == "." + u[1..] && u == Chars([]) + ("." + Chars(m.fracs) + m.rest);
    } else {
      assert u == Chars([]) + m.rest;
    }
  }

  lemma {:induction false} Unblank(s: string) returns (spaces: string)
    ensures IsBlank(spaces) && s == spaces + SkipSpaces(s)
  {
    if s != "" && IsSpace(s[0]) {
      BlankIsSpace(s[0]);
      var t := Unblank(s[1..]);
      spaces := [s[0]] + t;
      assert s == [s[0]] + s[1..] && spaces + SkipSpaces(s) == [s[0]] + (t + SkipSpaces(s));
    } else {
      spaces := "";
    }
  }

  lemma {:induction false} Undigits(u: string) returns (ds: seq<int>)
    requires SkipDigits(u) == ""
    ensures IsDec(ds) && u == Chars(ds)
  {
    if u == "" {
      ds := [];
    } else {
      var d := Unchar(u[0]);
      var t := Undigits(u[1..]);
      ds := [d] + t;
      CharsCons(d, t, "");
      assert u == [u[0]] + u[1..] && Chars(t) + "" == Chars(t) && Chars(ds) + "" == Chars(ds);
    }
  }

  lemma Unpower(cs: string) returns (spaces: string, esign: string, eds: seq<int>)
    requires ScanExponent(cs).Exponent? && ScanExponent(cs).rest == ""
    ensures IsBlank(spaces) && IsSign(esign) && IsDec(eds) && eds != [] && cs == spaces + (esign + Chars(eds))
  {
    hide SkipSpaces, SkipDigits, ScanNumber;
    spaces := Unblank(cs);
    var t := SkipSpaces(cs);
    esign := if t[0] == '-' then "-" else if t[0] == '+' then "+" else "";
    var u := if esign != "" then t[1..] else t;
    assert t == esign + u;
    eds := Undigits(u);
  }

  /** Splits the text at its sign. */
  lemma Unsign(cs: string) returns (sign: string, t: string)
    ensures IsSign(sign) && cs == sign + t
    ensures t == if cs != "" && (cs[0] == '-' || cs[0] == '+') then cs[1..] else cs
    ensures sign == "-" <==> cs != "" && cs[0] == '-'
  {
    sign := if cs != "" && cs[0] == '-' then "-" else if cs != "" && cs[0] == '+' then "+" else "";
    t := if cs != "" && (cs[0] == '-' || cs[0] == '+') then cs[1..] else cs;
  }

  /** A finished mantissa is followed by nothing or by an exponent. */
  lemma Unfinish(neg: bool, m: Mantissa) returns (mark: string, spaces: string, esign: string, eds: seq<int>)
    requires Finish(neg, m) != Bad
    ensures m.Mantissa? && IsDec(eds) && m.rest == mark + (spaces + (esign + Chars(eds)))
    ensures if mark == "" then spaces == "" && esign == "" && eds == [] else mark == "e" || mark == "E"
    ensures mark != "" ==> IsBlank(spaces) && IsSign(esign) && eds != []
  {
    hide ScanExponent;
    if m.rest == "" {
      mark, spaces, esign, eds := "", "", "", [];
    } else {
      mark := [m.rest[0]];
      spaces, esign, eds := Unpower(m.rest[1..]);
      assert m.rest == mark + m.rest[1..];
    }
  }

  /** Whatever is read is a numeral within the limits. */
  lemma ParsedIsSpelled(cs: string) returns (n: Numeral)
    requires Parse(cs) != Bad
    ensures Proper(n) && InLimits(n) && cs == Spelled(n)
  {
    hide ScanMantissa, Finish, Chars, InLimits, ScanExponent, IsDec, IsBlank, DigitOf;
    var sign, t := Unsign(cs);
    var dot := t[0] == '.';
    var u := if dot then t[1..] else t;
    var m := ScanMantissa(u, dot);
    var mark, spaces, esign, eds := Unfinish(sign == "-", m);
    var pointed := Unscan(u, dot);
    n := Numeral(sign, m.ints, dot || pointed, m.fracs, mark, spaces, esign, eds);
    SomeDigit(u, m, dot, pointed);
    Together(n, t, u, m, dot);
    ParseSpelled(n);
  }

  /** The first character is a digit, so some digit was scanned. */
  lemma SomeDigit(u: string, m: Mantissa, dot: bool, pointed: bool)
    requires u != "" && IsDigitChar(u[0]) && m.Mantissa? && IsDec(m.ints) && IsDec(m.fracs)
    requires m.rest == "" || !(IsDigitChar(m.rest[0]) || m.rest[0] == '.')
    requires dot ==> u == Chars(m.fracs) + m.rest
    requires !dot ==> u == Chars(m.ints) + (if pointed then "." + Chars(m.fracs) + m.rest else m.rest)
    ensures if dot then m.fracs != [] else m.ints != []
  {
    DigitIsNoSign();
    var tail := if pointed then "." + Chars(m.fracs) + m.rest else m.rest;
    assert m.fracs == [] ==> Chars(m.fracs) + m.rest == m.rest;
    assert m.ints == [] ==> Chars(m.ints) + tail == tail;
  }

  lemma Together(n: Numeral, t: string, u: string, m: Mantissa, dot: bool)
    requires Proper(n) && m.Mantissa? && n.ints == m.ints && n.fracs == m.fracs && m.rest == Power(n) && t != ""
    requires dot ==> n.pointed && n.ints == [] && t[0] == '.' && u == t[1..] && u == Chars(m.fracs) + m.rest
    requires !dot ==>
               u == t && u == Chars(m.ints) + (if n.pointed then "." + Chars(m.fracs) + m.rest else m.rest)
    ensures t == Chars(n.ints) + (Fraction(n) + Power(n))
  {
    if dot {
      assert Chars([]) == "";
      assert t == "." + u && "." + (Chars(m.fracs) + m.rest) == "." + Chars(m.fracs) + m.rest;
    }
  }

  // Special names.

  function Lower(cs: string): (t: string)
    ensures |t| == |cs|
  {
    seq(|cs|, i requires 0 <= i < |cs| => if 'A' <= cs[i] <= 'Z' then (cs[i] as int + 32) as char else cs[i])
  }

  lemma NamedIsLower(cs: string, name: string)
    requires forall i :: 0 <= i < |name| ==> !('A' <= name[i] <= 'Z')
    ensures Named(cs, name) <==> Lower(cs) == name
  {
    if Named(cs, name) {
      forall i | 0 <= i < |cs| ensures Lower(cs)[i] == name[i] {
      }
    }
    if Lower(cs) == name {
      forall i | 0 <= i < |name|
        ensures cs[i] == name[i] || ('a' <= name[i] <= 'z' && cs[i] as int == name[i] as int - 32)
      {
        assert Lower(cs)[i] == name[i];
      }
    }
  }

  /** The special names are nan, min, -inf, max and inf in any case, for NaN, MIN, MIN, MAX and MAX. */
  lemma SpecialNames(cs: string)
    ensures IsSpecialName(cs) <==> Lower(cs) in {"nan", "min", "-inf", "max", "inf"}
    ensures Lower(cs) == "nan" ==> SpecialCode(cs) == NAN
    ensures Lower(cs) == "min" || Lower(cs) == "-inf" ==> SpecialCode(cs) == MIN
    ensures Lower(cs) == "max" || Lower(cs) == "inf" ==> SpecialCode(cs) == MAX
  {
    hide Named, Lower;
    NamedIsLower(cs, "nan"); NamedIsLower(cs, "min"); NamedIsLower(cs, "max"); NamedIsLower(cs, "inf");
    NamedIsLower(cs, "-inf");
    assert "nan"[0] == 'n' && "min"[0] == 'm' && "max"[0] == 'm' && "inf"[0] == 'i' && "-inf"[0] == '-';
    assert "min"[1] == 'i' && "max"[1] == 'a';
  }

  /** The ten digits, and the names that are printed. */
  lemma CharactersUsed()
    ensures Chars([0, 1, 2, 3, 4, 5, 6, 7, 8, 9]) == "0123456789"
    ensures SpecialText(NAN) == "NaN" && SpecialText(MIN) == "MIN" && SpecialText(MAX) == "MAX"
  {
  }

  /** Printed text is the sign, the digits in front of the point and, if there are any, a point and the digits behind
      it. */
  lemma PrintedIsSpelled(neg: bool, ints: seq<int>, fracs: seq<int>)
    requires IsDec(ints) && IsDec(fracs) && ints != []
    ensures var n := Numeral(if neg then "-" else "", ints, fracs != [], fracs, "", "", "", []);
            Proper(n) && Text(neg, ints, fracs) == Spelled(n)
  {
    assert Chars([]) == "";
  }

  /** The promised length holds the text and its terminator, with room to spare for four more characters but not ten. */
  lemma PromisedLength(sign: Sign, s: seq<int>, weight: int, dscale: nat)
    requires IsDigits(s) && !IsNamed(sign, dscale)
    ensures |TextOf(sign, s, weight, dscale)| + 5 <= SprintLen(sign, weight, dscale) + 1
    ensures SprintLen(sign, weight, dscale) <= |TextOf(sign, s, weight, dscale)| + 10
  {
    hide IntPart, FracPart;
    NoLeadingZero(s, weight);
    IntLength(s, weight);
  }

  lemma IntLength(s: seq<int>, weight: int)
    requires IsDigits(s)
    ensures weight < 0 ==> |IntPart(s, weight)| == 1
  {
  }
}
