// Printing and reading back.
module DecimalRoundTrip {
  import opened Powers
  import opened Digits
  import opened Decimals
  import opened Compare
  import opened Arithmetic
  import opened DecimalText
  import opened DecimalPrint
  import opened DecimalParse

  lemma CharIsDigit(d: int)
    requires 0 <= d < 10
    ensures IsDigitChar(DigitChar(d)) && DigitOf(DigitChar(d)) == d && DigitChar(d) !in ".-+\0"
  {
  }

  /** A run of digits is read back as those digits. */
  lemma {:induction false} ScanChars(ds: seq<int>, rest: string, dot: bool)
    requires IsDec(ds)
    ensures ScanMantissa(Chars(ds) + rest, dot) ==
              if dot then Prepend([], ds, ScanMantissa(rest, dot)) else Prepend(ds, [], ScanMantissa(rest, dot))
    decreases |ds|
  {
    hide ScanMantissa;
    if ds == [] {
      assert Chars(ds) + rest == rest;
      NothingRead(ScanMantissa(rest, dot));
    } else {
      var t, cs := ds[1..], Chars(ds) + rest;
      assert cs[1..] == Chars(t) + rest && cs[0] == DigitChar(ds[0]);
      CharIsDigit(ds[0]);
      ScanDigit(cs, dot, [], []);
      NothingRead(ScanMantissa(cs, dot));
      ScanChars(t, rest, dot);
      Prepended(ds[0], t, ScanMantissa(rest, dot));
      assert ds == [ds[0]] + t && [] + [ds[0]] == [ds[0]];
    }
  }

  lemma Prepended(d: int, t: seq<int>, m: Mantissa)
    ensures Prepend([d], [], Prepend(t, [], m)) == Prepend([d] + t, [], m)
    ensures Prepend([], [d], Prepend([], t, m)) == Prepend([], [d] + t, m)
  {
    if m.Mantissa? {
      assert [d] + (t + m.ints) == [d] + t + m.ints && [d] + (t + m.fracs) == [d] + t + m.fracs;
    }
  }

  lemma ScanEmpty(dot: bool)
    ensures ScanMantissa("", dot) == Mantissa([], [], "")
  {
  }

  /** The digits of a printed number are scanned as they were written. */
  lemma ScanPrinted(ints: seq<int>, fracs: seq<int>)
    requires IsDec(ints) && IsDec(fracs)
    ensures ScanMantissa(Chars(ints) + (if fracs == [] then "" else "." + Chars(fracs)), false) ==
              Mantissa(ints, fracs, "")
  {
    hide ScanMantissa;
    ScanEmpty(false);
    ScanEmpty(true);
    if fracs == [] {
      ScanChars(ints, "", false);
    } else {
      var tail := "." + Chars(fracs);
      ScanChars(ints, tail, false);
      PointRead(tail, false);
      assert tail[1..] == Chars(fracs) + "";
      ScanChars(fracs, "", true);
      assert ints + [] == ints && [] + fracs == fracs;
    }
  }

  /** A printed number is no special name: its first character after the sign is a digit. */
  lemma NoSpecialName(cs: string, neg: bool)
    requires if neg then |cs| >= 2 && cs[0] == '-' && IsDigitChar(cs[1]) else |cs| >= 1 && IsDigitChar(cs[0])
    ensures !IsSpecialName(cs)
  {
  }

  /** Behind an optional minus sign, a text that starts with a digit is scanned from that digit on. */
  lemma ParseFromDigit(neg: bool, u: string)
    requires u != "" && IsDigitChar(u[0]) && u[0] !in ".-+"
    ensures Parse((if neg then "-" else "") + u) == Finish(neg, ScanMantissa(u, false))
  {
    hide ScanMantissa, Finish;
    assert neg ==> ("-" + u)[1..] == u;
    assert "" + u == u;
  }

  /** A printed number parses to its own digits. */
  lemma ParsePrinted(neg: bool, ints: seq<int>, fracs: seq<int>)
    requires IsDec(ints) && IsDec(fracs) && ints != [] && |ints| - 1 < MAX_DWEIGHT && |fracs| <= MAX_DSCALE
    ensures !IsSpecialName(Text(neg, ints, fracs)) && Parse(Text(neg, ints, fracs)) == Number(neg, ints, fracs, 0)
  {
    hide ScanMantissa, IsSpecialName, Parse;
    var u := Chars(ints) + (if fracs == [] then "" else "." + Chars(fracs));
    ScanPrinted(ints, fracs);
    CharIsDigit(ints[0]);
    assert u[0] == DigitChar(ints[0]) && u != "";
    assert Text(neg, ints, fracs) == (if neg then "-" else "") + u;
    ParseFromDigit(neg, u);
    NoSpecialName(Text(neg, ints, fracs), neg);
  }

  /** The text of a decimal in bounds reads back as its sign, digits and scale. */
  lemma ReadsBack(sign: Sign, s: seq<int>, weight: int, dscale: nat)
    requires IsDigits(s) && !OutOfBound(weight, dscale) && sign != Special
    ensures var p := Parse(TextOf(sign, s, weight, dscale));
            && !IsSpecialName(TextOf(sign, s, weight, dscale))
            && p == Number(sign == Neg, IntPart(s, weight), FracPart(s, weight, dscale), 0)
  {
    hide Parse, IsSpecialName, IntPart, FracPart;
    ParsePrinted(sign == Neg, IntPart(s, weight), FracPart(s, weight, dscale));
  }

  lemma ReadsBackSpecial(dscale: int)
    requires dscale == NAN || dscale == MIN || dscale == MAX
    ensures IsSpecialName(SpecialText(dscale)) && SpecialCode(SpecialText(dscale)) == dscale
  {
    assert "nan"[0] == 'n' && "MAX"[0] == 'M' && "MIN"[0] == 'M';
    assert "min"[1] == 'i' && "MAX"[1] == 'A';
    assert !Named("MAX", "nan") && !Named("MIN", "nan") && !Named("MAX", "min") && !Named("MAX", "-inf");
  }

  lemma NoNul(sign: Sign, s: seq<int>, weight: int, dscale: nat)
    requires IsDigits(s)
    ensures '\0' !in TextOf(sign, s, weight, dscale)
  {
    hide IntPart, FracPart;
    if !IsNamed(sign, dscale) {
      DigitsNoNul(IntPart(s, weight));
      DigitsNoNul(FracPart(s, weight, dscale));
    }
  }

  lemma DigitsNoNul(ds: seq<int>)
    requires IsDec(ds)
    ensures '\0' !in Chars(ds)
  {
    forall i | 0 <= i < |ds| ensures Chars(ds)[i] != '\0' {
      CharIsDigit(ds[i]);
    }
  }

  /** The characters up to the terminator. */
  method Terminated(value: array<char>, ghost len: nat) returns (text: string)
    requires len < value.Length && value[len] == '\0' && forall k :: 0 <= k < len ==> value[k] != '\0'
    ensures text == value[..len]
  {
    var i := 0;
    while value[i] != '\0'
      invariant 0 <= i <= len
      decreases len - i
    {
      i := i + 1;
    }
    text := value[..i];
  }

  /** Prints d into a buffer of the promised length and takes the text out of it. */
  method Print(d: Decimal) returns (text: string)
    requires d.Valid() && d.dscale >= 0
    ensures text == TextOf(d.sign, d.Digs(), d.weight, d.dscale)
  {
    hide TextOf, IsDigits;
    var value := new char[SprintLen(d.sign, d.weight, d.dscale)];
    ghost var s := d.Digs();
    var rc;
    ghost var len;
    rc, len := ToStr(d, value);
    NoNul(d.sign, s, d.weight, d.dscale);
    assert forall k :: 0 <= k < len ==> value[k] == value[..len][k];
    text := Terminated(value, len);
  }

  /** Prints d and reads the text back into e: value, sign and display scale are restored. */
  method RoundTrip(d: Decimal, e: Decimal) returns (rc: int)
    requires Operand(d) && d.dscale >= 0 && !OutOfBound(d.weight, d.dscale) && e.typemod == -1 && e != d
    requires d.sign == Special ==> d.dscale == NAN || d.dscale == MIN || d.dscale == MAX
    modifies e
    ensures rc == 0 && e.Valid() && e.sign == d.sign && e.dscale == d.dscale
    ensures (d.sign != Special ==> e.Mag() == d.Mag())
  {
    hide TextOf, Parse, IsSpecialName, Shift, Magnitude, N, IsInt, IsDigits, D, Denotes;
    ghost var s := d.Digs();
    var text := Print(d);
    if d.sign == Special {
      NamedText(d.sign, s, d.weight, d.dscale);
      ReadsBackSpecial(d.dscale);
    } else {
      ReadsBack(d.sign, s, d.weight, d.dscale);
      DenotesAgain(s, d.weight, d.dscale);
      MagnitudeStripped(s, d.weight);
    }
    rc := FromStr(text, e);
  }

  /** The numeral that is read denotes the number that was printed. */
  lemma DenotesAgain(s: seq<int>, weight: int, dscale: nat)
    requires IsDigits(s) && (if s == [] then weight == 0 else s[|s| - 1] != 0)
    requires IsInt(Shift(Magnitude(s, weight), dscale))
    ensures Denotes(IntPart(s, weight), FracPart(s, weight, dscale), 0) == Magnitude(s, weight)
    ensures Scale0(|FracPart(s, weight, dscale)|, 0) == dscale
  {
    hide Shift, Magnitude, D, IsInt, IntPart, FracPart;
    PrintedDigitsDenote(s, weight, dscale);
  }

  lemma NamedText(sign: Sign, s: seq<int>, weight: int, dscale: nat)
    requires IsDigits(s) && IsNamed(sign, dscale)
    ensures TextOf(sign, s, weight, dscale) == SpecialText(dscale)
  {
  }
}
