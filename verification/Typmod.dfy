// Type modifiers: rounding to a declared scale and the precision check.
module Typmod {
  import opened Powers
  import opened Digits
  import opened Decimals
  import opened Rounding

  function Precision(typmod: int): int {
    (typmod / 0x10000) % 0x10000
  }

  function Scale(typmod: int): int {
    typmod % 0x10000
  }

  /** A type modifier holds the precision in its upper half and the scale in its lower half. */
  lemma TypmodParts(precision: int, scale: int)
    requires 0 <= precision < 0x10000 && 0 <= scale < 0x10000
    ensures Precision(precision * 0x10000 + scale) == precision && Scale(precision * 0x10000 + scale) == scale
  {
  }

  /** The number of high-order decimal zeros of a nonzero digit. */
  function LeadingZeros(dig: int): int {
    if dig < 10 then 3 else if dig < 100 then 2 else if dig < 1000 then 1 else 0
  }

  /** A digit d of weight w lies between neighbouring powers of ten. */
  lemma DigitPosition(dig: int, w: int)
    requires 0 < dig < NBASE
    ensures var dd := 4 * (w + 1) - LeadingZeros(dig);
            Shift(1.0, dd - 1) <= Shift(dig as real, 4 * w) && Shift((dig + 1) as real, 4 * w) <= Shift(1.0, dd)
  {
    hide Shift;
    var z := LeadingZeros(dig);
    ShiftShift(1.0, 3 - z, 4 * w);
    ShiftShift(1.0, 4 - z, 4 * w);
    ShiftByFour(1.0);
    ShiftNone(1.0);
    ShiftOrder(dig as real, Shift(1.0, 3 - z), 4 * w);
    ShiftOrder(Shift(1.0, 4 - z), (dig + 1) as real, 4 * w);
  }

  /** Whether the number has more than `maxdigits` decimal digits before the point. */
  method Overflows(s: seq<int>, w: int, maxdigits: int) returns (over: bool)
    requires IsDigits(s)
    ensures over <==> Shift(1.0, maxdigits) <= Magnitude(s, w)
  {
    hide N, Shift, Magnitude;
    var ddigits := (w + 1) * DEC_DIGITS;
    MagnitudeBound(s, w);
    if ddigits <= maxdigits {
      ShiftOneMonotone(ddigits, maxdigits);
      return false;
    }
    var i := 0;
    assert s[0..] == s;
    while i < |s|
      invariant 0 <= i <= |s| && ddigits == 4 * (w - i + 1)
      invariant Magnitude(s[i..], w - i) == Magnitude(s, w)
    {
      var dig := s[i];
      MagnitudePeel(s[i..], w - i);
      assert s[i..][1..] == s[i + 1..];
      if dig != 0 {
        ddigits := ddigits - LeadingZeros(dig);
        MagnitudeBound(s[i + 1..], w - i - 1);
        assert 4 * (w - i - 1 + 1) == 4 * (w - i);
        ShiftSum(dig as real, 1.0, 4 * (w - i));
        DigitPosition(dig, w - i);
        if ddigits > maxdigits {
          ShiftOneMonotone(maxdigits, ddigits - 1);
          return true;
        }
        ShiftOneMonotone(ddigits, maxdigits);
        return false;
      }
      ShiftOrder(0.0, 0.0, 4 * (w - i));
      ddigits := ddigits - DEC_DIGITS;
      i := i + 1;
    }
    MagnitudeNonNegative(s[i..], w - i);
    ShiftOneMonotone(maxdigits, maxdigits);
    over := false;
  }

  /** Rounds to the declared scale and accepts exactly the values below 10^(precision - scale). */
  method ApplyTypmod(d: Decimal, typmod: int) returns (rc: int)
    requires d.Finite()
    modifies d, d.buff
    ensures typmod == -1 ==> rc == 0 && unchanged(d) && unchanged(d.buff)
    ensures typmod != -1 && !old(d.isOwn) ==> rc == -6 && unchanged(d) && unchanged(d.buff)
    ensures typmod != -1 && old(d.isOwn) ==>
              && d.Owned() && d.dscale == Scale(typmod)
              && d.Val() == RoundAway(old(d.Val()), Scale(typmod))
              && d.Mag() == RoundHalfUp(old(d.Mag()), Scale(typmod))
              && (rc == 0 || rc == -10)
              && (rc == 0 <==> d.Mag() < Shift(1.0, Precision(typmod) - Scale(typmod)))
  {
    hide N, Shift, Magnitude, RoundAway, RoundHalfUp, RoundDown;
    if typmod == -1 {
      return 0;
    }
    rc := Round(d, Scale(typmod));
    if rc != 0 {
      return;
    }
    var over := Overflows(d.Digs(), d.weight, Precision(typmod) - Scale(typmod));
    if over {
      rc := -10;
    }
  }
}
