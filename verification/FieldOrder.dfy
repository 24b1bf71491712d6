// The number-aware order of field names that sorts the fields of an object.
module FieldOrder {

  /** The bytes of a C string, without the terminator. */
  type Char = x: int | 1 <= x < 256 witness 1

  type Name = seq<Char>

  const ZERO := 48
  const TOP := 255

  predicate IsNumber(c: int) {
    48 <= c <= 57
  }

  /** A byte read as a signed char. */
  function Signed(c: int): int {
    if c >= 128 then c - 256 else c
  }

  /** How many digits lead s. */
  function DigitRun(s: Name): (n: nat)
    ensures n <= |s| && (forall i :: 0 <= i < n ==> IsNumber(s[i])) && (n < |s| ==> !IsNumber(s[n]))
  {
    if s != [] && IsNumber(s[0]) then 1 + DigitRun(s[1..]) else 0
  }

  function Value(s: Name): int {
    if s == [] then 0 else 10 * Value(s[..|s| - 1]) + s[|s| - 1] - ZERO
  }

  datatype Token = Num(value: int) | Other(c: Char)

  /** A name as maximal digit runs, taken by value, and single other bytes. */
  function Tokens(s: Name): seq<Token>
    decreases |s|
  {
    if s == [] then []
    else if IsNumber(s[0]) then [Num(Value(s[..DigitRun(s)]))] + Tokens(s[DigitRun(s)..])
    else [Other(s[0])] + Tokens(s[1..])
  }

  function Sign(x: int): int {
    if x > 0 then 1 else if x < 0 then -1 else 0
  }

  /** Byte 255 above numbers, numbers above everything else. */
  function Rank(t: Token): int {
    if t.Num? then 1 else if t.c == TOP then 2 else 0
  }

  function Weight(t: Token): int {
    if t.Num? then t.value else Signed(t.c)
  }

  function TokenCmp(t: Token, u: Token): int {
    if Rank(t) != Rank(u) then Sign(Rank(t) - Rank(u)) else Sign(Weight(t) - Weight(u))
  }

  /** Numbers are ordered by value, byte 255 is above them and every other byte below; other bytes are ordered as
      signed chars. */
  lemma TokenOrder(a: int, b: int, c: Char, d: Char)
    ensures TokenCmp(Num(a), Num(b)) < 0 <==> a < b
    ensures TokenCmp(Num(a), Num(b)) > 0 <==> a > b
    ensures TokenCmp(Num(a), Other(c)) < 0 <==> c == 255
    ensures TokenCmp(Num(a), Other(c)) > 0 <==> c != 255
    ensures c != 255 && d != 255 && c < 128 && d < 128 ==> (TokenCmp(Other(c), Other(d)) < 0 <==> c < d)
    ensures c != 255 && d != 255 && c >= 128 && d >= 128 ==> (TokenCmp(Other(c), Other(d)) < 0 <==> c < d)
    ensures c != 255 && c >= 128 && d < 128 ==> TokenCmp(Other(c), Other(d)) < 0
    ensures d != 255 ==> TokenCmp(Other(255), Other(d)) > 0
  {
  }

  /** A name whose first token is smaller comes first, whatever follows; equal first tokens leave it to the rest, and
      the empty name comes before all others. */
  lemma FirstTokenDecides(t: Token, a: seq<Token>, u: Token, b: seq<Token>)
    ensures TokenCmp(t, u) < 0 ==> Cmp([t] + a, [u] + b) < 0
    ensures Cmp([t] + a, [t] + b) == Cmp(a, b) && Cmp([], [t] + a) < 0
  {
    assert ([t] + a)[1..] == a && ([u] + b)[1..] == b && ([t] + b)[1..] == b;
  }

  /** Lexicographic order; a prefix comes first. */
  function Cmp(a: seq<Token>, b: seq<Token>): int
    decreases |a|
  {
    if a == [] && b == [] then 0
    else if a == [] then -1
    else if b == [] then 1
    else if TokenCmp(a[0], b[0]) != 0 then TokenCmp(a[0], b[0])
    else Cmp(a[1..], b[1..])
  }

  lemma {:induction false} CmpIsZero(a: seq<Token>, b: seq<Token>)
    ensures Cmp(a, b) == 0 <==> a == b
  {
    if a != [] && b != [] {
      CmpIsZero(a[1..], b[1..]);
      assert a == [a[0]] + a[1..] && b == [b[0]] + b[1..];
    }
  }

  lemma {:induction false} CmpFlips(a: seq<Token>, b: seq<Token>)
    ensures Cmp(a, b) == -Cmp(b, a) && -1 <= Cmp(a, b) <= 1
  {
    if a != [] && b != [] {
      CmpFlips(a[1..], b[1..]);
    }
  }

  lemma {:induction false} CmpIsTransitive(a: seq<Token>, b: seq<Token>, c: seq<Token>)
    requires Cmp(a, b) <= 0 && Cmp(b, c) <= 0
    ensures Cmp(a, c) <= 0
  {
    if a != [] && b != [] && c != [] && TokenCmp(a[0], b[0]) == 0 && TokenCmp(b[0], c[0]) == 0 {
      CmpIsTransitive(a[1..], b[1..], c[1..]);
    }
  }

  /** A byte that is no digit is a token of its own; a whole run of digits is one, taken by value. */
  lemma TokensOf(c: Char, run: Name, t: Name)
    requires run != [] && AllDigits(run) && (t == [] || !IsNumber(t[0]))
    ensures !IsNumber(c) ==> Tokens([c] + t) == [Other(c)] + Tokens(t)
    ensures Tokens(run + t) == [Num(Value(run))] + Tokens(t) && Tokens([]) == []
  {
    assert ([c] + t)[1..] == t;
    var s := run + t;
    assert s[0] == run[0];
    assert forall i :: 0 <= i < |run| ==> s[i] == run[i];
    assert t != [] ==> s[|run|] == t[0];
    assert DigitRun(s) == |run|;
    assert s[..|run|] == run && s[|run|..] == t;
  }

  /** Digits are worth ten times as much one place further left. */
  lemma ValueOfDigits(s: Name, c: Char)
    ensures Value([]) == 0 && Value(s + [c]) == 10 * Value(s) + (c - 48)
  {
    assert (s + [c])[..|s|] == s;
  }

  predicate AllDigits(s: Name) {
    forall i :: 0 <= i < |s| ==> IsNumber(s[i])
  }

  function Pow10(k: nat): nat {
    if k == 0 then 1 else 10 * Pow10(k - 1)
  }

  lemma {:induction false} ValueBound(s: Name)
    requires AllDigits(s)
    ensures 0 <= Value(s) < Pow10(|s|)
  {
    if s != [] {
      ValueBound(s[..|s| - 1]);
    }
  }

  /** Splitting a number: the front counts as many powers of ten as the back has digits. */
  lemma {:induction false} ValueSplit(a: Name, b: Name)
    ensures Value(a + b) == Value(a) * Pow10(|b|) + Value(b)
  {
    if b == [] {
      assert a + b == a;
      assert Pow10(0) == 1 && Value(b) == 0;
    } else {
      hide Value, Pow10;
      var t := b[..|b| - 1];
      assert (a + b)[..|a + b| - 1] == a + t;
      ValueSplit(a, t);
      ValueStep(a + b);
      ValueStep(b);
      TenTimes(Value(a), |t|);
    }
  }

  lemma ValueStep(s: Name)
    requires s != []
    ensures Value(s) == 10 * Value(s[..|s| - 1]) + s[|s| - 1] - ZERO
  {
  }

  lemma TenTimes(x: int, k: nat)
    ensures x * Pow10(k + 1) == 10 * (x * Pow10(k))
  {
    var p := Pow10(k);
    assert x * (10 * p) == 10 * (x * p);
  }

  lemma DropZero(s: Name)
    requires s != [] && s[0] == ZERO
    ensures Value(s) == Value(s[1..])
  {
    assert s == s[..1] + s[1..] && s[..1][..0] == [];
    ValueSplit(s[..1], s[1..]);
  }

  /** A number without leading zeros is larger than any shorter one. */
  lemma LongerIsMore(a: Name, b: Name)
    requires AllDigits(a) && AllDigits(b) && |a| > |b| && a[0] != ZERO
    ensures Value(a) > Value(b)
  {
    assert a == a[..1] + a[1..] && a[..1][..0] == [];
    ValueSplit(a[..1], a[1..]);
    ValueBound(a[1..]);
    ValueBound(b);
    PowMonotone(|b|, |a| - 1);
    LeadAtLeast(Value(a[..1]), Pow10(|a| - 1));
  }

  lemma LeadAtLeast(d: int, p: nat)
    requires d >= 1
    ensures d * p >= p
  {
    assert (d - 1) * p >= 0;
  }

  lemma {:induction false} PowMonotone(j: nat, k: nat)
    requires j <= k
    ensures Pow10(j) <= Pow10(k)
    decreases k - j
  {
    if j < k {
      PowMonotone(j, k - 1);
    }
  }

  /** Of two numbers of one length, the first different digit decides. */
  lemma FirstDifferenceDecides(a: Name, b: Name, k: nat)
    requires AllDigits(a) && AllDigits(b) && |a| == |b| && k < |a| && a[..k] == b[..k] && a[k] > b[k]
    ensures Value(a) > Value(b)
  {
    var p := Pow10(|a| - k - 1);
    assert a == a[..k + 1] + a[k + 1..] && b == b[..k + 1] + b[k + 1..];
    ValueSplit(a[..k + 1], a[k + 1..]);
    ValueSplit(b[..k + 1], b[k + 1..]);
    ValueBound(a[k + 1..]);
    ValueBound(b[k + 1..]);
    assert a[..k + 1][..k] == a[..k] && b[..k + 1][..k] == b[..k];
    ScaledGap(Value(a[..k + 1]), Value(b[..k + 1]), p);
  }

  lemma ScaledGap(x: int, y: int, p: nat)
    requires x >= y + 1
    ensures x * p >= y * p + p
  {
    assert (x - y - 1) * p >= 0;
  }

  /** Skips the zeros of the number at i and finds its end. */
  method NumberAt(s: Name, i: nat) returns (b: nat, e: nat)
    requires i < |s| && IsNumber(s[i])
    ensures i <= b <= e <= |s| && e == i + DigitRun(s[i..]) && e > i
    ensures Value(s[b..e]) == Value(s[i..e]) && AllDigits(s[b..e]) && (b < e ==> s[b] != ZERO)
  {
    ghost var end := i + DigitRun(s[i..]);
    assert forall k :: i <= k < end ==> s[k] == s[i..][k - i];
    b := i;
    while b < |s| && s[b] == ZERO
      invariant i <= b <= end && Value(s[b..end]) == Value(s[i..end])
    {
      assert b < end;
      DropZero(s[b..end]);
      assert s[b..end][1..] == s[b + 1..end];
      b := b + 1;
    }
    e := b;
    while e < |s| && IsNumber(s[e])
      invariant b <= e <= end
    {
      assert e < end;
      e := e + 1;
    }
    assert e == end;
  }

  /** Compares n characters. */
  method StrNCmp(s1: Name, b1: nat, s2: Name, b2: nat, n: nat) returns (r: int)
    requires b1 + n <= |s1| && b2 + n <= |s2| && AllDigits(s1[b1..b1 + n]) && AllDigits(s2[b2..b2 + n])
    ensures Sign(r) == Sign(Value(s1[b1..b1 + n]) - Value(s2[b2..b2 + n]))
  {
    ghost var a, b := s1[b1..b1 + n], s2[b2..b2 + n];
    var k := 0;
    while k < n
      invariant 0 <= k <= n && a[..k] == b[..k]
    {
      assert s1[b1 + k] == a[k] && s2[b2 + k] == b[k];
      if s1[b1 + k] != s2[b2 + k] {
        if a[k] > b[k] { FirstDifferenceDecides(a, b, k); } else { FirstDifferenceDecides(b, a, k); }
        var x: int, y: int := s1[b1 + k], s2[b2 + k];
        return x - y;
      }
      k := k + 1;
    }
    assert a[..n] == a && b[..n] == b;
    r := 0;
  }

  /** Compares the numbers at i and j by value, and finds where they end. */
  method CompareNumbers(s1: Name, i: nat, s2: Name, j: nat) returns (r: int, e1: nat, e2: nat)
    requires i < |s1| && IsNumber(s1[i]) && j < |s2| && IsNumber(s2[j])
    ensures Sign(r) == TokenCmp(First(s1[i..]), First(s2[j..]))
    ensures i < e1 <= |s1| && s1[e1..] == Rest(s1[i..]) && j < e2 <= |s2| && s2[e2..] == Rest(s2[j..])
  {
    hide Value, DigitRun, AllDigits;
    var b1, b2;
    b1, e1 := NumberAt(s1, i);
    b2, e2 := NumberAt(s2, j);
    NumberSlices(s1, i, b1, e1);
    NumberSlices(s2, j, b2, e2);
    var len1, len2 := e1 - b1, e2 - b2;
    // if one is longer than the other, it is larger
    if len1 > len2 {
      LongerIsMore(s1[b1..e1], s2[b2..e2]);
      r := 1;
    } else if len2 > len1 {
      LongerIsMore(s2[b2..e2], s1[b1..e1]);
      r := -1;
    } else {
      r := StrNCmp(s1, b1, s2, b2, len1);
    }
  }

  /** The sign of the result is the order of the token sequences. */
  method LexNumCmp(s1: Name, s2: Name) returns (r: int)
    ensures Sign(r) == Cmp(Tokens(s1), Tokens(s2))
  {
    hide Value, DigitRun, Tokens, Cmp;
    var i, j := 0, 0;
    ghost var c := Cmp(Tokens(s1), Tokens(s2));
    assert s1[0..] == s1 && s2[0..] == s2;
    while i < |s1| && j < |s2|
      invariant 0 <= i <= |s1| && 0 <= j <= |s2| && c == Cmp(Tokens(s1[i..]), Tokens(s2[j..]))
    {
      FirstTokens(s1[i..], s2[j..]);
      var p1, p2 := s1[i] == TOP, s2[j] == TOP;
      if p1 && !p2 { return 1; }
      if p2 && !p1 { return -1; }
      var n1, n2 := IsNumber(s1[i]), IsNumber(s2[j]);
      if n1 && n2 {
        var result, e1, e2 := CompareNumbers(s1, i, s2, j);
        if result != 0 {
          return result;
        }
        i, j := e1, e2;
        continue;
      }
      if n1 { return 1; }
      if n2 { return -1; }
      if Signed(s1[i]) > Signed(s2[j]) { return 1; }
      if Signed(s2[j]) > Signed(s1[i]) { return -1; }
      assert s1[i..][1..] == s1[i + 1..] && s2[j..][1..] == s2[j + 1..];
      i, j := i + 1, j + 1;
    }
    EndOfName(s1[i..], s2[j..]);
    if i < |s1| { return 1; }
    if j < |s2| { return -1; }
    return 0;
  }

  function First(s: Name): Token
    requires s != []
  {
    if IsNumber(s[0]) then Num(Value(s[..DigitRun(s)])) else Other(s[0])
  }

  function Rest(s: Name): Name
    requires s != []
  {
    if IsNumber(s[0]) then s[DigitRun(s)..] else s[1..]
  }

  lemma FirstTokens(a: Name, b: Name)
    requires a != [] && b != []
    ensures Cmp(Tokens(a), Tokens(b)) ==
              if TokenCmp(First(a), First(b)) != 0 then TokenCmp(First(a), First(b))
              else Cmp(Tokens(Rest(a)), Tokens(Rest(b)))
  {
    assert Tokens(a) == [First(a)] + Tokens(Rest(a)) && Tokens(b) == [First(b)] + Tokens(Rest(b));
    assert Tokens(a)[1..] == Tokens(Rest(a)) && Tokens(b)[1..] == Tokens(Rest(b));
  }

  lemma NumberSlices(s: Name, i: nat, b: nat, e: nat)
    requires i <= b <= e <= |s| && i < |s| && e == i + DigitRun(s[i..])
    ensures s[i..][..DigitRun(s[i..])] == s[i..e] && s[i..][DigitRun(s[i..])..] == s[e..]
  {
  }

  lemma EndOfName(a: Name, b: Name)
    requires a == [] || b == []
    ensures Cmp(Tokens(a), Tokens(b)) == if a != [] then 1 else if b != [] then -1 else 0
  {
  }
}
