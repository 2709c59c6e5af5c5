/** Decimal digits: the rendering of a non-negative `Int` by string
    interpolation and the parsing done by Swift's failable `Int(_: String)`. */
module Decimal {
  import opened Results

  predicate IsDigit(c: char) {
    '0' <= c <= '9'
  }

  predicate AllDigits(s: string) {
    forall k :: 0 <= k < |s| ==> IsDigit(s[k])
  }

  function DigitValue(c: char): (d: nat)
    requires IsDigit(c)
    ensures d < 10
  {
    c as int - '0' as int
  }

  function DigitChar(d: nat): (c: char)
    requires d < 10
    ensures IsDigit(c) && DigitValue(c) == d
  {
    ('0' as int + d) as char
  }

  /** The value of a string of digits, most significant digit first. */
  function DecimalValue(s: string): nat
    requires AllDigits(s)
    decreases |s|
  {
    if |s| == 0 then 0 else DecimalValue(s[..|s| - 1]) * 10 + DigitValue(s[|s| - 1])
  }

  function Pow10(n: nat): (p: nat)
    ensures p >= 1
  {
    if n == 0 then 1 else 10 * Pow10(n - 1)
  }

  /** `n` digits never reach `10^n`. */
  lemma {:induction false} DecimalValueBound(s: string)
    requires AllDigits(s)
    ensures DecimalValue(s) < Pow10(|s|)
    decreases |s|
  {
    if |s| > 0 {
      DecimalValueBound(s[..|s| - 1]);
    }
  }

  /** The leading digit contributes its weight `10^(n-1)`. */
  lemma {:induction false} DecimalValueFront(s: string)
    requires AllDigits(s) && |s| > 0
    ensures DecimalValue(s) == DigitValue(s[0]) * Pow10(|s| - 1) + DecimalValue(s[1..])
    decreases |s|
  {
    var n := |s|;
    if n == 1 {
      assert s[..0] == [];
      assert s[1..] == [];
    } else {
      var init := s[..n - 1];
      DecimalValueFront(init);
      assert init[1..] == s[1..][..n - 2];
      assert init[0] == s[0];
      FrontStep(DigitValue(s[0]), Pow10(n - 2), DecimalValue(init[1..]), DigitValue(s[n - 1]));
      assert DecimalValue(s[1..]) == DecimalValue(init[1..]) * 10 + DigitValue(s[n - 1]);
    }
  }

  lemma FrontStep(d0: int, p: int, x: int, last: int)
    ensures (d0 * p + x) * 10 + last == d0 * (p * 10) + (x * 10 + last)
  {
  }

  /** String interpolation of a non-negative integer: its shortest decimal form. */
  function NatToDecimal(n: nat): (s: string)
    ensures |s| >= 1 && AllDigits(s)
    ensures DecimalValue(s) == n
    ensures |s| > 1 ==> s[0] != '0'
    decreases n
  {
    if n < 10 then [DigitChar(n)]
    else
      var init := NatToDecimal(n / 10);
      var s := init + [DigitChar(n % 10)];
      assert s[..|s| - 1] == init;
      s
  }

  /** The range of Swift's 64-bit `Int`. */
  const IntMin: int := -0x8000_0000_0000_0000
  const IntMax: int := 0x7FFF_FFFF_FFFF_FFFF

  /** Swift's `Int(_: String)`: an optional `+` or `-`, then one or more ASCII
      digits, and a value that fits in 64 bits; anything else is `nil`. */
  function ParseInt(s: string): (r: Option<int>)
    ensures r.Some? ==> IntMin <= r.value <= IntMax
    ensures r.Some? ==> |s| > 0 && (IsDigit(s[0]) || s[0] == '+' || s[0] == '-')
    ensures r.Some? ==> forall k :: 0 < k < |s| ==> IsDigit(s[k])
    ensures r.Some? && IsDigit(s[0]) ==> r.value == DecimalValue(s)
    ensures r.Some? && s[0] == '+' ==> |s| > 1 && r.value == DecimalValue(s[1..])
    ensures r.Some? && s[0] == '-' ==> |s| > 1 && r.value + DecimalValue(s[1..]) == 0
    ensures |s| > 0 && AllDigits(s) && DecimalValue(s) <= IntMax ==> r == Some(DecimalValue(s))
    ensures |s| > 1 && s[0] == '+' && AllDigits(s[1..]) && DecimalValue(s[1..]) <= IntMax
      ==> r == Some(DecimalValue(s[1..]))
    ensures |s| > 1 && s[0] == '-' && AllDigits(s[1..]) && DecimalValue(s[1..]) <= -IntMin
      ==> r.Some? && r.value + DecimalValue(s[1..]) == 0
  {
    if |s| == 0 then None
    else
      var signed := s[0] == '+' || s[0] == '-';
      var digits := if signed then s[1..] else s;
      if |digits| == 0 || !AllDigits(digits) then None
      else
        var magnitude: int := DecimalValue(digits);
        var v: int := if s[0] == '-' then -magnitude else magnitude;
        if IntMin <= v <= IntMax then Some(v) else None
  }

  /** Round trip: parsing the rendering of a representable integer gives it back. */
  lemma ParseRendered(n: nat)
    requires n <= IntMax
    ensures ParseInt(NatToDecimal(n)) == Some(n)
  {
  }
}

/** Swift's `<` on the identifier strings: lexicographic order on characters. */
module StringOrder {
  import opened Decimal

  predicate Less(a: string, b: string)
    decreases |a|
  {
    if |a| == 0 then |b| > 0
    else if |b| == 0 then false
    else if a[0] != b[0] then a[0] < b[0]
    else Less(a[1..], b[1..])
  }

  lemma {:induction false} LessIrreflexive(a: string)
    ensures !Less(a, a)
    decreases |a|
  {
    if |a| > 0 {
      LessIrreflexive(a[1..]);
    }
  }

  lemma {:induction false} LessTransitive(a: string, b: string, c: string)
    requires Less(a, b) && Less(b, c)
    ensures Less(a, c)
    decreases |a|
  {
    if |a| > 0 && a[0] == b[0] && b[0] == c[0] {
      LessTransitive(a[1..], b[1..], c[1..]);
    }
  }

  /** Any two different strings are ordered one way or the other. */
  lemma {:induction false} LessTotal(a: string, b: string)
    ensures a == b || Less(a, b) || Less(b, a)
    decreases |a|
  {
    if |a| > 0 && |b| > 0 && a[0] == b[0] {
      LessTotal(a[1..], b[1..]);
      if a[1..] == b[1..] {
        assert a == [a[0]] + a[1..] && b == [b[0]] + b[1..];
      }
    }
  }

  /** Non-strict order: the relation the sort's comparator induces on keys. */
  predicate LessOrEqual(a: string, b: string) {
    !Less(b, a)
  }

  lemma LessAsymmetric(a: string, b: string)
    ensures !(Less(a, b) && Less(b, a))
  {
    if Less(a, b) && Less(b, a) {
      LessTransitive(a, b, a);
      LessIrreflexive(a);
    }
  }

  lemma LessOrEqualTransitive(a: string, b: string, c: string)
    requires LessOrEqual(a, b) && LessOrEqual(b, c)
    ensures LessOrEqual(a, c)
  {
    LessTotal(a, b);
    LessTotal(b, c);
    if a != b && b != c {
      LessTransitive(a, b, c);
    }
    LessIrreflexive(a);
    LessAsymmetric(a, c);
  }

  /** A shared prefix does not change the order. */
  lemma {:induction false} LessCommonPrefix(p: string, a: string, b: string)
    ensures Less(p + a, p + b) <==> Less(a, b)
    decreases |p|
  {
    if |p| > 0 {
      assert (p + a)[1..] == p[1..] + a;
      assert (p + b)[1..] == p[1..] + b;
      assert (p + a)[0] == (p + b)[0];
      LessCommonPrefix(p[1..], a, b);
    } else {
      assert p + a == a && p + b == b;
    }
  }

  /** A larger leading digit outweighs anything the lower digits add. */
  lemma LeadingDigitDominates(da: nat, db: nat, x: nat, y: nat, p: nat)
    requires da < db && x < p
    ensures da * p + x < db * p + y
  {
    var k := db - da;
    assert (da + k) * p == da * p + k * p;
    assert k * p == (k - 1) * p + p;
    assert (k - 1) * p >= 0;
  }

  /** On digit strings of one length, string order is numeric order. */
  lemma {:induction false} LessDigitsNumeric(a: string, b: string)
    requires |a| == |b| && AllDigits(a) && AllDigits(b)
    ensures Less(a, b) <==> DecimalValue(a) < DecimalValue(b)
    decreases |a|
  {
    if |a| > 0 {
      var n := |a|;
      DecimalValueFront(a);
      DecimalValueFront(b);
      DecimalValueBound(a[1..]);
      DecimalValueBound(b[1..]);
      var p := Pow10(n - 1);
      var da, db := DigitValue(a[0]), DigitValue(b[0]);
      if da < db {
        LeadingDigitDominates(da, db, DecimalValue(a[1..]), DecimalValue(b[1..]), p);
      } else if db < da {
        LeadingDigitDominates(db, da, DecimalValue(b[1..]), DecimalValue(a[1..]), p);
      } else {
        assert a[0] == b[0];
        LessDigitsNumeric(a[1..], b[1..]);
      }
    }
  }
}
