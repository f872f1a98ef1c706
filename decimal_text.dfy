/** The decimal text a float's `to_string` produces, and the string split
    `round_sf` applies to it.

    Rust's `Display` for f32 and f64 writes the shortest decimal that reads
    back as the same float, never in exponent notation: an optional `-`, the
    whole digits without leading zeros, and, only when the value has a
    fractional part, a `.` and the fraction digits without trailing zeros.
    Floats are exact here, so a value and its text are related by
    `Canonical` and `Value` rather than computed from each other.
 */
module DecimalText {
  import opened Powers
  import opened Policies

  predicate IsDigit(c: char) {
    '0' <= c <= '9'
  }

  predicate AllDigits(s: string) {
    forall i :: 0 <= i < |s| ==> IsDigit(s[i])
  }

  function DigitValue(c: char): (v: nat)
    requires IsDigit(c)
    ensures v < 10
    ensures v == 0 <==> c == '0'
  {
    c as int - '0' as int
  }

  /** The natural number a string of decimal digits denotes. It has fewer
      than |s| + 1 digits, exactly |s| when the first is not zero, and is
      positive when the last is not zero. */
  function DigitsValue(s: string): (v: nat)
    requires AllDigits(s)
    ensures v < Pow10(|s|)
    ensures |s| > 0 && s[0] != '0' ==> Pow10(|s| - 1) <= v
    ensures |s| > 0 && s[|s| - 1] != '0' ==> v > 0
  {
    if s == [] then 0
    else
      var prefix := s[..|s| - 1];
      assert AllDigits(prefix);
      assert |prefix| > 0 ==> prefix[0] == s[0];
      DigitsValue(prefix) * 10 + DigitValue(s[|s| - 1])
  }

  /** A decimal numeral: sign, whole digits, fraction digits. */
  datatype Decimal = Decimal(negative: bool, whole: string, fraction: string)

  /** The numerals `Display` writes: digits only, at least one whole digit
      and no leading zero, no trailing zero in the fraction, no `-0`. */
  predicate Canonical(d: Decimal) {
    && AllDigits(d.whole) && AllDigits(d.fraction)
    && |d.whole| >= 1 && (d.whole[0] == '0' ==> d.whole == "0")
    && (|d.fraction| > 0 ==> d.fraction[|d.fraction| - 1] != '0')
    && !(d.negative && d.whole == "0" && d.fraction == [])
  }

  /** The fraction digits as a number in [0, 1). */
  function FractionValue(fraction: string): (t: real)
    requires AllDigits(fraction)
    ensures 0.0 <= t < 1.0
    ensures |fraction| > 0 && fraction[|fraction| - 1] != '0' ==> t > 0.0
  {
    Pow10RealOfNat(|fraction|);
    QuotientInUnit(DigitsValue(fraction) as real, Pow10Real(|fraction|));
    DigitsValue(fraction) as real / Pow10Real(|fraction|)
  }

  lemma QuotientInUnit(f: real, q: real)
    requires 0.0 <= f < q
    ensures 0.0 <= f / q < 1.0
    ensures f > 0.0 ==> f / q > 0.0
  {
  }

  /** The value a numeral denotes. */
  function Value(d: Decimal): (x: real)
    requires Canonical(d)
    ensures d.negative <==> x < 0.0
    ensures d.fraction == [] ==> x == (if d.negative then -(DigitsValue(d.whole) as real) else DigitsValue(d.whole) as real)
  {
    var m := DigitsValue(d.whole) as real + FractionValue(d.fraction);
    if d.negative then -m else m
  }

  /** The text before the point: the sign and the whole digits. The sign
      is one character of it, and it holds no point. */
  function SignedWhole(d: Decimal): (s: string)
    ensures |s| == |d.whole| + (if d.negative then 1 else 0)
    ensures d.negative ==> s[0] == '-'
    ensures !d.negative ==> s == d.whole
    ensures AllDigits(d.whole) ==> '.' !in s
  {
    (if d.negative then "-" else "") + d.whole
  }

  /** The text `to_string` returns for the value of d. */
  function Text(d: Decimal): string {
    SignedWhole(d) + (if d.fraction == [] then "" else "." + d.fraction)
  }

  /** The value has no fractional part exactly when the text has no point. */
  lemma WholeIffNoFraction(d: Decimal)
    requires Canonical(d)
    ensures IsWhole(Value(d)) <==> d.fraction == []
  {
    var w, t := DigitsValue(d.whole), FractionValue(d.fraction);
    assert Value(d) == if d.negative then -(w as real + t) else w as real + t;
    FractionalNotWhole(w, t);
  }

  /** w + t, and its negation, are whole exactly when t is zero. */
  lemma FractionalNotWhole(w: nat, t: real)
    requires 0.0 <= t < 1.0
    ensures IsWhole(w as real + t) <==> t == 0.0
    ensures IsWhole(-(w as real + t)) <==> t == 0.0
  {
    WholePartOf(w, t);
    if t > 0.0 {
      assert (-(w as real + t)).Floor == -(w as int) - 1;
    }
  }

  /** The text starts with the signed whole digits, and holds a point
      exactly when the value has a fractional part. */
  lemma TextMarksFraction(d: Decimal)
    requires Canonical(d)
    ensures |SignedWhole(d)| <= |Text(d)| && Text(d)[..|SignedWhole(d)|] == SignedWhole(d)
    ensures '.' in Text(d) <==> !IsWhole(Value(d))
  {
    WholeIffNoFraction(d);
    assert d.fraction != [] ==> Text(d)[|SignedWhole(d)|] == '.';
    assert d.fraction == [] ==> Text(d) == SignedWhole(d);
  }

  /** Join parts with a separator between each two. */
  function Join(parts: seq<string>, sep: char): string
    requires |parts| >= 1
  {
    if |parts| == 1 then parts[0] else parts[0] + [sep] + Join(parts[1..], sep)
  }

  /** `str::split` on one character: the pieces between the separators,
      one more than there are separators. */
  function Split(s: string, sep: char): (parts: seq<string>)
    ensures |parts| >= 1
    ensures Join(parts, sep) == s
    ensures forall i :: 0 <= i < |parts| ==> sep !in parts[i]
  {
    if s == [] then [""]
    else
      var rest := Split(s[1..], sep);
      if s[0] == sep then
        [""] + rest
      else
        var parts := [[s[0]] + rest[0]] + rest[1..];
        assert parts[1..] == rest[1..];
        parts
  }

  /** A string without the separator is one piece. */
  lemma {:induction false} SplitNone(s: string, sep: char)
    requires sep !in s
    ensures Split(s, sep) == [s]
  {
    if s != [] {
      SplitNone(s[1..], sep);
    }
  }

  /** A separator after a piece without one starts a new piece. */
  lemma {:induction false} SplitPrefix(a: string, sep: char, rest: string)
    requires sep !in a
    ensures Split(a + [sep] + rest, sep) == [a] + Split(rest, sep)
  {
    var s := a + [sep] + rest;
    if a == [] {
      assert s[1..] == rest;
    } else {
      assert s[1..] == a[1..] + [sep] + rest;
      SplitPrefix(a[1..], sep, rest);
      assert [a[0]] + a[1..] == a;
    }
  }

  /** Splitting what `Join` built gives the parts back. */
  lemma {:induction false} SplitJoin(parts: seq<string>, sep: char)
    requires |parts| >= 1
    requires forall i :: 0 <= i < |parts| ==> sep !in parts[i]
    ensures Split(Join(parts, sep), sep) == parts
  {
    if |parts| == 1 {
      SplitNone(parts[0], sep);
    } else {
      SplitJoin(parts[1..], sep);
      SplitPrefix(parts[0], sep, Join(parts[1..], sep));
    }
  }

  /** A fractional numeral's text splits at the point into the signed whole
      digits and the fraction digits. */
  lemma SplitAtPoint(d: Decimal)
    requires Canonical(d) && d.fraction != []
    ensures Split(Text(d), '.') == [SignedWhole(d), d.fraction]
  {
    assert '.' !in SignedWhole(d) && '.' !in d.fraction;
    assert Join([SignedWhole(d), d.fraction], '.') == Text(d);
    SplitJoin([SignedWhole(d), d.fraction], '.');
  }

  /** The number of `0` characters a string starts with. */
  function LeadingZeros(s: string): (n: nat)
    ensures n <= |s|
    ensures forall i :: 0 <= i < n ==> s[i] == '0'
    ensures n < |s| ==> s[n] != '0'
  {
    if s == [] || s[0] != '0' then 0 else 1 + LeadingZeros(s[1..])
  }

  /** A leading zero digit does not change the value. */
  lemma {:induction false} LeadingZeroDigit(s: string)
    requires AllDigits(s) && |s| > 0 && s[0] == '0'
    ensures DigitsValue(s) == DigitsValue(s[1..])
  {
    if |s| > 1 {
      var prefix := s[..|s| - 1];
      LeadingZeroDigit(prefix);
      assert prefix[1..] == s[1..][..|s| - 2];
    }
  }

  /** Nor do any number of them. */
  lemma {:induction false} LeadingZeroDigits(s: string, z: nat)
    requires AllDigits(s) && z <= |s|
    requires forall i :: 0 <= i < z ==> s[i] == '0'
    ensures DigitsValue(s) == DigitsValue(s[z..])
  {
    if z > 0 {
      LeadingZeroDigit(s);
      LeadingZeroDigits(s[1..], z - 1);
      assert s[1..][z - 1..] == s[z..];
    }
  }

  /** The last digit of a numeral is its value modulo ten, and the rest is
      the value divided by ten. */
  lemma LastDigitOf(s: string)
    requires AllDigits(s) && |s| > 0
    ensures DigitsValue(s) % 10 == DigitValue(s[|s| - 1])
    ensures AllDigits(s[..|s| - 1]) && DigitsValue(s) / 10 == DigitsValue(s[..|s| - 1])
  {
    var prefix := s[..|s| - 1];
    assert AllDigits(prefix);
    var q, r := DigitsValue(prefix), DigitValue(s[|s| - 1]);
    DivMod10(DigitsValue(s), q, r);
  }

  lemma DivMod10(n: nat, q: nat, r: nat)
    requires r < 10 && n == q * 10 + r
    ensures n % 10 == r && n / 10 == q
  {
  }

  /** Digit strings of one length are determined by their value. */
  lemma {:induction false} SameLengthDigits(s: string, t: string)
    requires AllDigits(s) && AllDigits(t) && |s| == |t|
    requires DigitsValue(s) == DigitsValue(t)
    ensures s == t
  {
    if s != [] {
      LastDigitOf(s);
      LastDigitOf(t);
      SameLengthDigits(s[..|s| - 1], t[..|t| - 1]);
      assert s == s[..|s| - 1] + [s[|s| - 1]];
      assert t == t[..|t| - 1] + [t[|t| - 1]];
    }
  }

  /** Whole digits without a leading zero are determined by their value. */
  lemma WholeDigitsUnique(s: string, t: string)
    requires AllDigits(s) && AllDigits(t) && |s| >= 1 && |t| >= 1
    requires s[0] == '0' ==> s == "0"
    requires t[0] == '0' ==> t == "0"
    requires DigitsValue(s) == DigitsValue(t)
    ensures s == t
  {
    if s[0] != '0' && t[0] != '0' {
      Pow10Monotone(|t|, |s| - 1);
      Pow10Monotone(|s|, |t| - 1);
      SameLengthDigits(s, t);
    } else {
      assert DigitsValue("0") == 0;
    }
  }

  /** Ten divides a value times a positive power of ten. */
  lemma MultipleOfTen(v: nat, k: nat)
    ensures k > 0 ==> (v * Pow10(k)) % 10 == 0
  {
    if k > 0 {
      assert v * Pow10(k) == (v * Pow10(k - 1)) * 10;
      DivMod10(v * Pow10(k), v * Pow10(k - 1), 0);
    }
  }

  lemma CrossMultiply(a: nat, b: nat, c: nat, e: nat)
    requires b > 0 && e > 0 && a as real / b as real == c as real / e as real
    ensures a * e == c * b
  {
    assert (a * e) as real == a as real * e as real == c as real * b as real;
  }

  lemma Cancel(a: nat, b: nat, c: nat)
    requires c > 0 && a * c == b * c
    ensures a == b
  {
  }

  /** Fraction digits without a trailing zero are determined by their
      value; the shorter is given first. */
  lemma ShorterFractionUnique(f: string, g: string)
    requires AllDigits(f) && AllDigits(g) && |f| <= |g|
    requires |g| > 0 ==> g[|g| - 1] != '0'
    requires DigitsValue(f) * Pow10(|g|) == DigitsValue(g) * Pow10(|f|)
    ensures f == g
  {
    var k := |g| - |f|;
    Pow10Add(|f|, k);
    var v := ShiftCancel(DigitsValue(f), DigitsValue(g), Pow10(|f|), Pow10(k), Pow10(|g|));
    MultipleOfTen(DigitsValue(f), k);
    if g != [] {
      LastDigitOf(g);
    }
    assert k == 0;
    SameLengthDigits(f, g);
  }

  /** From v * 10^|g| == w * 10^|f| and 10^|g| == 10^|f| * 10^k: v * 10^k == w. */
  lemma ShiftCancel(v: nat, w: nat, pf: nat, pk: nat, pg: nat) returns (u: nat)
    requires pf > 0 && pg == pf * pk && v * pg == w * pf
    ensures u == v * pk && u == w
  {
    assert v * pg == (v * pk) * pf;
    Cancel(v * pk, w, pf);
    u := v * pk;
  }

  /** Fraction digits without a trailing zero are determined by their
      value. */
  lemma FractionDigitsUnique(f: string, g: string)
    requires AllDigits(f) && AllDigits(g)
    requires |f| > 0 ==> f[|f| - 1] != '0'
    requires |g| > 0 ==> g[|g| - 1] != '0'
    requires FractionValue(f) == FractionValue(g)
    ensures f == g
  {
    Pow10RealOfNat(|f|);
    Pow10RealOfNat(|g|);
    CrossMultiply(DigitsValue(f), Pow10(|f|), DigitsValue(g), Pow10(|g|));
    if |f| <= |g| {
      ShorterFractionUnique(f, g);
    } else {
      ShorterFractionUnique(g, f);
    }
  }

  /** A whole part plus a fraction in [0, 1) has that whole part as floor. */
  lemma WholePartOf(w: nat, t: real)
    requires 0.0 <= t < 1.0
    ensures (w as real + t).Floor == w
  {
  }

  /** At most one canonical numeral denotes each value, so the text of a
      canonical numeral is fixed by the float, as `to_string`'s is. */
  lemma CanonicalUnique(d: Decimal, e: Decimal)
    requires Canonical(d) && Canonical(e) && Value(d) == Value(e)
    ensures d == e
  {
    var wd, td := DigitsValue(d.whole), FractionValue(d.fraction);
    var we, te := DigitsValue(e.whole), FractionValue(e.fraction);
    assert wd as real + td == we as real + te;
    WholePartOf(wd, td);
    WholePartOf(we, te);
    WholeDigitsUnique(d.whole, e.whole);
    FractionDigitsUnique(d.fraction, e.fraction);
  }
}
