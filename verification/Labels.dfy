/** Episode labels (src/animehub.cpp): decimal numerals compared digit by digit, never converted. */
module Labels {
  import opened Numerals
  import opened Text

  // ---- What a label is worth ----

  // The digits after the dot: 0.d1 d2 d3 ...
  function Fraction(f: string): real
    requires AllIn(f, Dec)
  {
    if f == [] then 0.0 else (DigitIn(f[0], Dec) as real + Fraction(f[1..])) / 10.0
  }

  // Digits, and after a dot more digits.
  predicate WellFormed(s: string) {
    var d := FindChar(s, '.', 0);
    d > 0 && AllIn(s[..d], Dec) && (d < |s| ==> d + 1 < |s| && AllIn(s[d + 1..], Dec))
  }

  function Worth(s: string): real
    requires WellFormed(s)
  {
    var d := FindChar(s, '.', 0);
    Value(s[..d], Dec) as real + if d < |s| then Fraction(s[d + 1..]) else 0.0
  }

  // ---- Whole parts ----

  // The comparison of two equally long strings.
  predicate LexLess(a: string, b: string)
    requires |a| == |b|
  {
    a != [] && (a[0] < b[0] || (a[0] == b[0] && LexLess(a[1..], b[1..])))
  }

  lemma ValueHead(s: string)
    requires AllIn(s, Dec) && s != []
    ensures Value(s, Dec) == Shifted(DigitIn(s[0], Dec), Dec, |s| - 1) + Value(s[1..], Dec)
  {
    assert DigitIn(s[0], Dec) >= 0;
    assert s == [s[0]] + s[1..];
    ValueOne(s[0], Dec);
    ValueConcat([s[0]], s[1..], Dec);
  }

  lemma {:induction false} ShiftedApart(u: nat, v: nat, n: nat)
    requires u < v
    ensures Shifted(u, Dec, n) + Shifted(1, Dec, n) <= Shifted(v, Dec, n)
  {
    if n > 0 { ShiftedApart(u, v, n - 1); }
  }

  lemma HeadDecides(a: string, b: string)
    requires |a| == |b| > 0 && AllIn(a, Dec) && AllIn(b, Dec) && a[0] < b[0]
    ensures Value(a, Dec) < Value(b, Dec)
  {
    assert DigitIn(a[0], Dec) >= 0 && DigitIn(b[0], Dec) >= 0;
    ValueHead(a);
    ValueHead(b);
    ValueBelow(a[1..], Dec);
    ShiftedApart(DigitIn(a[0], Dec), DigitIn(b[0], Dec), |a| - 1);
  }

  lemma {:induction false} LexIsNumeric(a: string, b: string)
    requires |a| == |b| && AllIn(a, Dec) && AllIn(b, Dec)
    ensures LexLess(a, b) <==> Value(a, Dec) < Value(b, Dec)
    ensures a == b <==> Value(a, Dec) == Value(b, Dec)
  {
    if a != [] {
      if a[0] < b[0] {
        HeadDecides(a, b);
      } else if b[0] < a[0] {
        HeadDecides(b, a);
      } else {
        ValueHead(a);
        ValueHead(b);
        LexIsNumeric(a[1..], b[1..]);
        assert a == [a[0]] + a[1..] && b == [b[0]] + b[1..];
      }
    }
  }

  lemma {:induction false} ValueAbove(s: string)
    requires AllIn(s, Dec) && s != [] && s[0] != '0'
    ensures Value(s, Dec) >= Shifted(1, Dec, |s| - 1)
  {
    if |s| > 1 {
      ValueAbove(s[..|s| - 1]);
    } else {
      ValueOne(s[0], Dec);
      assert s == [s[0]];
      assert DigitIn(s[0], Dec) >= 0;
    }
  }

  lemma {:induction false} ShiftedGrows(m: nat, n: nat)
    requires m <= n
    ensures Shifted(1, Dec, m) <= Shifted(1, Dec, n)
  {
    if m < n { ShiftedGrows(m, n - 1); }
  }

  // No leading zero, unless it is the only digit.
  predicate Trimmed(s: string) { s != [] && (|s| > 1 ==> s[0] != '0') }

  lemma ShorterIsLess(a: string, b: string)
    requires AllIn(a, Dec) && AllIn(b, Dec) && a != [] && Trimmed(b) && |a| < |b|
    ensures Value(a, Dec) < Value(b, Dec)
  {
    ValueBelow(a, Dec);
    ValueAbove(b);
    ShiftedGrows(|a|, |b| - 1);
  }

  // ---- Fractions ----

  lemma {:induction false} FractionBelowOne(f: string)
    requires AllIn(f, Dec)
    ensures 0.0 <= Fraction(f) < 1.0
  {
    if f != [] { FractionBelowOne(f[1..]); }
  }

  // The i-th digit of a fraction, zeros going on for ever.
  function DigitOrZero(f: string, i: nat): char {
    if i < |f| then f[i] else '0'
  }

  function FractionFrom(f: string, i: nat): real
    requires AllIn(f, Dec)
  {
    if i < |f| then Fraction(f[i..]) else 0.0
  }

  lemma FractionStep(f: string, i: nat)
    requires AllIn(f, Dec)
    ensures DigitIn(DigitOrZero(f, i), Dec) >= 0
    ensures FractionFrom(f, i) == (DigitIn(DigitOrZero(f, i), Dec) as real + FractionFrom(f, i + 1)) / 10.0
    ensures 0.0 <= FractionFrom(f, i) < 1.0
  {
    if i < |f| {
      assert f[i..][1..] == f[i + 1..];
      FractionBelowOne(f[i..]);
    }
  }

  // ---- The program ----

  method Split(s: string) returns (whole: string, frac: string)
    requires WellFormed(s)
    ensures AllIn(whole, Dec) && AllIn(frac, Dec) && Trimmed(whole)
    ensures Worth(s) == Value(whole, Dec) as real + Fraction(frac)
  {
    var dot := Find(s, '.', 0);
    whole := s[..dot];
    frac := if dot < |s| then s[dot + 1..] else [];
    while |whole| > 1 && whole[0] == '0'
      invariant whole != [] && AllIn(whole, Dec) && Value(whole, Dec) == Value(s[..dot], Dec)
    {
      assert whole == ['0'] + whole[1..];
      LeadingZeros(['0'], whole[1..], Dec);
      whole := whole[1..];
    }
  }

  method CompareFractions(fa: string, fb: string) returns (less: bool)
    requires AllIn(fa, Dec) && AllIn(fb, Dec)
    ensures less <==> Fraction(fa) < Fraction(fb)
  {
    var n := if |fa| > |fb| then |fa| else |fb|;
    assert fa[0..] == fa && fb[0..] == fb;
    for i := 0 to n
      invariant FractionFrom(fa, i) < FractionFrom(fb, i) <==> Fraction(fa) < Fraction(fb)
    {
      FractionStep(fa, i);
      FractionStep(fb, i);
      FractionStep(fa, i + 1);
      FractionStep(fb, i + 1);
      var ca, cb := DigitOrZero(fa, i), DigitOrZero(fb, i);
      if ca != cb { return ca < cb; }
    }
    return false;
  }

  /** label_less orders labels by the rational numbers they spell, whatever their length: leading
  zeros and trailing zeros after the dot count for nothing. */
  method LabelLess(a: string, b: string) returns (less: bool)
    requires WellFormed(a) && WellFormed(b)
    ensures less <==> Worth(a) < Worth(b)
  {
    var wa, fa := Split(a);
    var wb, fb := Split(b);
    FractionBelowOne(fa);
    FractionBelowOne(fb);
    if |wa| != |wb| {
      if |wa| < |wb| { ShorterIsLess(wa, wb); } else { ShorterIsLess(wb, wa); }
      return |wa| < |wb|;
    }
    LexIsNumeric(wa, wb);
    if wa != wb {
      return LexLess(wa, wb);
    }
    less := CompareFractions(fa, fb);
  }

  /** valid_label admits exactly the well-formed labels of at most 16 characters. */
  method ValidLabel(s: string) returns (valid: bool)
    ensures valid <==> |s| <= 16 && WellFormed(s)
  {
    if s == "" || |s| > 16 { return false; }
    var dot, digitSinceDot := false, false;
    ghost var d := FindChar(s, '.', 0);
    FindCharSkips(s, '.', 0);
    for i := 0 to |s|
      invariant dot <==> d < i
      invariant forall k :: 0 <= k < i && k != d ==> DigitIn(s[k], Dec) >= 0
      invariant digitSinceDot <==> if dot then d + 1 < i else i > 0
      invariant dot ==> d > 0
    {
      var c := s[i];
      if c == '.' {
        if dot || !digitSinceDot {
          assert !dot ==> d == i == 0;
          return false;
        }
        dot, digitSinceDot := true, false;
      } else {
        if c < '0' || c > '9' { return false; }
        digitSinceDot := true;
      }
    }
    valid := digitSinceDot;
  }

  /** Zeros before the whole part and after the fraction change no comparison. */
  lemma PaddingIgnored(z: string, w: string, f: string, y: string)
    requires AllIn(w, Dec) && w != [] && AllIn(f, Dec) && f != []
    requires forall i :: 0 <= i < |z| ==> z[i] == '0'
    requires forall i :: 0 <= i < |y| ==> y[i] == '0'
    ensures WellFormed(w + "." + f) && WellFormed((z + w) + "." + (f + y))
    ensures Worth((z + w) + "." + (f + y)) == Worth(w + "." + f) == Value(w, Dec) as real + Fraction(f)
  {
    LeadingZeros(z, w, Dec);
    TrailingZeros(f, y);
    Spelled(w, f);
    Spelled(z + w, f + y);
  }

  /** So does a dot followed by zeros only. */
  lemma WholeIsWhole(w: string, y: string)
    requires AllIn(w, Dec) && w != [] && y != []
    requires forall i :: 0 <= i < |y| ==> y[i] == '0'
    ensures WellFormed(w) && WellFormed(w + "." + y) && Worth(w + "." + y) == Worth(w)
  {
    TrailingZeros([], y);
    assert [] + y == y;
    Spelled(w, y);
    NoDot(w);
    assert w[..|w|] == w;
  }

  lemma NoDot(w: string)
    requires AllIn(w, Dec)
    ensures forall k :: 0 <= k < |w| ==> w[k] != '.'
  {
    assert forall k :: 0 <= k < |w| ==> DigitIn(w[k], Dec) >= 0;
  }

  lemma Spelled(w: string, f: string)
    requires AllIn(w, Dec) && w != [] && AllIn(f, Dec) && f != []
    ensures WellFormed(w + "." + f) && Worth(w + "." + f) == Value(w, Dec) as real + Fraction(f)
  {
    var s := w + "." + f;
    NoDot(w);
    FindCharIs(s, '.', 0, |w|);
    assert s[..|w|] == w && s[|w| + 1..] == f;
  }

  predicate Numeral(s: string) { s != "" && forall i :: 0 <= i < |s| ==> '0' <= s[i] <= '9' }

  lemma NumeralIs(s: string)
    ensures Numeral(s) <==> s != "" && AllIn(s, Dec)
  {
    if s != "" && AllIn(s, Dec) {
      forall i | 0 <= i < |s| ensures '0' <= s[i] <= '9' { assert DigitIn(s[i], Dec) >= 0; }
    }
  }

  // The digits before the dot, or the one after it.
  ghost predicate Dotted(s: string, w: string, f: string) { Numeral(w) && Numeral(f) && s == w + "." + f }

  /** A label is digits, or digits, a dot and more digits. */
  lemma WellFormedExactlyWhen(s: string)
    ensures WellFormed(s) <==> Numeral(s) || exists w, f :: Dotted(s, w, f)
  {
    NumeralIs(s);
    if Numeral(s) {
      NoDot(s);
      assert s[..|s|] == s;
    }
    if WellFormed(s) {
      var d := FindChar(s, '.', 0);
      NumeralIs(s[..d]);
      if d < |s| {
        NumeralIs(s[d + 1..]);
        assert s == s[..d] + "." + s[d + 1..];
        assert Dotted(s, s[..d], s[d + 1..]);
      } else {
        assert s[..d] == s;
      }
    } else if w, f :| Dotted(s, w, f) {
      NumeralIs(w);
      NumeralIs(f);
      Spelled(w, f);
    }
  }

  /** The digits after the dot are a numeral over the power of ten they call for. */
  lemma {:induction false} FractionIsQuotient(f: string)
    requires AllIn(f, Dec)
    ensures Quotient(Fraction(f), Value(f, Dec), Shifted(1, Dec, |f|))
  {
    if f != [] {
      var d, p := DigitIn(f[0], Dec), Shifted(1, Dec, |f| - 1);
      FractionIsQuotient(f[1..]);
      ValueHead(f);
      ShiftedTimes(d, |f| - 1);
      DigitBefore(d, Fraction(f[1..]), Value(f[1..], Dec), p, Value(f, Dec), Shifted(d, Dec, |f| - 1));
    }
  }

  predicate Quotient(g: real, v: nat, p: nat) { g * p as real == v as real }

  lemma DigitBefore(d: nat, g: real, v: nat, p: nat, v': nat, shifted: nat)
    requires Quotient(g, v, p) && shifted == d * p && v' == shifted + v
    ensures Quotient((d as real + g) / 10.0, v', p * 10)
  {
    var p' := p * 10;
    TimesAsReal(d, p);
    TenTimes(d as real, g, p as real);
    assert p' as real == 10.0 * p as real;
    assert v' as real == (d * p) as real + v as real;
  }

  lemma TenTimes(d: real, g: real, p: real)
    ensures (d + g) / 10.0 * (10.0 * p) == d * p + g * p
  {
    assert (d + g) / 10.0 * 10.0 == d + g;
  }

  lemma {:induction false} TimesAsReal(d: nat, p: nat)
    ensures (d * p) as real == d as real * p as real
  {
    if d > 0 {
      TimesAsReal(d - 1, p);
      assert d * p == (d - 1) * p + p;
      assert (d - 1) as real == d as real - 1.0;
    }
  }

  lemma {:induction false} ShiftedTimes(d: nat, n: nat)
    ensures Shifted(d, Dec, n) == d * Shifted(1, Dec, n)
  {
    if n > 0 { ShiftedTimes(d, n - 1); }
  }

  lemma {:induction false} TrailingZeros(f: string, y: string)
    requires AllIn(f, Dec) && forall i :: 0 <= i < |y| ==> y[i] == '0'
    ensures AllIn(f + y, Dec) && Fraction(f + y) == Fraction(f)
  {
    ZerosValue(y, Dec);
    if f != [] {
      TrailingZeros(f[1..], y);
      assert (f + y)[1..] == f[1..] + y;
    } else if y != [] {
      assert f + y == y;
      TrailingZeros(f, y[1..]);
      assert f + y[1..] == y[1..];
    }
  }
}
