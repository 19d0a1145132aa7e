/** Positional numerals, as the program's hand-written digit loops read and print them. */
module Numerals {
  datatype Option<+T> = None | Some(value: T)

  datatype Base = Oct | Dec | Hex

  predicate IsDigit(c: char) { '0' <= c <= '9' }

  // hex_val, and its decimal and octal parts: the value of a digit, or -1 when the character is not one.
  function DigitIn(c: char, base: Base): int
  {
    if IsDigit(c) then if base == Oct && c > '7' then -1 else c as int - '0' as int
    else if base == Hex && 'a' <= c <= 'f' then c as int - 'a' as int + 10
    else if base == Hex && 'A' <= c <= 'F' then c as int - 'A' as int + 10
    else -1
  }

  /** The digits in order, in either letter case. */
  lemma DigitsInOrder(c: char, v: nat)
    ensures DigitIn(c, Dec) == v <==> v < 10 && "0123456789"[v] == c
    ensures DigitIn(c, Oct) == v <==> v < 8 && "01234567"[v] == c
    ensures DigitIn(c, Hex) == v <==> v < 16 && ("0123456789abcdef"[v] == c || "0123456789ABCDEF"[v] == c)
  {
  }

  predicate AllIn(s: string, base: Base) {
    forall i :: 0 <= i < |s| ==> DigitIn(s[i], base) >= 0
  }

  function Times(v: nat, base: Base): nat {
    if base == Oct then v * 8 else if base == Dec then v * 10 else v * 16
  }

  // v with n zeros written after it.
  function Shifted(v: nat, base: Base, n: nat): nat {
    if n == 0 then v else Times(Shifted(v, base, n - 1), base)
  }

  // Most significant digit first; the empty numeral is worth 0.
  function Value(s: string, base: Base): nat
    requires AllIn(s, base)
  {
    if s == [] then 0
    else Times(Value(s[..|s| - 1], base), base) + DigitIn(s[|s| - 1], base)
  }

  // Appending one digit: the step of every accumulating loop.
  lemma ValueSnoc(s: string, c: char, base: Base)
    requires AllIn(s, base) && DigitIn(c, base) >= 0
    ensures AllIn(s + [c], base)
    ensures Value(s + [c], base) == Times(Value(s, base), base) + DigitIn(c, base)
  {
    assert (s + [c])[..|s|] == s;
  }

  /** The place values. */
  lemma PlaceValues(s: string, c: char)
    ensures AllIn(s, Dec) && DigitIn(c, Dec) >= 0 ==>
      AllIn(s + [c], Dec) && Value(s + [c], Dec) == 10 * Value(s, Dec) + DigitIn(c, Dec)
    ensures AllIn(s, Oct) && DigitIn(c, Oct) >= 0 ==>
      AllIn(s + [c], Oct) && Value(s + [c], Oct) == 8 * Value(s, Oct) + DigitIn(c, Oct)
    ensures AllIn(s, Hex) && DigitIn(c, Hex) >= 0 ==>
      AllIn(s + [c], Hex) && Value(s + [c], Hex) == 16 * Value(s, Hex) + DigitIn(c, Hex)
  {
    forall base | AllIn(s, base) && DigitIn(c, base) >= 0
      ensures AllIn(s + [c], base)
      ensures Value(s + [c], base) == Times(Value(s, base), base) + DigitIn(c, base)
    {
      ValueSnoc(s, c, base);
    }
  }

  lemma ValueOne(c: char, base: Base)
    requires DigitIn(c, base) >= 0
    ensures Value([c], base) == DigitIn(c, base)
  {
    assert [c][..0] == [];
  }

  lemma {:induction false} ValueConcat(s: string, t: string, base: Base)
    requires AllIn(s, base) && AllIn(t, base)
    ensures AllIn(s + t, base)
    ensures Value(s + t, base) == Shifted(Value(s, base), base, |t|) + Value(t, base)
  {
    if t == [] {
      assert s + t == s;
    } else {
      var u, c := t[..|t| - 1], t[|t| - 1];
      ValueConcat(s, u, base);
      ValueSnoc(s + u, c, base);
      assert s + t == (s + u) + [c];
    }
  }

  lemma {:induction false} ValueBelow(s: string, base: Base)
    requires AllIn(s, base)
    ensures Value(s, base) < Shifted(1, base, |s|)
  {
    if s != [] { ValueBelow(s[..|s| - 1], base); }
  }

  // A prefix of a numeral never exceeds the whole.
  lemma {:induction false} PrefixBelow(s: string, n: nat, base: Base)
    requires AllIn(s, base) && n <= |s|
    ensures Value(s[..n], base) <= Value(s, base)
  {
    if n < |s| {
      PrefixBelow(s[..|s| - 1], n, base);
      assert s[..|s| - 1][..n] == s[..n];
    } else {
      assert s[..n] == s;
    }
  }

  // One step of an accumulating loop.
  lemma PrefixStep(s: string, i: nat, base: Base)
    requires i < |s| && AllIn(s[..i], base) && DigitIn(s[i], base) >= 0
    ensures AllIn(s[..i + 1], base)
    ensures Value(s[..i + 1], base) == Times(Value(s[..i], base), base) + DigitIn(s[i], base)
    ensures AllIn(s, base) ==> Value(s[..i + 1], base) <= Value(s, base)
  {
    assert s[..i + 1] == s[..i] + [s[i]];
    ValueSnoc(s[..i], s[i], base);
    if AllIn(s, base) { PrefixBelow(s, i + 1, base); }
  }

  lemma {:induction false} ShiftedZero(base: Base, n: nat)
    ensures Shifted(0, base, n) == 0
  {
    if n > 0 { ShiftedZero(base, n - 1); }
  }

  lemma LeadingZeros(z: string, s: string, base: Base)
    requires AllIn(s, base) && forall i :: 0 <= i < |z| ==> z[i] == '0'
    ensures AllIn(z + s, base)
    ensures Value(z + s, base) == Value(s, base)
  {
    ZerosValue(z, base);
    ValueConcat(z, s, base);
    ShiftedZero(base, |s|);
  }

  lemma {:induction false} ZerosValue(z: string, base: Base)
    requires forall i :: 0 <= i < |z| ==> z[i] == '0'
    ensures AllIn(z, base) && Value(z, base) == 0
  {
    if z != [] { ZerosValue(z[..|z| - 1], base); }
  }

  // std::to_string of an unsigned value.
  function Decimal(n: nat): string {
    if n < 10 then [DigitChar(n)] else Decimal(n / 10) + [DigitChar(n % 10)]
  }

  function DigitChar(d: nat): (c: char)
    requires d < 10
    ensures IsDigit(c) && DigitIn(c, Dec) == d
  {
    ('0' as int + d) as char
  }

  lemma {:induction false} DecimalValue(n: nat)
    ensures Decimal(n) != [] && AllIn(Decimal(n), Dec)
    ensures Value(Decimal(n), Dec) == n
  {
    if n < 10 {
      ValueOne(DigitChar(n), Dec);
    } else {
      DecimalValue(n / 10);
      ValueSnoc(Decimal(n / 10), DigitChar(n % 10), Dec);
    }
  }
}
