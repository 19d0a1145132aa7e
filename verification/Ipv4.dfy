/** IPv4 literals in every spelling (src/http.cpp): one to four labels, each decimal or 0x
hexadecimal, the last one absorbing the bytes that are left. */
module Ipv4 {
  import opened Numerals
  import opened Text

  // ---- Labels ----

  predicate IsHex(l: string) {
    |l| >= 2 && l[0] == '0' && (l[1] == 'x' || l[1] == 'X')
  }

  function LabelBase(l: string): Base {
    if IsHex(l) then Hex else Dec
  }

  function LabelDigits(l: string): string {
    if IsHex(l) then l[2..] else l
  }

  predicate IsNumeral(l: string) {
    LabelDigits(l) != [] && AllIn(LabelDigits(l), LabelBase(l))
  }

  function Worth(l: string): nat
    requires IsNumeral(l)
  {
    Value(LabelDigits(l), LabelBase(l))
  }

  // ---- Addresses ----

  type Octet = b: int | 0 <= b < 256

  datatype Address = Address(a: Octet, b: Octet, c: Octet, d: Octet) {
    function Word(): nat { ((a * 256 + b) * 256 + c) * 256 + d }

    // What the last of n labels spells: the octets from the n-th on, big endian.
    function Tail(n: nat): nat
      requires 1 <= n <= 4
    {
      if n == 1 then Word()
      else if n == 2 then (b * 256 + c) * 256 + d
      else if n == 3 then c * 256 + d
      else d
    }

    function Octet(i: nat): Octet
      requires i < 4
    {
      if i == 0 then a else if i == 1 then b else if i == 2 then c else d
    }
  }

  function FromWord(w: nat): Address
    requires w < 0x1_0000_0000
  {
    Address(w / 0x100_0000, w / 0x1_0000 % 256, w / 0x100 % 256, w % 256)
  }

  lemma Quotients(a: nat, b: nat, c: nat, d: nat)
    requires b < 256 && c < 256 && d < 256
    ensures (((a * 256 + b) * 256 + c) * 256 + d) / 0x100 == (a * 256 + b) * 256 + c
    ensures (((a * 256 + b) * 256 + c) * 256 + d) / 0x1_0000 == a * 256 + b
    ensures (((a * 256 + b) * 256 + c) * 256 + d) / 0x100_0000 == a
  {
  }

  lemma LowByte(q: nat, r: nat)
    requires r < 256
    ensures (q * 256 + r) % 256 == r
  {
  }

  lemma WordRoundTrip(x: Address)
    ensures x.Word() < 0x1_0000_0000 && FromWord(x.Word()) == x
  {
    Quotients(x.a, x.b, x.c, x.d);
    LowByte((x.a * 256 + x.b) * 256 + x.c, x.d);
    LowByte(x.a * 256 + x.b, x.c);
    LowByte(x.a, x.b);
  }

  lemma WordInjective(w: nat)
    requires w < 0x1_0000_0000
    ensures FromWord(w).Word() == w
  {
    var q := w / 256;
    var p := q / 256;
    Quotients(p / 256, p % 256, q % 256, w % 256);
    assert p == p / 256 * 256 + p % 256;
    assert q == p * 256 + q % 256;
    assert w == q * 256 + w % 256;
  }

  // ---- Spellings ----

  predicate AllNumerals(ls: seq<string>) {
    forall i :: 0 <= i < |ls| ==> IsNumeral(ls[i])
  }

  function Worths(ls: seq<string>): seq<nat>
    requires AllNumerals(ls)
  {
    seq(|ls|, i requires 0 <= i < |ls| => Worth(ls[i]))
  }

  /** One octet each, and the last one all the rest. */
  predicate SpelledBy(ws: seq<nat>, x: Address) {
    && 1 <= |ws| <= 4
    && (forall i :: 0 <= i < |ws| - 1 ==> ws[i] == x.Octet(i))
    && ws[|ws| - 1] == x.Tail(|ws|)
  }

  predicate Spells(ls: seq<string>, x: Address) {
    AllNumerals(ls) && SpelledBy(Worths(ls), x)
  }

  /** A host text that is the address: its labels joined by dots, perhaps with one dot more. */
  ghost predicate Names(host: string, x: Address) {
    exists ls :: Spells(ls, x) && (host == Join(ls, '.') || host == Join(ls, '.') + ".")
  }

  // ---- The word the labels put together ----

  function Power256(n: nat): nat {
    if n == 0 then 1 else if n == 1 then 0x100 else if n == 2 then 0x1_0000 else if n == 3 then 0x100_0000
    else 0x1_0000_0000
  }

  // The largest value of label i of n: an octet, or for the last one what is left of 32 bits.
  function Ceiling(i: nat, n: nat): nat
    requires i < n <= 4
  {
    if i + 1 == n then Power256(5 - n) - 1 else 255
  }

  predicate FitsUpTo(ws: seq<nat>, k: nat)
    requires k <= |ws| <= 4
  {
    forall i :: 0 <= i < k ==> ws[i] <= Ceiling(i, |ws|)
  }

  predicate InRange(ws: seq<nat>) {
    1 <= |ws| <= 4 && FitsUpTo(ws, |ws|)
  }

  // A label's value where the word has it: the last one at the bottom, the others one octet each.
  function Placed(v: nat, i: nat, n: nat): nat
    requires i < n <= 4
  {
    if i + 1 == n then v else v * Power256(4 - 1 - i)
  }

  function Assembled(ws: seq<nat>, k: nat): nat
    requires k <= |ws| <= 4
  {
    if k == 0 then 0 else Assembled(ws, k - 1) + Placed(ws[k - 1], k - 1, |ws|)
  }

  lemma ThreeBytes(t: nat)
    ensures t == (t / 0x1_0000 * 256 + t / 0x100 % 256) * 256 + t % 256
  {
    var q := t / 256;
    assert t == q * 256 + t % 256;
    assert q == q / 256 * 256 + q % 256;
    assert q / 256 == t / 0x1_0000;
  }

  lemma One(w: nat)
    requires InRange([w])
    ensures Assembled([w], 1) == w < 0x1_0000_0000 && SpelledBy([w], FromWord(w))
  {
    assert [w][0] <= Ceiling(0, 1);
    assert Assembled([w], 0) == 0;
    WordInjective(w);
  }

  lemma Two(a: nat, t: nat)
    requires InRange([a, t])
    ensures var w := Assembled([a, t], 2); w < 0x1_0000_0000 && SpelledBy([a, t], FromWord(w))
  {
    var ws := [a, t];
    assert ws[0] <= Ceiling(0, 2) && ws[1] <= Ceiling(1, 2);
    assert Assembled(ws, 0) == 0;
    assert Assembled(ws, 1) == a * 0x100_0000;
    ThreeBytes(t);
    var x := Address(a, t / 0x1_0000, t / 0x100 % 256, t % 256);
    WordRoundTrip(x);
    assert x.Word() == Assembled(ws, 2);
  }

  lemma ThreeOrFour(ws: seq<nat>)
    requires InRange(ws) && |ws| > 2
    ensures var w := Assembled(ws, |ws|); w < 0x1_0000_0000 && SpelledBy(ws, FromWord(w))
  {
    var w := Assembled(ws, |ws|);
    var t := ws[|ws| - 1];
    assert ws[0] <= Ceiling(0, |ws|) && ws[1] <= Ceiling(1, |ws|) && t <= Ceiling(|ws| - 1, |ws|);
    assert Assembled(ws, 1) == ws[0] * 0x100_0000;
    assert Assembled(ws, 2) == ws[0] * 0x100_0000 + ws[1] * 0x1_0000;
    if |ws| == 3 {
      var x := Address(ws[0], ws[1], t / 256, t % 256);
      WordRoundTrip(x);
      assert x.Word() == w;
    } else {
      assert ws[2] <= Ceiling(2, 4);
      assert Assembled(ws, 3) == Assembled(ws, 2) + ws[2] * 0x100;
      var x := Address(ws[0], ws[1], ws[2], t);
      WordRoundTrip(x);
      assert x.Word() == w;
    }
  }

  lemma AssembledSpells(ws: seq<nat>)
    requires InRange(ws)
    ensures var w := Assembled(ws, |ws|); w < 0x1_0000_0000 && SpelledBy(ws, FromWord(w))
  {
    if |ws| == 1 {
      assert ws == [ws[0]];
      One(ws[0]);
    } else if |ws| == 2 {
      assert ws == [ws[0], ws[1]];
      Two(ws[0], ws[1]);
    } else {
      ThreeOrFour(ws);
    }
  }

  lemma SpelledInRange(ws: seq<nat>, x: Address)
    requires SpelledBy(ws, x)
    ensures InRange(ws)
  {
    WordRoundTrip(x);
    forall i | 0 <= i < |ws| ensures ws[i] <= Ceiling(i, |ws|) {
      if i < |ws| - 1 { assert ws[i] == x.Octet(i); }
    }
  }

  lemma SpelledOnce(ws: seq<nat>, x: Address, y: Address)
    requires SpelledBy(ws, x) && SpelledBy(ws, y)
    ensures x == y
  {
    if |ws| > 1 { assert ws[0] == x.a && ws[0] == y.a; }
    if |ws| > 2 { assert ws[1] == x.b && ws[1] == y.b; }
    if |ws| > 3 { assert ws[2] == x.c && ws[2] == y.c; }
    TailInjective(x, y, |ws|);
  }

  lemma TailInjective(x: Address, y: Address, n: nat)
    requires 1 <= n <= 4 && x.Tail(n) == y.Tail(n)
    requires n > 1 ==> x.a == y.a
    requires n > 2 ==> x.b == y.b
    requires n > 3 ==> x.c == y.c
    ensures x == y
  {
    WordRoundTrip(x);
    WordRoundTrip(y);
    assert x.Word() == y.Word();
  }

  // ---- The parser ----

  function HostLabels(host: string): seq<string> {
    var ls := Split(host, '.');
    if |ls| >= 2 && ls[|ls| - 1] == "" then ls[..|ls| - 1] else ls
  }

  function Parsed(host: string): Option<Address> {
    var ls := HostLabels(host);
    if AllNumerals(ls) && InRange(Worths(ls)) then
      AssembledSpells(Worths(ls));
      Some(FromWord(Assembled(Worths(ls), |ls|)))
    else None
  }

  lemma {:induction false} JoinDot(ls: seq<string>)
    requires ls != []
    ensures Join(ls + [""], '.') == Join(ls, '.') + "."
  {
    if |ls| > 1 {
      JoinDot(ls[1..]);
      assert (ls + [""])[1..] == ls[1..] + [""];
    } else {
      assert (ls + [""])[1..] == [""];
    }
  }

  lemma HostLabelsJoin(host: string)
    ensures var ls := HostLabels(host);
      ls != [] && (host == Join(ls, '.') || host == Join(ls, '.') + ".")
  {
    var ls := Split(host, '.');
    JoinSplit(host, '.');
    if |ls| >= 2 && ls[|ls| - 1] == "" {
      JoinDot(ls[..|ls| - 1]);
      assert ls == ls[..|ls| - 1] + [""];
    }
  }

  lemma NoDotInside(ls: seq<string>)
    requires AllNumerals(ls)
    ensures NoneHas(ls, '.')
    ensures forall k :: 0 <= k < |ls| ==> ls[k] != ""
  {
    forall k, j | 0 <= k < |ls| && 0 <= j < |ls[k]| ensures ls[k][j] != '.' {
      var l := ls[k];
      assert IsNumeral(l);
      if IsHex(l) {
        assert j >= 2 ==> l[j] == LabelDigits(l)[j - 2];
      } else {
        assert l[j] == LabelDigits(l)[j];
      }
    }
    forall k | 0 <= k < |ls| ensures ls[k] != "" { assert IsNumeral(ls[k]); }
  }

  lemma HostLabelsOf(ls: seq<string>)
    requires ls != [] && AllNumerals(ls)
    ensures HostLabels(Join(ls, '.')) == ls && HostLabels(Join(ls, '.') + ".") == ls
  {
    NoDotInside(ls);
    SplitJoin(ls, '.');
    SplitJoin(ls + [""], '.');
    JoinDot(ls);
  }

  /** Every spelling of an address parses to it, and nothing else does: one to four labels, each in
  either base with any leading zeros, with or without the trailing dot. */
  lemma ParsesExactlyItsNames(host: string, x: Address)
    ensures Parsed(host) == Some(x) <==> Names(host, x)
  {
    var ls := HostLabels(host);
    if Parsed(host) == Some(x) {
      AssembledSpells(Worths(ls));
      HostLabelsJoin(host);
      assert Spells(ls, x);
    }
    if Names(host, x) {
      var ms :| Spells(ms, x) && (host == Join(ms, '.') || host == Join(ms, '.') + ".");
      HostLabelsOf(ms);
      SpelledInRange(Worths(ms), x);
      AssembledSpells(Worths(ms));
      SpelledOnce(Worths(ms), x, FromWord(Assembled(Worths(ms), |ms|)));
    }
  }

  lemma FourSpell(a: string, b: string, c: string, d: string, x: Address)
    requires IsNumeral(a) && IsNumeral(b) && IsNumeral(c) && IsNumeral(d)
    requires Worth(a) == x.a && Worth(b) == x.b && Worth(c) == x.c && Worth(d) == x.d
    ensures Spells([a, b, c, d], x)
  {
    assert Worths([a, b, c, d]) == [x.a, x.b, x.c, x.d];
  }

  /** One number's spellings: decimal digits, or hexadecimal ones after 0x or 0X, any leading zeros. */
  lemma DecimalForms(z: string, digits: string)
    requires forall i :: 0 <= i < |z| ==> z[i] == '0'
    requires digits != [] && AllIn(digits, Dec)
    ensures IsNumeral(z + digits) && Worth(z + digits) == Value(digits, Dec)
  {
    LeadingZeros(z, digits, Dec);
    var l := z + digits;
    if |l| >= 2 { assert DigitIn(l[1], Dec) >= 0; }
  }

  lemma HexForms(x: char, z: string, digits: string)
    requires x == 'x' || x == 'X'
    requires forall i :: 0 <= i < |z| ==> z[i] == '0'
    requires digits != [] && AllIn(digits, Hex)
    ensures IsNumeral(['0', x] + (z + digits)) && Worth(['0', x] + (z + digits)) == Value(digits, Hex)
  {
    LeadingZeros(z, digits, Hex);
    Prefixed(x, z + digits);
  }

  /** And no other label is a number. */
  lemma NumeralForms(l: string)
    ensures IsNumeral(l) <==>
      || (l != "" && forall i :: 0 <= i < |l| ==> '0' <= l[i] <= '9')
      || (|l| > 2 && (l[..2] == "0x" || l[..2] == "0X") && AllIn(l[2..], Hex))
  {
    assert |l| >= 2 ==> l[..2] == [l[0], l[1]];
    if !IsHex(l) && IsNumeral(l) {
      forall i | 0 <= i < |l| ensures '0' <= l[i] <= '9' { assert DigitIn(LabelDigits(l)[i], Dec) >= 0; }
    }
  }

  lemma Prefixed(x: char, s: string)
    requires x == 'x' || x == 'X'
    ensures LabelDigits(['0', x] + s) == s && LabelBase(['0', x] + s) == Hex
  {
  }

  // ---- What no address has ----

  // A character no IPv4 label has.
  predicate Foreign(c: char) {
    DigitIn(c, Hex) < 0 && c != 'x' && c != 'X'
  }

  lemma NumeralHasNo(l: string, c: char)
    requires IsNumeral(l) && Foreign(c)
    ensures c !in l
  {
    forall k | 0 <= k < |l| ensures l[k] != c {
      if IsHex(l) {
        if k >= 2 { assert DigitIn(LabelDigits(l)[k - 2], Hex) >= 0; }
      } else {
        assert DigitIn(LabelDigits(l)[k], Dec) >= 0;
      }
    }
  }

  lemma LiteralHasNo(t: string, c: char)
    requires Parsed(t).Some? && Foreign(c) && c != '.'
    ensures t != "" && c !in t
  {
    var ls := HostLabels(t);
    HostLabelsJoin(t);
    forall k | 0 <= k < |ls| ensures ls[k] != "" && c !in ls[k] {
      assert IsNumeral(ls[k]);
      NumeralHasNo(ls[k], c);
    }
    JoinHasNo(ls, '.', c);
    assert ls[0] != "";
  }

  // ---- Letter case ----

  lemma LowerDigit(c: char, base: Base)
    ensures DigitIn(LowerChar(c), base) == DigitIn(c, base)
  {
  }

  lemma LowerIn(s: string, base: Base)
    ensures AllIn(Lower(s), base) <==> AllIn(s, base)
  {
    forall i | 0 <= i < |s| ensures DigitIn(Lower(s)[i], base) == DigitIn(s[i], base) { LowerDigit(s[i], base); }
  }

  lemma {:induction false} LowerValue(s: string, base: Base)
    requires AllIn(s, base)
    ensures AllIn(Lower(s), base) && Value(Lower(s), base) == Value(s, base)
  {
    if s != "" {
      var t, c := s[..|s| - 1], s[|s| - 1];
      LowerValue(t, base);
      LowerDigit(c, base);
      ValueSnoc(Lower(t), LowerChar(c), base);
      assert Lower(s) == Lower(t) + [LowerChar(c)];
    }
  }

  lemma LowerLabel(l: string)
    ensures IsHex(Lower(l)) <==> IsHex(l)
    ensures LabelDigits(Lower(l)) == Lower(LabelDigits(l))
  {
    if IsHex(l) { assert Lower(l)[2..] == Lower(l[2..]); }
  }

  lemma LowerNumeral(l: string)
    ensures IsNumeral(Lower(l)) <==> IsNumeral(l)
    ensures IsNumeral(l) ==> Worth(Lower(l)) == Worth(l)
  {
    LowerLabel(l);
    LowerIn(LabelDigits(l), LabelBase(l));
    if IsNumeral(l) { LowerValue(LabelDigits(l), LabelBase(l)); }
  }

  lemma LowerHostLabels(host: string)
    ensures HostLabels(Lower(host)) == LowerAll(HostLabels(host))
  {
    LowerSplit(host, '.');
  }

  lemma LowerNumerals(ls: seq<string>)
    ensures AllNumerals(LowerAll(ls)) <==> AllNumerals(ls)
    ensures AllNumerals(ls) ==> Worths(LowerAll(ls)) == Worths(ls)
  {
    forall i | 0 <= i < |ls|
      ensures IsNumeral(LowerAll(ls)[i]) <==> IsNumeral(ls[i])
      ensures IsNumeral(ls[i]) ==> Worth(LowerAll(ls)[i]) == Worth(ls[i])
    {
      LowerNumeral(ls[i]);
    }
  }

  /** Letter case does not matter. */
  lemma LowerParsed(host: string)
    ensures Parsed(Lower(host)) == Parsed(host)
  {
    LowerHostLabels(host);
    LowerNumerals(HostLabels(host));
  }

  // ---- The program ----

  const WORD64 := 0x1_0000_0000_0000_0000

  lemma NoWrap(v: nat, d: nat, base: Base, ceiling: nat)
    requires v <= ceiling && d < 16 && ceiling * 16 + 15 < WORD64
    ensures (Times(v, base) + d) % WORD64 == Times(v, base) + d
  {
  }

  /** parse_uint: a numeral no greater than its ceiling. The 64-bit accumulator never wraps. */
  method ParseUint(s: string, base: Base, ceiling: nat) returns (r: Option<nat>)
    requires ceiling * 16 + 15 < WORD64
    ensures r == if s != [] && AllIn(s, base) && Value(s, base) <= ceiling then Some(Value(s, base)) else None
  {
    if s == [] { return None; }
    var v: nat := 0;
    for i := 0 to |s|
      invariant AllIn(s[..i], base) && v == Value(s[..i], base) && v <= ceiling
    {
      var d := DigitIn(s[i], base);
      if d < 0 { return None; }
      PrefixStep(s, i, base);
      NoWrap(v, d, base, ceiling);
      v := (Times(v, base) + d) % WORD64;
      if v > ceiling { return None; }
    }
    assert s[..|s|] == s;
    return Some(v);
  }

  /** parse_v4_label. */
  method ParseLabel(l: string, ceiling: nat) returns (r: Option<nat>)
    requires ceiling * 16 + 15 < WORD64
    ensures r == if IsNumeral(l) && Worth(l) <= ceiling then Some(Worth(l)) else None
  {
    if IsHex(l) {
      r := ParseUint(l[2..], Hex, ceiling);
    } else {
      r := ParseUint(l, Dec, ceiling);
    }
  }

  method NumeralLabels(ls: seq<string>) returns (numeric: bool)
    ensures numeric <==> AllNumerals(ls)
  {
    for k := 0 to |ls|
      invariant AllNumerals(ls[..k])
    {
      var l := ls[k];
      if l == "" { return false; }
      var digits := LabelDigits(l);
      if digits == "" { return false; }
      for i := 0 to |digits|
        invariant AllIn(digits[..i], LabelBase(l))
      {
        if DigitIn(digits[i], LabelBase(l)) < 0 { return false; }
      }
      assert digits[..|digits|] == digits;
      assert ls[..k + 1] == ls[..k] + [l];
    }
    assert ls[..|ls|] == ls;
    return true;
  }

  lemma CeilingIs(n: nat)
    requires 1 <= n <= 4
    ensures 0xFFFF_FFFF / Power256(n - 1) == Ceiling(n - 1, n)
  {
  }

  ghost predicate Valued(ls: seq<string>, ws: seq<nat>) {
    && AllNumerals(ls) && |ws| == |ls|
    && forall i {:trigger ls[i]} :: 0 <= i < |ls| ==> ws[i] == Worth(ls[i])
  }

  method LabelAt(ls: seq<string>, i: nat, ghost ws: seq<nat>) returns (v: Option<nat>)
    requires Valued(ls, ws) && i < |ls| <= 4
    ensures v == if ws[i] <= Ceiling(i, |ls|) then Some(ws[i]) else None
  {
    var n := |ls|;
    var last := i + 1 == n;
    var ceiling := if last then 0xFFFF_FFFF / Power256(n - 1) else 0xFF;
    CeilingIs(n);
    v := ParseLabel(ls[i], ceiling);
  }

  method Assemble(ls: seq<string>, ghost ws: seq<nat>) returns (acc: Option<nat>)
    requires Valued(ls, ws) && 1 <= |ls| <= 4
    ensures acc == if InRange(ws) then Some(Assembled(ws, |ws|)) else None
  {
    var n := |ls|;
    var word: nat := 0;
    for i := 0 to n
      invariant FitsUpTo(ws, i)
      invariant word == Assembled(ws, i)
    {
      var v := LabelAt(ls, i, ws);
      if v == None { return None; }
      word := word + Placed(v.value, i, n);
    }
    return Some(word);
  }

  // The word before it is cut into bytes.
  method HostWord(host: string) returns (acc: Option<nat>)
    ensures acc.Some? ==> acc.value < 0x1_0000_0000
    ensures Parsed(host) == if acc.Some? then Some(FromWord(acc.value)) else None
  {
    if host == "" { return None; }
    var labels := SplitAt(host, '.');
    if |labels| >= 2 && labels[|labels| - 1] == "" {
      labels := labels[..|labels| - 1];
    }
    if labels == [] || |labels| > 4 { return None; }
    var numeric := NumeralLabels(labels);
    if !numeric { return None; }
    acc := Assemble(labels, Worths(labels));
    if acc.Some? { AssembledSpells(Worths(labels)); }
  }

  function Bytes(x: Address): seq<int> {
    [x.a, x.b, x.c, x.d]
  }

  lemma WordBytes(w: nat)
    requires w < 0x1_0000_0000
    ensures Bytes(FromWord(w)) == [w / 0x100_0000 % 0x100, w / 0x1_0000 % 0x100, w / 0x100 % 0x100, w % 0x100]
  {}

  /** parse_ipv4_any: the caller's four bytes are the address when the host names one, and are left
  as they were when it does not. */
  method ParseIpv4Any(host: string, out: array<int>) returns (ok: bool)
    requires out.Length == 4
    modifies out
    ensures ok <==> Parsed(host).Some?
    ensures ok ==> out[..] == Bytes(Parsed(host).value)
    ensures !ok ==> out[..] == old(out[..])
  {
    var acc := HostWord(host);
    if acc == None { return false; }
    WordBytes(acc.value);
    ghost var bytes := Bytes(FromWord(acc.value));
    out[0] := acc.value / 0x100_0000 % 0x100;
    out[1] := acc.value / 0x1_0000 % 0x100;
    out[2] := acc.value / 0x100 % 0x100;
    out[3] := acc.value % 0x100;
    assert out[..] == bytes;
    return true;
  }
}
