/** The IPv4 host texts of the WHATWG URL Standard (section 3.5, host parsing), from the percent-decoded
host on, and where the program's reading of them differs. */
module Whatwg {
  import opened Numerals
  import opened Text
  import Ipv4

  // ---- The standard's reading ----

  // The IPv4 number parser: 0x is hexadecimal, and worth 0 alone; any other leading 0 is octal.
  function Number(l: string): Option<nat> {
    if l == "" then None
    else if Ipv4.IsHex(l) then ValueIn(l[2..], Hex)
    else if |l| > 1 && l[0] == '0' then ValueIn(l[1..], Oct)
    else ValueIn(l, Dec)
  }

  // No digits are worth 0.
  function ValueIn(digits: string, base: Base): Option<nat> {
    if AllIn(digits, base) then Some(Value(digits, base)) else None
  }

  predicate AllNumbers(ls: seq<string>) {
    forall i :: 0 <= i < |ls| ==> Number(ls[i]).Some?
  }

  function Numbers(ls: seq<string>): seq<nat>
    requires AllNumbers(ls)
  {
    seq(|ls|, i requires 0 <= i < |ls| => Number(ls[i]).value)
  }

  // The IPv4 parser: the labels are cut and put together as the program does it.
  function Parsed(host: string): Option<Ipv4.Address> {
    var ls := Ipv4.HostLabels(host);
    if AllNumbers(ls) && Ipv4.InRange(Numbers(ls)) then
      Ipv4.AssembledSpells(Numbers(ls));
      Some(Ipv4.FromWord(Ipv4.Assembled(Numbers(ls), |ls|)))
    else None
  }

  // ---- Domain to ASCII ----

  predicate Ascii(s: string) {
    forall i :: 0 <= i < |s| ==> s[i] < 0x80 as char
  }

  // U+FF10 to U+FF19, and U+3002, as their UTF-8 bytes.
  predicate WideDigit(a: char, b: char, c: char) {
    a == 0xEF as char && b == 0xBC as char && 0x90 as char <= c <= 0x99 as char
  }

  predicate WideStop(a: char, b: char, c: char) {
    a == 0xE3 as char && b == 0x80 as char && c == 0x82 as char
  }

  // The full-width digits and ideographic full stops made plain.
  function Narrow(s: string): string {
    if s == "" then ""
    else if |s| >= 3 && WideDigit(s[0], s[1], s[2]) then [(s[2] as int - 0x90 + '0' as int) as char] + Narrow(s[3..])
    else if |s| >= 3 && WideStop(s[0], s[1], s[2]) then ['.'] + Narrow(s[3..])
    else [s[0]] + Narrow(s[1..])
  }

  predicate PunycodeAt(s: string, i: nat) {
    i + 4 <= |s| && (i == 0 || s[i - 1] == '.') && Lower(s[i..i + 4]) == "xn--"
  }

  // A label of it begins with xn--.
  predicate HasPunycode(s: string) {
    exists i :: 0 <= i < |s| && PunycodeAt(s, i)
  }

  /** What domain to ASCII may make of a host's bytes. An ASCII host is lowered, after full-width digits and
  stops are made plain, unless a punycode label is refused; of other hosts nothing is assumed. */
  predicate MapsTo(host: string, mapped: Option<string>) {
    Ascii(Narrow(host)) ==>
      mapped == Some(Lower(Narrow(host))) || (mapped == None && HasPunycode(Narrow(host)))
  }

  // The address of a host that is mapped so.
  function Read(mapped: Option<string>): Option<Ipv4.Address> {
    if mapped.Some? then Parsed(mapped.value) else None
  }

  lemma {:induction false} NarrowAscii(s: string)
    requires Ascii(s)
    ensures Narrow(s) == s
  {
    if s != "" { NarrowAscii(s[1..]); }
  }

  lemma LowerValueIn(digits: string, base: Base)
    ensures ValueIn(Lower(digits), base) == ValueIn(digits, base)
  {
    Ipv4.LowerIn(digits, base);
    if AllIn(digits, base) { Ipv4.LowerValue(digits, base); }
  }

  lemma LowerNumber(l: string)
    ensures Number(Lower(l)) == Number(l)
  {
    Ipv4.LowerLabel(l);
    if Ipv4.IsHex(l) {
      LowerValueIn(l[2..], Hex);
    } else if |l| > 1 && l[0] == '0' {
      LowerValueIn(l[1..], Oct);
      assert Lower(l)[1..] == Lower(l[1..]);
    } else {
      LowerValueIn(l, Dec);
    }
  }

  lemma LowerNumbers(ls: seq<string>)
    ensures AllNumbers(LowerAll(ls)) <==> AllNumbers(ls)
    ensures AllNumbers(ls) ==> Numbers(LowerAll(ls)) == Numbers(ls)
  {
    forall i | 0 <= i < |ls| ensures Number(LowerAll(ls)[i]) == Number(ls[i]) { LowerNumber(ls[i]); }
    if AllNumbers(LowerAll(ls)) {
      forall i | 0 <= i < |ls| ensures Number(ls[i]).Some? { assert Number(LowerAll(ls)[i]).Some?; }
    }
  }

  lemma LowerReads(host: string)
    ensures Parsed(Lower(host)) == Parsed(host)
  {
    Ipv4.LowerHostLabels(host);
    LowerNumbers(Ipv4.HostLabels(host));
  }

  lemma PunycodeIsNoAddress(host: string)
    requires HasPunycode(host)
    ensures Ipv4.Parsed(host) == None
  {
    var i :| 0 <= i < |host| && PunycodeAt(host, i);
    assert Lower(host[i..i + 4])[1] == LowerChar(host[i + 1]);
    if Ipv4.Parsed(host).Some? { Ipv4.LiteralHasNo(host, host[i + 1]); }
  }

  lemma AddressIsAscii(host: string)
    requires Ipv4.Parsed(host).Some?
    ensures Ascii(host)
  {
    forall i | 0 <= i < |host| ensures host[i] < 0x80 as char {
      if host[i] >= 0x80 as char { Ipv4.LiteralHasNo(host, host[i]); }
    }
  }

  // ---- Where the two readings of a label agree ----

  function OwnNumber(l: string): Option<nat> {
    if Ipv4.IsNumeral(l) then Some(Ipv4.Worth(l)) else None
  }

  predicate AllZeros(s: string) {
    forall i :: 0 <= i < |s| ==> s[i] == '0'
  }

  /** What can be read off a label: it is not a bare 0x, and if it is decimal, longer than one digit
  and begins with 0, it is zeros and then at most one digit from 0 to 7. */
  predicate Agreed(l: string) {
    if Ipv4.IsHex(l) then |l| > 2
    else if |l| > 1 && l[0] == '0' && AllIn(l, Dec) then AllZeros(l[..|l| - 1]) && l[|l| - 1] <= '7'
    else true
  }

  lemma {:induction false} ZeroValueIsZeros(s: string)
    requires AllIn(s, Dec)
    ensures Value(s, Dec) == 0 <==> AllZeros(s)
  {
    if s != "" {
      var t, c := s[..|s| - 1], s[|s| - 1];
      ZeroValueIsZeros(t);
      assert DigitIn(c, Dec) >= 0;
      assert s == t + [c];
    }
  }

  lemma {:induction false} OctalIsLess(s: string)
    requires AllIn(s, Oct)
    ensures AllIn(s, Dec) && Value(s, Oct) <= Value(s, Dec)
    ensures s != "" ==> (Value(s, Oct) == Value(s, Dec) <==> AllZeros(s[..|s| - 1]))
  {
    forall i | 0 <= i < |s| ensures DigitIn(s[i], Dec) >= 0 { assert DigitIn(s[i], Oct) >= 0; }
    if s != "" {
      var t, c := s[..|s| - 1], s[|s| - 1];
      OctalIsLess(t);
      ZeroValueIsZeros(t);
      assert DigitIn(c, Oct) == DigitIn(c, Dec);
    }
  }

  // Zeros, then one digit that both bases have.
  predicate OneOctal(t: string)
    requires t != ""
  {
    AllZeros(t[..|t| - 1]) && t[|t| - 1] <= '7'
  }

  lemma TailReads(t: string)
    requires t != ""
    ensures ValueIn(t, Oct) == ValueIn(t, Dec) <==> (AllIn(t, Dec) ==> OneOctal(t))
  {
    if AllIn(t, Oct) {
      OctalIsLess(t);
      assert DigitIn(t[|t| - 1], Oct) >= 0;
    } else if AllIn(t, Dec) {
      var i :| 0 <= i < |t| && DigitIn(t[i], Oct) < 0;
      assert DigitIn(t[i], Dec) >= 0;
      if i < |t| - 1 { assert t[..|t| - 1][i] == t[i]; }
    }
  }

  lemma ZerosCons(z: string)
    ensures AllZeros(['0'] + z) <==> AllZeros(z)
  {
    if AllZeros(['0'] + z) {
      forall i | 0 <= i < |z| ensures z[i] == '0' { assert (['0'] + z)[i + 1] == '0'; }
    }
  }

  lemma ZeroBefore(t: string)
    requires t != "" && !Ipv4.IsHex(['0'] + t)
    ensures OwnNumber(['0'] + t) == ValueIn(t, Dec)
    ensures Agreed(['0'] + t) <==> (AllIn(t, Dec) ==> OneOctal(t))
  {
    var l := ['0'] + t;
    assert l[..|l| - 1] == ['0'] + t[..|t| - 1];
    ZerosCons(t[..|t| - 1]);
    if AllIn(t, Dec) {
      LeadingZeros(['0'], t, Dec);
    } else {
      var i :| 0 <= i < |t| && DigitIn(t[i], Dec) < 0;
      assert l[i + 1] == t[i];
    }
  }

  lemma OctalLabel(l: string)
    requires |l| > 1 && l[0] == '0' && !Ipv4.IsHex(l)
    ensures Number(l) == OwnNumber(l) <==> Agreed(l)
  {
    assert l == ['0'] + l[1..];
    TailReads(l[1..]);
    ZeroBefore(l[1..]);
  }

  /** The standard and the program read a label alike exactly when it is an agreed one. */
  lemma LabelAgreesExactlyWhen(l: string)
    ensures Number(l) == OwnNumber(l) <==> Agreed(l)
  {
    if !Ipv4.IsHex(l) && |l| > 1 && l[0] == '0' { OctalLabel(l); }
  }

  // ---- Where the two readings of a host agree ----

  predicate AgreedHost(host: string) {
    var ls := Ipv4.HostLabels(host);
    forall i :: 0 <= i < |ls| ==> Agreed(ls[i])
  }

  lemma SameParse(host: string)
    requires AgreedHost(host)
    ensures Parsed(host) == Ipv4.Parsed(host)
  {
    var ls := Ipv4.HostLabels(host);
    forall i | 0 <= i < |ls| ensures Number(ls[i]) == OwnNumber(ls[i]) { LabelAgreesExactlyWhen(ls[i]); }
    SameNumbers(ls);
  }

  lemma SameNumbers(ls: seq<string>)
    requires forall i :: 0 <= i < |ls| ==> Number(ls[i]) == OwnNumber(ls[i])
    ensures AllNumbers(ls) <==> Ipv4.AllNumerals(ls)
    ensures AllNumbers(ls) ==> Numbers(ls) == Ipv4.Worths(ls)
  {
    if AllNumbers(ls) {
      forall i | 0 <= i < |ls| ensures Ipv4.IsNumeral(ls[i]) { assert Number(ls[i]).Some?; }
    }
  }

  lemma SpelledOneWay(ws: seq<nat>, vs: seq<nat>, x: Ipv4.Address)
    requires Ipv4.SpelledBy(ws, x) && Ipv4.SpelledBy(vs, x) && |ws| == |vs|
    ensures ws == vs
  {
    forall i | 0 <= i < |ws| ensures ws[i] == vs[i] {
      if i < |ws| - 1 { assert ws[i] == x.Octet(i) == vs[i]; }
    }
  }

  lemma ParsesAgreeExactlyWhen(host: string)
    requires Ipv4.Parsed(host).Some? || Parsed(host).Some?
    ensures Parsed(host) == Ipv4.Parsed(host) <==> AgreedHost(host)
  {
    var ls := Ipv4.HostLabels(host);
    if AgreedHost(host) { SameParse(host); }
    if Parsed(host) == Ipv4.Parsed(host) {
      Ipv4.AssembledSpells(Numbers(ls));
      Ipv4.AssembledSpells(Ipv4.Worths(ls));
      SpelledOneWay(Numbers(ls), Ipv4.Worths(ls), Parsed(host).value);
      forall i | 0 <= i < |ls| ensures Agreed(ls[i]) {
        assert Number(ls[i]).Some? && Ipv4.IsNumeral(ls[i]);
        assert Numbers(ls)[i] == Ipv4.Worths(ls)[i];
        LabelAgreesExactlyWhen(ls[i]);
      }
    }
  }

  lemma AsciiReads(host: string, mapped: Option<string>)
    requires Ascii(host) && MapsTo(host, mapped) && !HasPunycode(host)
    ensures Read(mapped) == Parsed(host)
  {
    NarrowAscii(host);
    LowerReads(host);
  }

  lemma PunycodeReads(host: string, mapped: Option<string>)
    requires Ascii(host) && MapsTo(host, mapped) && HasPunycode(host)
    ensures Read(mapped) == None || Read(mapped) == Parsed(host)
  {
    NarrowAscii(host);
    LowerReads(host);
  }

  /** An ASCII host of agreed labels is the same address to both, or none to either. */
  lemma SameReading(host: string, mapped: Option<string>)
    requires MapsTo(host, mapped) && Ascii(host) && AgreedHost(host)
    ensures Read(mapped) == Ipv4.Parsed(host)
  {
    SameParse(host);
    if HasPunycode(host) {
      PunycodeIsNoAddress(host);
      PunycodeReads(host, mapped);
    } else {
      AsciiReads(host, mapped);
    }
  }

  /** A host that is an address to the program or to the standard is the same address to both exactly
  when it is ASCII and its labels are agreed ones. */
  lemma HostAgreesExactlyWhen(host: string, mapped: Option<string>)
    requires MapsTo(host, mapped) && (Ipv4.Parsed(host).Some? || Read(mapped).Some?)
    ensures Read(mapped) == Ipv4.Parsed(host) <==> Ascii(host) && AgreedHost(host)
  {
    if Read(mapped) == Ipv4.Parsed(host) {
      AddressIsAscii(host);
      if HasPunycode(host) { PunycodeIsNoAddress(host); }
      AsciiReads(host, mapped);
      ParsesAgreeExactlyWhen(host);
    }
    if Ascii(host) && AgreedHost(host) { SameReading(host, mapped); }
  }

  // ---- Three hosts read differently ----

  lemma OneDigit(c: char)
    requires IsDigit(c)
    ensures OwnNumber([c]) == Number([c]) == Some(DigitIn(c, Dec))
  {
    ValueOne(c, Dec);
  }

  lemma ThreeDigits(a: char, b: char, c: char, base: Base)
    requires DigitIn(a, base) >= 0 && DigitIn(b, base) >= 0 && DigitIn(c, base) >= 0
    ensures AllIn([a, b, c], base)
    ensures Value([a, b, c], base) == Times(Times(DigitIn(a, base), base) + DigitIn(b, base), base) + DigitIn(c, base)
  {
    ValueOne(a, base);
    ValueSnoc([a], b, base);
    ValueSnoc([a, b], c, base);
    assert [a] + [b] == [a, b] && [a, b] + [c] == [a, b, c];
  }

  lemma Octal177()
    ensures OwnNumber(['0'] + ['1', '7', '7']) == Some(177)
    ensures Number(['0'] + ['1', '7', '7']) == Some(127)
  {
    var t := ['1', '7', '7'];
    ThreeDigits('1', '7', '7', Oct);
    ThreeDigits('1', '7', '7', Dec);
    ZeroBefore(t);
    assert (['0'] + t)[1..] == t;
  }

  lemma Decimal127()
    ensures OwnNumber(['1', '2', '7']) == Number(['1', '2', '7']) == Some(127)
  {
    ThreeDigits('1', '2', '7', Dec);
  }

  function Dotted(a: string, b: string, c: string, d: string): string {
    Join([a, b, c, d], '.')
  }

  predicate Clean(l: string) { l != "" && '.' !in l }

  lemma DottedLabels(a: string, b: string, c: string, d: string)
    requires Clean(a) && Clean(b) && Clean(c) && Clean(d)
    ensures Ipv4.HostLabels(Dotted(a, b, c, d)) == [a, b, c, d]
  {
    SplitJoin([a, b, c, d], '.');
  }

  lemma StandardReads(a: string, b: string, c: string, d: string, x: Ipv4.Address)
    requires Clean(a) && Clean(b) && Clean(c) && Clean(d)
    requires Number(a) == Some(x.a) && Number(b) == Some(x.b) && Number(c) == Some(x.c) && Number(d) == Some(x.d)
    ensures Parsed(Dotted(a, b, c, d)) == Some(x)
  {
    DottedLabels(a, b, c, d);
    var ns := Numbers([a, b, c, d]);
    assert ns == [x.a, x.b, x.c, x.d];
    Ipv4.SpelledInRange(ns, x);
    Ipv4.AssembledSpells(ns);
    Ipv4.SpelledOnce(ns, x, Ipv4.FromWord(Ipv4.Assembled(ns, 4)));
  }

  lemma ProgramReads(a: string, b: string, c: string, d: string, x: Ipv4.Address)
    requires Clean(a) && Clean(b) && Clean(c) && Clean(d)
    requires OwnNumber(a) == Some(x.a) && OwnNumber(b) == Some(x.b)
    requires OwnNumber(c) == Some(x.c) && OwnNumber(d) == Some(x.d)
    ensures Ipv4.Parsed(Dotted(a, b, c, d)) == Some(x)
  {
    var ls := [a, b, c, d];
    Ipv4.FourSpell(a, b, c, d, x);
    assert Ipv4.Names(Join(ls, '.'), x);
    Ipv4.ParsesExactlyItsNames(Join(ls, '.'), x);
  }

  function OctalHost(): string { Dotted(['0'] + ['1', '7', '7'], ['0'], ['0'], ['1']) }

  /** 0177.0.0.1 is 177.0.0.1 to the program and 127.0.0.1 to the standard. */
  lemma OctalHostReadTwoWays()
    ensures Ipv4.Parsed(OctalHost()) == Some(Ipv4.Address(177, 0, 0, 1))
    ensures Parsed(OctalHost()) == Some(Ipv4.Address(127, 0, 0, 1))
  {
    Octal177();
    OneDigit('0');
    OneDigit('1');
    ProgramReads(['0'] + ['1', '7', '7'], ['0'], ['0'], ['1'], Ipv4.Address(177, 0, 0, 1));
    StandardReads(['0'] + ['1', '7', '7'], ['0'], ['0'], ['1'], Ipv4.Address(127, 0, 0, 1));
  }

  function BareHost(): string { Dotted(['1', '2', '7'], ['0', 'x'], ['0'], ['1']) }

  /** 127.0x.0.1 is no address to the program and 127.0.0.1 to the standard. */
  lemma BareHostReadTwoWays()
    ensures Ipv4.Parsed(BareHost()) == None
    ensures Parsed(BareHost()) == Some(Ipv4.Address(127, 0, 0, 1))
  {
    Decimal127();
    OneDigit('0');
    OneDigit('1');
    DottedLabels(['1', '2', '7'], ['0', 'x'], ['0'], ['1']);
    assert !Ipv4.IsNumeral(['0', 'x']) && Number(['0', 'x']) == Some(0);
    assert Ipv4.HostLabels(BareHost())[1] == ['0', 'x'];
    StandardReads(['1', '2', '7'], ['0', 'x'], ['0'], ['1'], Ipv4.Address(127, 0, 0, 1));
  }

  function Wide(d: nat): string
    requires d < 10
  {
    [0xEF as char, 0xBC as char, (0x90 + d) as char]
  }

  // A host with its first digit made full-width.
  function WideFirst(host: string): string
    requires host != "" && IsDigit(host[0])
  {
    Wide(DigitIn(host[0], Dec)) + host[1..]
  }

  lemma NarrowWide(d: nat, s: string)
    requires d < 10 && Ascii(s)
    ensures Narrow(Wide(d) + s) == [DigitChar(d)] + s
  {
    assert (Wide(d) + s)[3..] == s;
    NarrowAscii(s);
  }

  lemma WideFirstNarrows(host: string)
    requires host != "" && IsDigit(host[0]) && Ascii(host)
    ensures Narrow(WideFirst(host)) == host && !Ascii(WideFirst(host))
  {
    NarrowWide(DigitIn(host[0], Dec), host[1..]);
    assert host == [host[0]] + host[1..];
    assert WideFirst(host)[0] == 0xEF as char;
  }

  /** An address to both is none to the program, and the same as before to the standard, once its first digit
  is full-width. */
  lemma WideFirstReadTwoWays(host: string, x: Ipv4.Address, mapped: Option<string>)
    requires Ipv4.Parsed(host) == Some(x) && AgreedHost(host)
    requires host != "" && IsDigit(host[0]) && MapsTo(WideFirst(host), mapped)
    ensures Ipv4.Parsed(WideFirst(host)) == None && !Ascii(WideFirst(host)) && Read(mapped) == Some(x)
  {
    AddressIsAscii(host);
    WideFirstNarrows(host);
    if HasPunycode(host) { PunycodeIsNoAddress(host); }
    LowerReads(host);
    SameParse(host);
    if Ipv4.Parsed(WideFirst(host)).Some? { AddressIsAscii(WideFirst(host)); }
  }

  function Loopback(): (host: string)
    ensures host != "" && IsDigit(host[0])
  {
    Beginning(['1', '2', '7'], ['0'], ['0'], ['1']);
    Dotted(['1', '2', '7'], ['0'], ['0'], ['1'])
  }

  lemma LoopbackReads()
    ensures Ipv4.Parsed(Loopback()) == Some(Ipv4.Address(127, 0, 0, 1))
    ensures AgreedHost(Loopback())
  {
    var x := Ipv4.Address(127, 0, 0, 1);
    Decimal127();
    OneDigit('0');
    OneDigit('1');
    ProgramReads(['1', '2', '7'], ['0'], ['0'], ['1'], x);
    StandardReads(['1', '2', '7'], ['0'], ['0'], ['1'], x);
    ParsesAgreeExactlyWhen(Loopback());
  }

  lemma Beginning(a: string, b: string, c: string, d: string)
    requires a != ""
    ensures Dotted(a, b, c, d) != "" && Dotted(a, b, c, d)[0] == a[0]
  {
  }

  /** So it is with 127.0.0.1. */
  lemma WideHostReadTwoWays(mapped: Option<string>)
    requires MapsTo(WideFirst(Loopback()), mapped)
    ensures Ipv4.Parsed(WideFirst(Loopback())) == None
    ensures Read(mapped) == Some(Ipv4.Address(127, 0, 0, 1))
  {
    LoopbackReads();
    WideFirstReadTwoWays(Loopback(), Ipv4.Address(127, 0, 0, 1), mapped);
  }
}
