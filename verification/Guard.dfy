/** The fetch guard's verdict on a host (src/http.cpp): it depends on the address, however the host
spells, escapes or capitalises it. */
module Guard {
  import opened Numerals
  import opened Text
  import Ipv4
  import Ipv6
  import Whatwg

  datatype Verdict = Allowed | BlockedHost | BadUrl

  // ---- Percent decoding ----

  function ByteChar(hi: int, lo: int): char
    requires 0 <= hi < 16 && 0 <= lo < 16
  {
    (hi * 16 + lo) as char
  }

  function Decoded(s: string, i: nat): Option<string>
    requires i <= |s|
    decreases |s| - i
  {
    if i == |s| then Some("")
    else if s[i] != '%' then Prefixed(s[i], Decoded(s, i + 1))
    else if i + 2 >= |s| then None
    else if DigitIn(s[i + 1], Hex) < 0 || DigitIn(s[i + 2], Hex) < 0 then None
    else Prefixed(ByteChar(DigitIn(s[i + 1], Hex), DigitIn(s[i + 2], Hex)), Decoded(s, i + 3))
  }

  function Prefixed(c: char, rest: Option<string>): Option<string> {
    if rest.Some? then Some([c] + rest.value) else None
  }

  /** How one character is written: as it is, or as two hexadecimal digits after a percent sign. */
  datatype Written = Plain | Escaped(hi: char, lo: char)

  predicate Fits(w: Written, c: char) {
    if w.Plain? then c != '%'
    else DigitIn(w.hi, Hex) >= 0 && DigitIn(w.lo, Hex) >= 0 && c as int == 16 * DigitIn(w.hi, Hex) + DigitIn(w.lo, Hex)
  }

  predicate Writes(how: seq<Written>, s: string) {
    |how| == |s| && forall k :: 0 <= k < |s| ==> Fits(how[k], s[k])
  }

  function Piece(w: Written, c: char): string {
    if w.Plain? then [c] else ['%', w.hi, w.lo]
  }

  function Encoded(how: seq<Written>, s: string): string
    requires |how| == |s|
  {
    if s == "" then "" else Piece(how[0], s[0]) + Encoded(how[1..], s[1..])
  }

  lemma DecodePiece(t: string, i: nat, w: Written, c: char, rest: string, n: nat)
    requires Fits(w, c) && i <= |t| && t[i..] == Piece(w, c) + rest && n == i + |Piece(w, c)|
    ensures n <= |t| && t[n..] == rest && Decoded(t, i) == Prefixed(c, Decoded(t, n))
  {
    SuffixSplits(t, i, Piece(w, c), rest);
    assert t[i] == t[i..n][0];
    if w.Escaped? {
      assert t[i + 1] == t[i..n][1] && t[i + 2] == t[i..n][2];
    }
  }

  lemma {:induction false} DecodesFrom(t: string, i: nat, how: seq<Written>, s: string)
    requires Writes(how, s) && i <= |t| && t[i..] == Encoded(how, s)
    ensures Decoded(t, i) == Some(s)
    decreases |s|
  {
    if s != "" {
      var n := i + |Piece(how[0], s[0])|;
      assert Fits(how[0], s[0]);
      DecodePiece(t, i, how[0], s[0], Encoded(how[1..], s[1..]), n);
      DecodesFrom(t, n, how[1..], s[1..]);
      assert s == [s[0]] + s[1..];
    }
  }

  /** Whatever characters are escaped, and in whichever case, decoding gives the text back. */
  lemma DecodeEncode(how: seq<Written>, s: string)
    requires Writes(how, s)
    ensures Decoded(Encoded(how, s), 0) == Some(s)
  {
    assert Encoded(how, s)[0..] == Encoded(how, s);
    DecodesFrom(Encoded(how, s), 0, how, s);
  }

  method PercentDecode(s: string) returns (r: Option<string>)
    ensures r == Decoded(s, 0)
  {
    var out := "";
    var i := 0;
    AppendedNothing(Decoded(s, 0));
    while i < |s|
      invariant i <= |s|
      invariant Decoded(s, 0) == Appended(out, Decoded(s, i))
    {
      if s[i] == '%' {
        if i + 2 >= |s| { return None; }
        var hi := DigitIn(s[i + 1], Hex);
        var lo := DigitIn(s[i + 2], Hex);
        if hi < 0 || lo < 0 { return None; }
        AppendedStep(out, ByteChar(hi, lo), Decoded(s, i + 3));
        out := out + [ByteChar(hi, lo)];
        i := i + 2;
      } else {
        AppendedStep(out, s[i], Decoded(s, i + 1));
        out := out + [s[i]];
      }
      i := i + 1;
    }
    assert out + "" == out;
    return Some(out);
  }

  lemma AppendedNothing(rest: Option<string>)
    ensures Appended("", rest) == rest
  {
    if rest.Some? { assert "" + rest.value == rest.value; }
  }

  function Appended(out: string, rest: Option<string>): Option<string> {
    if rest.Some? then Some(out + rest.value) else None
  }

  lemma AppendedStep(out: string, c: char, rest: Option<string>)
    ensures Appended(out, Prefixed(c, rest)) == Appended(out + [c], rest)
  {
    if rest.Some? { assert out + ([c] + rest.value) == (out + [c]) + rest.value; }
  }

  lemma NamesNoColon(host: string, x: Ipv4.Address)
    requires Ipv4.Names(host, x)
    ensures host != "" && ':' !in host
  {
    Ipv4.ParsesExactlyItsNames(host, x);
    Ipv4.LiteralHasNo(host, ':');
  }

  // ---- The numeric backstop ----

  predicate AllDigits(s: string) {
    s != "" && AllIn(s, Dec)
  }

  predicate BeginsHex(domain: string) {
    |domain| >= 2 && domain[0] == '0' && (domain[1] == 'x' || domain[1] == 'X')
  }

  predicate NumericSpelling(domain: string) {
    var ls := Split(domain, '.');
    || BeginsHex(domain)
    || ((exists k :: 0 <= k < |ls| && ls[k] != "")
        && forall k :: 0 <= k < |ls| ==> ls[k] == "" || AllDigits(ls[k]))
  }

  method LooksNumeric(domain: string) returns (numeric: bool)
    ensures numeric <==> NumericSpelling(domain)
  {
    if BeginsHex(domain) { return true; }
    var labels := SplitAt(domain, '.');
    numeric := false;
    for k := 0 to |labels|
      invariant numeric <==> exists j :: 0 <= j < k && labels[j] != ""
      invariant forall j :: 0 <= j < k ==> labels[j] == "" || AllDigits(labels[j])
    {
      if labels[k] != "" {
        numeric := true;
        for i := 0 to |labels[k]|
          invariant AllIn(labels[k][..i], Dec)
        {
          if !IsDigit(labels[k][i]) {
            assert DigitIn(labels[k][i], Dec) < 0;
            return false;
          }
        }
        assert labels[k][..|labels[k]|] == labels[k];
      }
    }
  }

  // ---- The verdict ----

  predicate Localhost(s: string) {
    s == "localhost" || (|s| > 10 && s[|s| - 10..] == ".localhost")
  }

  function DomainVerdict(host: string): Verdict {
    if host == "" || ':' in host then BadUrl
    else if Ipv4.Parsed(host).Some? then
      if Ipv6.PrivateV4(Ipv4.Parsed(host).value) then BlockedHost else Allowed
    else if Localhost(host) || NumericSpelling(host) then BlockedHost
    else Allowed
  }

  // A host outside brackets.
  function HostVerdict(host: string): Verdict {
    if host == "" || Decoded(host, 0) == None then BadUrl
    else DomainVerdict(Lower(Decoded(host, 0).value))
  }

  // A host inside brackets.
  function LiteralVerdict(host: string): Verdict {
    if Ipv6.Parsed(host).None? then BadUrl
    else if Ipv6.PrivateV6(Ipv6.Parsed(host).value) then BlockedHost
    else Allowed
  }

  function AddressVerdict(x: Ipv4.Address): Verdict {
    if Ipv6.PrivateV4(x) then BlockedHost else Allowed
  }

  lemma PlainVerdict(host: string, x: Ipv4.Address)
    requires Ipv4.Names(host, x)
    ensures DomainVerdict(Lower(host)) == AddressVerdict(x)
  {
    Ipv4.ParsesExactlyItsNames(host, x);
    Ipv4.LowerParsed(host);
    Ipv4.LiteralHasNo(Lower(host), ':');
  }

  /** Whatever labels spell an address in the program's reading, in whichever base and letter case, and
  whatever characters are percent-escaped. */
  lemma SpelledVerdict(host: string, x: Ipv4.Address, how: seq<Written>)
    requires Ipv4.Names(host, x) && Writes(how, host)
    ensures HostVerdict(Encoded(how, host)) == AddressVerdict(x)
  {
    DecodeEncode(how, host);
    NamesNoColon(host, x);
    assert Encoded(how, host) != "";
    PlainVerdict(host, x);
  }

  /** One verdict for an address of the WHATWG URL Standard: whatever text the standard reads as it, in
  any letter case and however percent-escaped, provided it is ASCII once unescaped and its labels are ones
  both read alike. */
  lemma VerdictIsTheAddress(host: string, mapped: Option<string>, x: Ipv4.Address, how: seq<Written>)
    requires Whatwg.MapsTo(host, mapped) && Whatwg.Read(mapped) == Some(x)
    requires Whatwg.Ascii(host) && Whatwg.AgreedHost(host) && Writes(how, host)
    ensures HostVerdict(Encoded(how, host)) == AddressVerdict(x)
  {
    Whatwg.SameReading(host, mapped);
    Ipv4.ParsesExactlyItsNames(host, x);
    SpelledVerdict(host, x, how);
  }

  lemma ParsedVerdict(host: string, x: Ipv4.Address)
    requires Ipv4.Parsed(host) == Some(x)
    ensures DomainVerdict(host) == AddressVerdict(x)
  {
    Ipv4.LiteralHasNo(host, ':');
  }

  lemma TwoVerdicts()
    ensures AddressVerdict(Ipv4.Address(127, 0, 0, 1)) == BlockedHost
    ensures AddressVerdict(Ipv4.Address(177, 0, 0, 1)) == Allowed
  {}

  /** Without that proviso the verdict may be another address's: 0177.0.0.1 is 127.0.0.1 to the standard. */
  lemma OctalVerdictDiffers()
    ensures DomainVerdict(Whatwg.OctalHost()) == Allowed
    ensures var x := Ipv4.Address(127, 0, 0, 1);
      Whatwg.Parsed(Whatwg.OctalHost()) == Some(x) && AddressVerdict(x) == BlockedHost
  {
    Whatwg.OctalHostReadTwoWays();
    TwoVerdicts();
    ParsedVerdict(Whatwg.OctalHost(), Ipv4.Address(177, 0, 0, 1));
  }

  /** Or no address's at all: 127.0x.0.1 is taken for a domain. */
  lemma BareVerdictDiffers()
    ensures DomainVerdict(Whatwg.BareHost()) == Allowed
    ensures var x := Ipv4.Address(127, 0, 0, 1);
      Whatwg.Parsed(Whatwg.BareHost()) == Some(x) && AddressVerdict(x) == BlockedHost
  {
    Whatwg.BareHostReadTwoWays();
    assert DigitIn(['0', 'x'][1], Dec) < 0;
    FourLabelsAllowed(['1', '2', '7'], ['0', 'x'], ['0'], ['1']);
  }

  /** A host with a byte outside ASCII is never taken for an address: it is blocked exactly when it is under
  localhost or begins with 0x. */
  lemma NotAsciiVerdict(host: string)
    requires !Whatwg.Ascii(host) && ':' !in host
    ensures DomainVerdict(host) == if Localhost(host) || BeginsHex(host) then BlockedHost else Allowed
  {
    var i :| 0 <= i < |host| && host[i] >= 0x80 as char;
    if Ipv4.Parsed(host).Some? { Whatwg.AddressIsAscii(host); }
    NotNumeric(host, host[i]);
  }

  /** So every address both read alike gets no verdict of its own once its first digit is full-width, however
  the bytes are percent-escaped: the host is allowed, though the standard reads the address still. */
  lemma WideVerdictDiffers(host: string, x: Ipv4.Address, mapped: Option<string>, how: seq<Written>)
    requires Ipv4.Parsed(host) == Some(x) && Whatwg.AgreedHost(host)
    requires host != "" && IsDigit(host[0]) && Whatwg.MapsTo(Whatwg.WideFirst(host), mapped)
    requires Writes(how, Whatwg.WideFirst(host))
    ensures HostVerdict(Encoded(how, Whatwg.WideFirst(host))) == Allowed && Whatwg.Read(mapped) == Some(x)
  {
    var wide := Whatwg.WideFirst(host);
    Whatwg.WideFirstReadTwoWays(host, x, mapped);
    DecodeEncode(how, wide);
    WideAllowed(host, Lower(wide));
  }

  lemma WideHasNo(host: string, c: char)
    requires host != "" && IsDigit(host[0]) && c !in Lower(host) && c < 0x80 as char
    ensures c !in Lower(Whatwg.WideFirst(host))
  {
    var wide := Whatwg.WideFirst(host);
    forall k | 0 <= k < |wide| ensures LowerChar(wide[k]) != c {
      if k >= 3 { assert wide[k] == host[k - 2] && Lower(host)[k - 2] == LowerChar(host[k - 2]); }
    }
  }

  lemma WideAllowed(host: string, wide: string)
    requires Ipv4.Parsed(host).Some? && host != "" && IsDigit(host[0])
    requires wide == Lower(Whatwg.WideFirst(host))
    ensures DomainVerdict(wide) == Allowed
  {
    Ipv4.LowerParsed(host);
    Ipv4.LiteralHasNo(Lower(host), ':');
    Ipv4.LiteralHasNo(Lower(host), 't');
    WideHasNo(host, ':');
    WideHasNo(host, 't');
    LocalhostHasL(wide);
    WideNotAscii(host);
    NotAsciiVerdict(wide);
  }

  lemma WideNotAscii(host: string)
    requires host != "" && IsDigit(host[0])
    ensures var wide := Lower(Whatwg.WideFirst(host)); wide != "" && !Whatwg.Ascii(wide) && wide[0] != '0'
  {
    assert Lower(Whatwg.WideFirst(host))[0] == 0xEF as char;
  }

  lemma WideLoopbackAllowed(mapped: Option<string>, how: seq<Written>)
    requires Whatwg.MapsTo(Whatwg.WideFirst(Whatwg.Loopback()), mapped)
    requires Writes(how, Whatwg.WideFirst(Whatwg.Loopback()))
    ensures HostVerdict(Encoded(how, Whatwg.WideFirst(Whatwg.Loopback()))) == Allowed
    ensures Whatwg.Read(mapped).Some? && AddressVerdict(Whatwg.Read(mapped).value) == BlockedHost
  {
    Whatwg.LoopbackReads();
    WideVerdictDiffers(Whatwg.Loopback(), Ipv4.Address(127, 0, 0, 1), mapped, how);
  }

  // A label as it may stand in a host that is taken for a domain.
  predicate DomainLabel(l: string) { l != "" && '.' !in l && ':' !in l && 'l' !in l }

  lemma FourLabelsAllowed(a: string, b: string, c: string, d: string)
    requires DomainLabel(a) && DomainLabel(b) && DomainLabel(c) && DomainLabel(d)
    requires a[0] != '0' && !AllDigits(b)
    requires Ipv4.Parsed(Whatwg.Dotted(a, b, c, d)) == None
    ensures DomainVerdict(Whatwg.Dotted(a, b, c, d)) == Allowed
  {
    var ls := [a, b, c, d];
    SplitJoin(ls, '.');
    JoinHasNo(ls, '.', ':');
    JoinHasNo(ls, '.', 'l');
    Whatwg.Beginning(a, b, c, d);
    NamedAllowed(Whatwg.Dotted(a, b, c, d), ls, 1);
  }

  lemma NamedAllowed(host: string, ls: seq<string>, k: nat)
    requires host != "" && ':' !in host && 'l' !in host && host[0] != '0' && Ipv4.Parsed(host) == None
    requires Split(host, '.') == ls && k < |ls| && ls[k] != "" && !AllDigits(ls[k])
    ensures DomainVerdict(host) == Allowed
  {
    LocalhostHasL(host);
  }

  lemma LocalhostHasL(s: string)
    ensures Localhost(s) ==> 'l' in s && s[|s| - 1] == 't'
  {
    if s == "localhost" {
      assert s[0] == 'l' && s[8] == 't';
    } else if Localhost(s) {
      var tail := s[|s| - 10..];
      assert tail[1] == s[|s| - 9] && tail[9] == s[|s| - 1];
    }
  }

  /** The same inside brackets, for every text of a compatible or mapped address: in full, shortened, in
  hexadecimal groups or with the IPv4 literal at the end. */
  lemma BracketedVerdictIsTheAddress(host: string, x: Ipv4.Address, sixth: nat)
    requires sixth == 0 || sixth == 0xffff
    requires var hs := [0, 0, 0, 0, 0, sixth] + Ipv6.Pair(x); Ipv6.Full(host, hs) || Ipv6.Shortened(host, hs)
    ensures LiteralVerdict(host) == AddressVerdict(x)
  {
    Ipv6.ParsesExactlyItsTexts(host, [0, 0, 0, 0, 0, sixth] + Ipv6.Pair(x));
    Ipv6.EmbeddedSameVerdict(x, sixth);
  }

  /** A host that looks like a number and is allowed is, in the program's reading, an IPv4 address outside
  the deny list, and to the standard the same address exactly when its labels are read alike. */
  lemma NumbersAllowedAreAddresses(host: string, mapped: Option<string>)
    requires NumericSpelling(host) && DomainVerdict(host) == Allowed && Whatwg.MapsTo(host, mapped)
    ensures exists x :: Ipv4.Names(host, x) && !Ipv6.PrivateV4(x)
                        && (Whatwg.Read(mapped) == Some(x) <==> Whatwg.AgreedHost(host))
  {
    var x := Ipv4.Parsed(host).value;
    Ipv4.ParsesExactlyItsNames(host, x);
    Whatwg.AddressIsAscii(host);
    Whatwg.HostAgreesExactlyWhen(host, mapped);
  }

  // ---- The localhost family ----

  const LOCAL := "localhost"

  // localhost, or a name under it, as it may end in the root's dot.
  predicate LocalName(host: string) {
    var name := if host != "" && host[|host| - 1] == '.' then host[..|host| - 1] else host;
    name == LOCAL || (|name| > 10 && name[|name| - 10..] == "." + LOCAL)
  }

  lemma LocalNameHasL(host: string)
    requires LocalName(host)
    ensures 'l' in host
  {
    var name := if host != "" && host[|host| - 1] == '.' then host[..|host| - 1] else host;
    assert Localhost(name);
    LocalhostHasL(name);
  }

  /** A name of the localhost family is blocked exactly when it is written without the root's dot, or
  begins with 0x. */
  lemma LocalBlockedExactlyWhen(host: string)
    requires LocalName(host) && ':' !in host
    ensures DomainVerdict(host) == BlockedHost <==> host[|host| - 1] != '.' || BeginsHex(host)
    ensures DomainVerdict(host) != BlockedHost ==> DomainVerdict(host) == Allowed
  {
    LocalNameHasL(host);
    if Ipv4.Parsed(host).Some? { Ipv4.LiteralHasNo(host, 'l'); }
    NotNumeric(host, 'l');
    LocalhostHasL(host);
  }

  lemma NotNumeric(host: string, c: char)
    requires c in host && !IsDigit(c) && c != '.'
    ensures NumericSpelling(host) <==> BeginsHex(host)
  {
    var ls := Split(host, '.');
    JoinSplit(host, '.');
    if forall k :: 0 <= k < |ls| ==> ls[k] == "" || AllDigits(ls[k]) {
      forall k, i | 0 <= k < |ls| && 0 <= i < |ls[k]| ensures ls[k][i] != c {
        assert DigitIn(ls[k][i], Dec) >= 0;
      }
      JoinHasNo(ls, '.', c);
    }
  }

  lemma RootDotAllowed()
    ensures LocalName(LOCAL + ".") && DomainVerdict(LOCAL + ".") == Allowed
  {
    var host := LOCAL + ".";
    assert host[..9] == LOCAL && host[9] == '.' && host[0] == 'l';
    assert forall i :: 0 <= i < |LOCAL| ==> LOCAL[i] != ':';
    LocalBlockedExactlyWhen(host);
  }

  // ---- Every verdict, in the host's own terms ----

  // s is t with some of its characters escaped.
  ghost predicate Escapes(s: string, t: string) {
    exists how :: Writes(how, t) && s == Encoded(how, t)
  }

  lemma EncodedCons(w: Written, c: char, how: seq<Written>, t: string)
    requires |how| == |t|
    ensures Encoded([w] + how, [c] + t) == Piece(w, c) + Encoded(how, t)
  {
    assert ([w] + how)[1..] == how && ([c] + t)[1..] == t;
  }

  lemma WritesCons(w: Written, c: char, how: seq<Written>, t: string)
    requires Fits(w, c) && Writes(how, t)
    ensures Writes([w] + how, [c] + t)
  {
  }

  // How a host was written that decodes from position i to t.
  lemma {:induction false} HowWritten(s: string, i: nat, t: string) returns (how: seq<Written>)
    requires i <= |s| && Decoded(s, i) == Some(t)
    ensures Writes(how, t) && Encoded(how, t) == s[i..]
    decreases |s| - i
  {
    if i == |s| { return []; }
    var n, w := FirstWritten(s, i, t);
    var rest := HowWritten(s, n, t[1..]);
    WritesCons(w, t[0], rest, t[1..]);
    EncodedCons(w, t[0], rest, t[1..]);
    assert t == [t[0]] + t[1..] && s[i..] == s[i..n] + s[n..];
    how := [w] + rest;
  }

  lemma FirstWritten(s: string, i: nat, t: string) returns (n: nat, w: Written)
    requires i < |s| && Decoded(s, i) == Some(t)
    ensures i < n <= |s| && t != "" && Fits(w, t[0]) && s[i..n] == Piece(w, t[0]) && Decoded(s, n) == Some(t[1..])
  {
    if s[i] == '%' {
      n, w := i + 3, Escaped(s[i + 1], s[i + 2]);
      assert t[1..] == Decoded(s, n).value;
    } else {
      n, w := i + 1, Plain;
      assert t[1..] == Decoded(s, n).value;
    }
  }

  /** A host decodes to a text exactly when it is that text, escaped: any other host is malformed. */
  lemma DecodesExactlyWhen(s: string, t: string)
    ensures Decoded(s, 0) == Some(t) <==> Escapes(s, t)
  {
    if Decoded(s, 0) == Some(t) {
      var how := HowWritten(s, 0, t);
      assert s[0..] == s;
    }
    if Escapes(s, t) {
      var how :| Writes(how, t) && s == Encoded(how, t);
      DecodeEncode(how, t);
    }
  }

  predicate UnderLocalhost(t: string) {
    Folds(t, "localhost") || (|t| > 10 && Folds(t[|t| - 10..], ".localhost"))
  }

  lemma UnderLocalhostIs(t: string)
    ensures UnderLocalhost(t) <==> Localhost(Lower(t))
  {
    FoldsIs(t, "localhost");
    if |t| > 10 {
      FoldsIs(t[|t| - 10..], ".localhost");
      assert Lower(t)[|t| - 10..] == Lower(t[|t| - 10..]);
    }
  }

  // It begins with 0x, or is nothing but digits and dots, with a digit.
  predicate LikeNumber(t: string) {
    || (|t| >= 2 && t[0] == '0' && (t[1] == 'x' || t[1] == 'X'))
    || ((forall i :: 0 <= i < |t| ==> '0' <= t[i] <= '9' || t[i] == '.')
        && exists i :: 0 <= i < |t| && '0' <= t[i] <= '9')
  }

  lemma {:induction false} JoinHas(ts: seq<string>, sep: char, k: nat, c: char)
    requires k < |ts| && c in ts[k]
    ensures c in Join(ts, sep)
  {
    if k > 0 { JoinHas(ts[1..], sep, k - 1, c); }
  }

  lemma OnlyDigitsAndDots(s: string)
    requires forall i :: 0 <= i < |s| ==> IsDigit(s[i]) || s[i] == '.'
    ensures NumericSpelling(s) <==> exists i :: 0 <= i < |s| && IsDigit(s[i])
  {
    var ls := Split(s, '.');
    JoinSplit(s, '.');
    forall k, i | 0 <= k < |ls| && 0 <= i < |ls[k]| ensures DigitIn(ls[k][i], Dec) >= 0 {
      assert ls[k][i] in ls[k];
      JoinHas(ls, '.', k, ls[k][i]);
    }
    if i :| 0 <= i < |s| && IsDigit(s[i]) {
      if forall k :: 0 <= k < |ls| ==> ls[k] == "" { JoinHasNo(ls, '.', s[i]); }
    } else if k :| 0 <= k < |ls| && ls[k] != "" {
      JoinHas(ls, '.', k, ls[k][0]);
    }
  }

  /** What the backstop takes for a number: just that. */
  lemma NumericExactlyWhen(t: string)
    ensures NumericSpelling(t) <==> LikeNumber(t)
  {
    if i :| 0 <= i < |t| && !IsDigit(t[i]) && t[i] != '.' {
      NotNumeric(t, t[i]);
    } else {
      OnlyDigitsAndDots(t);
    }
  }

  lemma LikeNumberLowered(t: string)
    ensures LikeNumber(Lower(t)) <==> LikeNumber(t)
  {
    var s := Lower(t);
    forall i | 0 <= i < |t|
      ensures '0' <= s[i] <= '9' <==> '0' <= t[i] <= '9'
      ensures s[i] == '.' <==> t[i] == '.'
    {
      assert s[i] == LowerChar(t[i]);
    }
  }

  // The deny list: an address in one of its blocks, or what is no address and names this machine or looks
  // like a number.
  ghost predicate Denied(t: string) {
    if exists x :: Ipv4.Names(t, x) then exists x :: Ipv4.Names(t, x) && Ipv6.EightBlocks(x.Word())
    else UnderLocalhost(t) || LikeNumber(t)
  }

  predicate NoHost(t: string) { t == "" || ':' in t }

  lemma NoHostLowered(t: string)
    ensures NoHost(Lower(t)) <==> NoHost(t)
  {
    assert |Lower(t)| == |t|;
    assert forall i :: 0 <= i < |t| ==> (Lower(t)[i] == ':' <==> t[i] == ':');
    if ':' in t {
      var i :| 0 <= i < |t| && t[i] == ':';
      assert Lower(t)[i] == ':';
    }
  }

  lemma DecodedVerdict(t: string)
    ensures DomainVerdict(Lower(t)) == if NoHost(t) then BadUrl else if Denied(t) then BlockedHost else Allowed
  {
    NoHostLowered(t);
    Ipv4.LowerParsed(t);
    DeniedBy(t, Ipv4.Parsed(t));
    UnderLocalhostIs(t);
    NumericExactlyWhen(Lower(t));
    LikeNumberLowered(t);
  }

  lemma DeniedBy(t: string, parsed: Option<Ipv4.Address>)
    requires parsed == Ipv4.Parsed(t)
    ensures Denied(t) <==>
      if parsed.Some? then Ipv6.PrivateV4(parsed.value) else UnderLocalhost(t) || LikeNumber(t)
  {
    forall x ensures Ipv4.Names(t, x) <==> parsed == Some(x) { Ipv4.ParsesExactlyItsNames(t, x); }
    if parsed.Some? {
      assert Ipv4.Names(t, parsed.value);
      Ipv6.PrivateV4IsEightBlocks(parsed.value);
    }
  }

  /** The verdict on every host outside brackets: malformed exactly when it escapes no text, or nothing, or one
  with a colon; blocked exactly when it escapes another on the deny list. */
  lemma EveryVerdict(host: string)
    ensures HostVerdict(host) == BadUrl <==> forall t :: Escapes(host, t) ==> NoHost(t)
    ensures HostVerdict(host) == BlockedHost <==> exists t :: Escapes(host, t) && !NoHost(t) && Denied(t)
  {
    forall t ensures Escapes(host, t) <==> Decoded(host, 0) == Some(t) { DecodesExactlyWhen(host, t); }
    if Decoded(host, 0).Some? {
      DecodedVerdict(Decoded(host, 0).value);
      assert Escapes(host, Decoded(host, 0).value);
    }
  }

  /** And inside brackets: malformed exactly when it is no address's text, blocked exactly when it is one of
  an address on the deny list. */
  lemma EveryLiteralVerdict(host: string)
    ensures LiteralVerdict(host) == BadUrl <==> forall hs :: |hs| == 8 ==> !TextOf(host, hs)
    ensures LiteralVerdict(host) == BlockedHost <==> exists hs :: |hs| == 8 && TextOf(host, hs) && Ipv6.PrivateV6(hs)
  {
    forall hs: seq<nat> | |hs| == 8 ensures TextOf(host, hs) <==> Ipv6.Parsed(host) == Some(hs) {
      Ipv6.ParsesExactlyItsTexts(host, hs);
    }
    if Ipv6.Parsed(host).Some? {
      var hs := Ipv6.Parsed(host).value;
      Ipv6.ParsesExactlyItsTexts(host, hs);
      assert TextOf(host, hs);
    }
  }

  ghost predicate TextOf(host: string, hs: seq<nat>)
    requires |hs| == 8
  {
    Ipv6.Full(host, hs) || Ipv6.Shortened(host, hs)
  }

  /** The guard's steps on a host outside brackets. */
  method CheckHost(host: string) returns (v: Verdict)
    ensures v == HostVerdict(host)
  {
    if host == "" { return BadUrl; }
    var raw := PercentDecode(host);
    if raw == None { return BadUrl; }
    var decoded := Lower(raw.value);
    if decoded == "" || ':' in decoded { return BadUrl; }
    var v4 := new int[4];
    var ok := Ipv4.ParseIpv4Any(decoded, v4);
    if ok {
      assert v4[..] == Ipv4.Bytes(Ipv4.Parsed(decoded).value);
      return AddressVerdict(Ipv4.Address(v4[0], v4[1], v4[2], v4[3]));
    }
    if Localhost(decoded) { return BlockedHost; }
    var numeric := LooksNumeric(decoded);
    return if numeric then BlockedHost else Allowed;
  }
}
