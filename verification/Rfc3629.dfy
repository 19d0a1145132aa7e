/** Whether what the entity decoder makes of well-formed UTF-8 (section 3 of RFC 3629) is well formed. */
module Rfc3629 {
  import opened Numerals
  import opened Text
  import opened Entities

  predicate Scalar(c: CodePoint) {
    !(0xD800 <= c <= 0xDFFF)
  }

  predicate Scalars(cs: seq<CodePoint>) {
    forall k :: 0 <= k < |cs| ==> Scalar(cs[k])
  }

  /** The RFC's octet sequences: the encodings of characters, surrogates not being any. */
  ghost predicate WellFormed(s: string) {
    exists cs :: Scalars(cs) && s == Utf8All(cs)
  }

  // ---- Encodings are read one way ----

  // How many bytes a first byte announces.
  function Announced(lead: char): nat {
    if lead < 0x80 as char then 1 else if lead < 0xE0 as char then 2 else if lead < 0xF0 as char then 3 else 4
  }

  lemma LeadAnnounces(c: CodePoint)
    ensures |Utf8(c)| == Announced(Utf8(c)[0])
  {
  }

  // The code point of an encoding.
  function Payload(r: string): int
    requires 1 <= |r| <= 4
  {
    if |r| == 1 then r[0] as int
    else if |r| == 2 then (r[0] as int - 0xC0) * 64 + (r[1] as int - 0x80)
    else if |r| == 3 then (r[0] as int - 0xE0) * 4096 + (r[1] as int - 0x80) * 64 + (r[2] as int - 0x80)
    else (r[0] as int - 0xF0) * 0x4_0000 + (r[1] as int - 0x80) * 4096 + (r[2] as int - 0x80) * 64
         + (r[3] as int - 0x80)
  }

  lemma Sextets(c: CodePoint)
    ensures c == c / 64 * 64 + c % 64
    ensures c == c / 4096 * 4096 + c / 64 % 64 * 64 + c % 64
    ensures c == c / 0x4_0000 * 0x4_0000 + c / 4096 % 64 * 4096 + c / 64 % 64 * 64 + c % 64
  {
    assert c / 4096 == c / 64 / 64 && c / 0x4_0000 == c / 4096 / 64;
  }

  lemma PayloadIs(c: CodePoint)
    ensures |Utf8(c)| <= 4 && Payload(Utf8(c)) == c
  {
    Sextets(c);
  }

  lemma FirstOnce(c: CodePoint, d: CodePoint, p: string, q: string)
    requires Utf8(c) + p == Utf8(d) + q
    ensures c == d && p == q
  {
    var s, n := Utf8(c) + p, |Utf8(c)|;
    LeadAnnounces(c);
    LeadAnnounces(d);
    assert s[0] == Utf8(c)[0] && (Utf8(d) + q)[0] == Utf8(d)[0];
    assert s[..n] == Utf8(c) && (Utf8(d) + q)[..n] == Utf8(d);
    assert s[n..] == p && (Utf8(d) + q)[n..] == q;
    PayloadIs(c);
    PayloadIs(d);
  }

  lemma {:induction false} AllOnce(cs: seq<CodePoint>, ds: seq<CodePoint>)
    requires Utf8All(cs) == Utf8All(ds)
    ensures cs == ds
  {
    if cs != [] && ds != [] {
      FirstOnce(cs[0], ds[0], Utf8All(cs[1..]), Utf8All(ds[1..]));
      AllOnce(cs[1..], ds[1..]);
      assert cs == [cs[0]] + cs[1..] && ds == [ds[0]] + ds[1..];
    }
  }

  /** An encoding of code points is well formed exactly when none is a surrogate. */
  lemma WellFormedExactlyWhen(cs: seq<CodePoint>)
    ensures WellFormed(Utf8All(cs)) <==> Scalars(cs)
  {
    if WellFormed(Utf8All(cs)) {
      var ds :| Scalars(ds) && Utf8All(cs) == Utf8All(ds);
      AllOnce(cs, ds);
    }
  }

  // ---- Where an ASCII byte stands ----

  lemma HighBytes(c: CodePoint)
    requires 0x80 <= c
    ensures forall k :: 0 <= k < |Utf8(c)| ==> Utf8(c)[k] >= 0x80 as char
  {
  }

  lemma AllCons(c: CodePoint, cs: seq<CodePoint>)
    ensures Utf8All([c] + cs) == Utf8(c) + Utf8All(cs)
  {
    assert ([c] + cs)[1..] == cs;
  }

  lemma {:induction false} AllConcat(cs: seq<CodePoint>, ds: seq<CodePoint>)
    ensures Utf8All(cs + ds) == Utf8All(cs) + Utf8All(ds)
  {
    if cs == [] {
      assert cs + ds == ds && "" + Utf8All(ds) == Utf8All(ds);
    } else {
      AllConcat(cs[1..], ds);
      AllCons(cs[0], cs[1..] + ds);
      AllCons(cs[0], cs[1..]);
      assert [cs[0]] + cs[1..] == cs && cs + ds == [cs[0]] + (cs[1..] + ds);
      Associative(Utf8(cs[0]), Utf8All(cs[1..]), Utf8All(ds));
    }
  }

  lemma StandsInside(s: string, i: nat, u: string, tail: string, j: nat)
    requires i <= j < i + |u| && i <= |s| && s[i..] == u + tail
    ensures j < |s| && s[j] == u[j - i]
    ensures |u| == 1 ==> s[j + 1..] == tail && s[i..j] == ""
  {
    SuffixSplits(s, i, u, tail);
    assert s[j] == s[i..i + |u|][j - i];
  }

  // It is the first code point.
  lemma StandsFirst(s: string, i: nat, cs: seq<CodePoint>, j: nat)
    requires cs != [] && i <= j < |s| && s[i..] == Utf8All(cs) && s[j] < 0x80 as char
    requires j < i + |Utf8(cs[0])|
    ensures cs[0] == s[j] as int && s[i..j] == "" && s[j + 1..] == Utf8All(cs[1..])
  {
    StandsInside(s, i, Utf8(cs[0]), Utf8All(cs[1..]), j);
    AsciiInside(cs[0], j - i);
  }

  lemma StandsAfter(s: string, i: nat, u: string, tail: string, j: nat)
    requires i + |u| <= j <= |s| && s[i..] == u + tail
    ensures s[i + |u|..] == tail && s[i..j] == u + s[i + |u|..j]
  {
    SuffixSplits(s, i, u, tail);
    assert s[i..j] == s[i..i + |u|] + s[i + |u|..j];
  }

  lemma AsciiInside(c: CodePoint, k: nat)
    requires k < |Utf8(c)| && Utf8(c)[k] < 0x80 as char
    ensures c < 0x80 && Utf8(c) == [c as char] && Utf8(c)[k] as int == c
  {
    if c >= 0x80 { HighBytes(c); }
  }

  lemma Prepended(c: CodePoint, cs: seq<CodePoint>, k: nat)
    requires cs != [] && cs[0] == c && 0 < k <= |cs|
    ensures Utf8All(cs[..k]) == Utf8(c) + Utf8All(cs[1..][..k - 1])
  {
    AllCons(c, cs[1..k]);
    assert cs[..k] == [c] + cs[1..k] && cs[1..][..k - 1] == cs[1..k];
  }

  // An ASCII byte is a code point of its own.
  lemma {:induction false} AsciiStands(s: string, i: nat, cs: seq<CodePoint>, j: nat) returns (k: nat)
    requires i <= j < |s| && s[i..] == Utf8All(cs) && s[j] < 0x80 as char
    ensures k < |cs| && cs[k] == s[j] as int
    ensures s[i..j] == Utf8All(cs[..k]) && s[j + 1..] == Utf8All(cs[k + 1..])
    decreases |cs|
  {
    var n := i + |Utf8(cs[0])|;
    if j < n {
      StandsFirst(s, i, cs, j);
      return 0;
    }
    StandsAfter(s, i, Utf8(cs[0]), Utf8All(cs[1..]), j);
    k := AsciiStands(s, n, cs[1..], j);
    Prepended(cs[0], cs, k + 1);
    assert cs[1..][k + 1..] == cs[k + 2..];
    k := k + 1;
  }

  // ---- What the decoder makes of it ----

  predicate Surrogate(e: string) {
    Code(e).Some? && !Scalar(Code(e).value)
  }

  // From position i on the decoder meets such an entity.
  predicate Meets(s: string, i: nat, such: string -> bool)
    requires i <= |s|
    decreases |s| - i
  {
    i < |s| && ((s[i] == '&' && EntityEnd(s, i).Some? && such(s[i + 1..EntityEnd(s, i).value]))
                || Meets(s, Next(s, i), such))
  }

  lemma {:induction false} PlainMeetsNone(s: string, i: nat, at: nat, such: string -> bool)
    requires i <= at <= |s| && forall k :: i <= k < at ==> s[k] != '&'
    ensures Meets(s, i, such) <==> Meets(s, at, such)
    decreases at - i
  {
    if i < at { PlainMeetsNone(s, i + 1, at, such); }
  }

  lemma Lacks(s: string, i: nat, u: string, rest: string, c: char)
    requires c !in u && i <= |s| && s[i..] == u + rest
    ensures i + |u| <= |s| && s[i + |u|..] == rest && s[i..i + |u|] == u
    ensures forall k :: i <= k < i + |u| ==> s[k] != c
  {
    SuffixSplits(s, i, u, rest);
    forall k | i <= k < i + |u| ensures s[k] != c { assert s[k] == s[i..i + |u|][k - i]; }
  }

  lemma NoAmpersand(c: CodePoint)
    requires c != '&' as int
    ensures '&' !in Utf8(c)
  {
    if c >= 0x80 { HighBytes(c); }
  }

  lemma One(c: CodePoint)
    ensures Utf8All([c]) == Utf8(c) && (Scalars([c]) <==> Scalar(c))
  {
    AllCons(c, []);
    assert Utf8(c) + "" == Utf8(c);
    assert [c][0] == c;
  }

  // An entity that is not replaced stays the code points it was.
  lemma Unreplaced(s: string, i: nat, semi: nat, cs: seq<CodePoint>, k: nat)
    requires i < semi < |s| && s[i] == '&' && s[semi] == ';' && k < |cs| && cs[k] == ';' as int
    requires s[i..semi] == Utf8All(cs[..k]) && Code(s[i + 1..semi]) == None
    ensures Entity(s[i + 1..semi]) == Utf8All(cs[..k + 1])
  {
    AllConcat(cs[..k], [cs[k]]);
    One(cs[k]);
    assert cs[..k + 1] == cs[..k] + [cs[k]];
    assert Utf8(cs[k]) == ";";
    WholeEntity(s, i, semi);
    assert s[i..semi + 1] == s[i..semi] + ";";
  }

  // What an entity becomes, and the code points after it.
  lemma EntityPoints(s: string, i: nat, semi: nat, n: nat, cs: seq<CodePoint>)
    returns (ps: seq<CodePoint>, left: seq<CodePoint>)
    requires i < semi < |s| && Scalars(cs) && s[i..] == Utf8All(cs) && s[i] == '&' && s[semi] == ';'
    requires n == semi + 1
    ensures |left| < |cs| && Scalars(left) && s[n..] == Utf8All(left)
    ensures Entity(s[i + 1..semi]) == Utf8All(ps)
    ensures Scalars(ps) <==> !Surrogate(s[i + 1..semi])
  {
    var k := AsciiStands(s, i, cs, semi);
    left := cs[k + 1..];
    ps := BecomesPoints(s, i, semi, cs, k);
  }

  lemma BecomesPoints(s: string, i: nat, semi: nat, cs: seq<CodePoint>, k: nat) returns (ps: seq<CodePoint>)
    requires i < semi < |s| && s[i] == '&' && s[semi] == ';' && Scalars(cs) && k < |cs| && cs[k] == ';' as int
    requires s[i..semi] == Utf8All(cs[..k])
    ensures Entity(s[i + 1..semi]) == Utf8All(ps)
    ensures Scalars(ps) <==> !Surrogate(s[i + 1..semi])
  {
    var code := Code(s[i + 1..semi]);
    if code.Some? {
      ps := [code.value];
      One(code.value);
    } else {
      ps := cs[..k + 1];
      Unreplaced(s, i, semi, cs, k);
    }
  }

  lemma Joined(ps: seq<CodePoint>, rest: seq<CodePoint>)
    ensures Utf8All(ps + rest) == Utf8All(ps) + Utf8All(rest)
    ensures Scalars(ps + rest) <==> Scalars(ps) && Scalars(rest)
  {
    AllConcat(ps, rest);
    assert forall k :: 0 <= k < |ps| ==> ps[k] == (ps + rest)[k];
    assert forall k :: 0 <= k < |rest| ==> rest[k] == (ps + rest)[|ps| + k];
  }

  lemma EndIs(s: string, i: nat, semi: nat)
    requires i < |s| && s[i] == '&' && EntityEnd(s, i) == Some(semi)
    ensures i < semi < |s| && s[semi] == ';' && semi - i <= 10 && FindChar(s, ';', i) == semi
  {
  }

  lemma MeetsEntity(s: string, i: nat, semi: nat, such: string -> bool)
    requires i < semi < |s| && s[i] == '&' && EntityEnd(s, i) == Some(semi)
    ensures Meets(s, i, such) <==> such(s[i + 1..semi]) || Meets(s, semi + 1, such)
  {
  }

  // The decoder goes from i to n, putting out; nothing met on the way is such exactly when it is clean.
  predicate Steps(s: string, i: nat, out: string, clean: bool, n: nat, entity: string -> string, such: string -> bool) {
    && i <= |s| && n <= |s|
    && Decoded(s, i, entity) == out + Decoded(s, n, entity)
    && (Meets(s, i, such) <==> !clean || Meets(s, n, such))
  }

  lemma EntitySteps(s: string, i: nat, semi: nat, n: nat, entity: string -> string, such: string -> bool)
    requires i < |s| && s[i] == '&' && EntityEnd(s, i) == Some(semi) && n == semi + 1
    ensures i < semi < |s| && s[semi] == ';'
    ensures Steps(s, i, entity(s[i + 1..semi]), !such(s[i + 1..semi]), n, entity, such)
  {
    EndIs(s, i, semi);
    DecodesEntity(s, i, semi, n, entity);
    MeetsEntity(s, i, semi, such);
  }

  lemma BareSteps(s: string, i: nat, entity: string -> string, such: string -> bool)
    requires i < |s| && s[i] == '&' && EntityEnd(s, i) == None
    ensures Steps(s, i, ['&'], true, i + 1, entity, such)
  {
  }

  lemma RunSteps(s: string, i: nat, n: nat, entity: string -> string, such: string -> bool)
    requires i <= n <= |s| && forall k :: i <= k < n ==> s[k] != '&'
    ensures Steps(s, i, s[i..n], true, n, entity, such)
  {
    PlainRun(s, i, n, entity);
    PlainMeetsNone(s, i, n, such);
  }

  lemma PlainSteps(s: string, i: nat, u: string, n: nat, rest: string, entity: string -> string, such: string -> bool)
    requires '&' !in u && i <= |s| && s[i..] == u + rest && n == i + |u|
    ensures n <= |s| && s[n..] == rest && Steps(s, i, u, true, n, entity, such)
  {
    Lacks(s, i, u, rest, '&');
    var v := s[i..n];
    assert v == u;
    RunSteps(s, i, n, entity, such);
  }

  lemma AmpersandAt(s: string, i: nat, tail: string)
    requires i <= |s| && s[i..] == ['&'] + tail
    ensures i < |s| && s[i] == '&' && s[i + 1..] == tail
  {
    StandsInside(s, i, ['&'], tail, i);
  }

  // One step, from a text of the code points cs: it puts the code points ps, and leaves those in left.
  predicate Took(s: string, i: nat, cs: seq<CodePoint>, ps: seq<CodePoint>, n: nat, left: seq<CodePoint>) {
    && |left| < |cs| && Scalars(left) && n <= |s| && s[n..] == Utf8All(left)
    && Steps(s, i, Utf8All(ps), Scalars(ps), n, Entity, Surrogate)
  }

  lemma ReplacedTakes(s: string, i: nat, cs: seq<CodePoint>, semi: nat, n: nat)
    returns (ps: seq<CodePoint>, left: seq<CodePoint>)
    requires Scalars(cs) && i < |s| && s[i..] == Utf8All(cs) && s[i] == '&'
    requires EntityEnd(s, i) == Some(semi) && n == semi + 1
    ensures Took(s, i, cs, ps, n, left)
  {
    EntitySteps(s, i, semi, n, Entity, Surrogate);
    ps, left := EntityPoints(s, i, semi, n, cs);
  }

  lemma AmpersandAlone() returns (ps: seq<CodePoint>)
    ensures Scalars(ps) && Utf8All(ps) == ['&']
  {
    ps := ['&' as int];
    One(ps[0]);
  }

  // The first byte is an ampersand exactly when the first code point is.
  lemma FirstByte(s: string, i: nat, cs: seq<CodePoint>)
    requires cs != [] && i <= |s| && s[i..] == Utf8All(cs)
    ensures i < |s| && (s[i] == '&' <==> cs[0] == '&' as int)
  {
    StandsInside(s, i, Utf8(cs[0]), Utf8All(cs[1..]), i);
    if cs[0] >= 0x80 { HighBytes(cs[0]); }
  }

  lemma FirstPoint(s: string, i: nat, cs: seq<CodePoint>)
    requires cs != [] && i <= |s| && s[i..] == Utf8All(cs) && cs[0] == '&' as int
    ensures i < |s| && s[i + 1..] == Utf8All(cs[1..])
  {
    assert Utf8All(cs) == ['&'] + Utf8All(cs[1..]);
    AmpersandAt(s, i, Utf8All(cs[1..]));
  }

  lemma OtherTakes(s: string, i: nat, cs: seq<CodePoint>) returns (ps: seq<CodePoint>, n: nat)
    requires Scalars(cs) && cs != [] && i <= |s| && s[i..] == Utf8All(cs) && cs[0] != '&' as int
    ensures Took(s, i, cs, ps, n, cs[1..])
  {
    var u := Utf8(cs[0]);
    ps, n := [cs[0]], i + |u|;
    NoAmpersand(cs[0]);
    One(cs[0]);
    PlainSteps(s, i, u, n, Utf8All(cs[1..]), Entity, Surrogate);
  }

  lemma BareTook(s: string, i: nat, cs: seq<CodePoint>, left: seq<CodePoint>) returns (ps: seq<CodePoint>)
    requires i < |s| && s[i] == '&' && EntityEnd(s, i) == None
    requires |left| < |cs| && Scalars(left) && s[i + 1..] == Utf8All(left)
    ensures Took(s, i, cs, ps, i + 1, left)
  {
    ps := AmpersandAlone();
    BareSteps(s, i, Entity, Surrogate);
  }

  lemma BareTakes(s: string, i: nat, cs: seq<CodePoint>, n: nat) returns (ps: seq<CodePoint>, left: seq<CodePoint>)
    requires Scalars(cs) && i < |s| && s[i..] == Utf8All(cs) && s[i] == '&' && EntityEnd(s, i) == None && n == i + 1
    ensures Took(s, i, cs, ps, n, left)
  {
    left := cs[1..];
    FirstByte(s, i, cs);
    FirstPoint(s, i, cs);
    ps := BareTook(s, i, cs, left);
  }

  lemma AmpersandTakes(s: string, i: nat, cs: seq<CodePoint>, n: nat) returns (ps: seq<CodePoint>, left: seq<CodePoint>)
    requires Scalars(cs) && i < |s| && s[i..] == Utf8All(cs) && s[i] == '&' && n == Next(s, i)
    ensures Took(s, i, cs, ps, n, left)
  {
    if EntityEnd(s, i) == None {
      ps, left := BareTakes(s, i, cs, n);
    } else {
      ps, left := ReplacedTakes(s, i, cs, EntityEnd(s, i).value, n);
    }
  }

  lemma StepPoints(s: string, i: nat, cs: seq<CodePoint>) returns (ps: seq<CodePoint>, n: nat, left: seq<CodePoint>)
    requires Scalars(cs) && cs != [] && i <= |s| && s[i..] == Utf8All(cs)
    ensures Took(s, i, cs, ps, n, left)
  {
    FirstByte(s, i, cs);
    if cs[0] == '&' as int {
      n := Next(s, i);
      ps, left := AmpersandTakes(s, i, cs, n);
    } else {
      ps, n := OtherTakes(s, i, cs);
      left := cs[1..];
    }
  }

  lemma {:induction false} DecodesTo(s: string, i: nat, cs: seq<CodePoint>) returns (ds: seq<CodePoint>)
    requires Scalars(cs) && i <= |s| && s[i..] == Utf8All(cs)
    ensures Decoded(s, i, Entity) == Utf8All(ds)
    ensures Scalars(ds) <==> !Meets(s, i, Surrogate)
    decreases |cs|
  {
    if cs == [] { return []; }
    var ps, n, left := StepPoints(s, i, cs);
    var rest := DecodesTo(s, n, left);
    ds := ps + rest;
    Joined(ps, rest);
  }

  /** Decoding well-formed text gives well-formed text exactly when no entity it replaces names a
  surrogate. */
  lemma DecodesWellFormedExactlyWhen(s: string)
    requires WellFormed(s)
    ensures WellFormed(Decoded(s, 0, Entity)) <==> !Meets(s, 0, Surrogate)
  {
    var cs :| Scalars(cs) && s == Utf8All(cs);
    assert s[0..] == s;
    var ds := DecodesTo(s, 0, cs);
    WellFormedExactlyWhen(ds);
  }

  // ---- An input ----

  lemma {:induction false} AsciiIsWellFormed(s: string) returns (cs: seq<CodePoint>)
    requires forall k :: 0 <= k < |s| ==> s[k] < 0x80 as char
    ensures Scalars(cs) && s == Utf8All(cs)
  {
    if s == "" { return []; }
    var rest := AsciiIsWellFormed(s[1..]);
    cs := [s[0] as int] + rest;
    AllCons(s[0] as int, rest);
    assert s == [s[0]] + s[1..];
  }

  lemma NumericIsAscii(digits: string, x: char)
    requires AllIn(digits, Hex) && HexMark(x)
    ensures WellFormed("&" + Numeric(digits, true, x) + ";")
  {
    var s := "&" + Numeric(digits, true, x) + ";";
    forall k | 0 <= k < |s| ensures s[k] < 0x80 as char {
      if 3 <= k < |s| - 1 { assert s[k] == digits[k - 3] && DigitIn(digits[k - 3], Hex) >= 0; }
    }
    var cs := AsciiIsWellFormed(s);
  }

  lemma SurrogateIllFormed(c: CodePoint)
    requires 0xD800 <= c <= 0xDFFF
    ensures !WellFormed(Utf8(c))
  {
    One(c);
    WellFormedExactlyWhen([c]);
  }

  lemma SurrogateDecodes(digits: string, x: char)
    requires digits != "" && |digits| <= 7 && AllIn(digits, Hex) && HexMark(x)
    requires 0xD800 <= Value(digits, Hex) <= 0xDFFF
    ensures var s := "&" + Numeric(digits, true, x) + ";";
      WellFormed(s) && !WellFormed(Decoded(s, 0, Entity))
  {
    NumericIsAscii(digits, x);
    NumericDecodesExactlyWhen(digits, true, x);
    SurrogateIllFormed(Value(digits, Hex));
  }

  lemma FourDigits(a: char, b: char, c: char, d: char)
    requires AllIn([a, b, c, d], Hex)
    ensures Value([a, b, c, d], Hex)
         == ((DigitIn(a, Hex) * 16 + DigitIn(b, Hex)) * 16 + DigitIn(c, Hex)) * 16 + DigitIn(d, Hex)
  {
    var s := [a, b, c, d];
    assert DigitIn(s[0], Hex) >= 0 && DigitIn(s[1], Hex) >= 0 && DigitIn(s[2], Hex) >= 0 && DigitIn(s[3], Hex) >= 0;
    ValueOne(a, Hex);
    ValueSnoc([a], b, Hex);
    ValueSnoc([a, b], c, Hex);
    ValueSnoc([a, b, c], d, Hex);
    assert [a] + [b] == [a, b] && [a, b] + [c] == [a, b, c] && [a, b, c] + [d] == s;
  }

  /** &#xD800; is well formed, and decodes to bytes that are not. */
  lemma LoneSurrogateDecodes()
    ensures var s := "&" + Numeric(['D', '8', '0', '0'], true, 'x') + ";";
      WellFormed(s) && !WellFormed(Decoded(s, 0, Entity))
  {
    FourDigits('D', '8', '0', '0');
    SurrogateDecodes(['D', '8', '0', '0'], 'x');
  }
}
