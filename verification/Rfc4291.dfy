/** The IPv6 texts of section 2.2 of RFC 4291, and where the program's reading goes beyond them. */
module Rfc4291 {
  import opened Numerals
  import opened Text
  import Ipv4
  import opened Ipv6

  // ---- The texts of the RFC ----

  function QuadLabels(x: Ipv4.Address): seq<string> {
    [Decimal(x.a), Decimal(x.b), Decimal(x.c), Decimal(x.d)]
  }

  // The IPv4 form: four plain decimal octets.
  function QuadText(x: Ipv4.Address): string {
    Join(QuadLabels(x), '.')
  }

  predicate PlainQuad(t: string) {
    IsQuad(t) && t == QuadText(Ipv4.Parsed(t).value)
  }

  // Groups, or groups and then the last two hextets in the IPv4 form.
  predicate RfcWrites(ts: seq<string>, hs: seq<nat>) {
    GroupsWrite(ts, hs) || (QuadWrites(ts, hs) && PlainQuad(ts[|ts| - 1]))
  }

  // One or more groups of zeros are a double colon.
  predicate RfcHalves(host: string, hs: seq<nat>, i: nat, j: nat, ts: seq<string>, us: seq<string>) {
    && i < j <= |hs| && Zeros(hs[i..j])
    && GroupsWrite(ts, hs[..i]) && RfcWrites(us, hs[j..])
    && host == Join(ts, ':') + "::" + Join(us, ':')
  }

  ghost predicate RfcText(host: string, hs: seq<nat>) {
    && |hs| == 8
    && ((exists ts :: RfcWrites(ts, hs) && host == Join(ts, ':'))
        || exists i, j, ts, us :: RfcHalves(host, hs, i, j, ts, us))
  }

  // ---- What can be read off a text ----

  function Tokens(part: string): seq<string> {
    if part == "" then [] else Split(part, ':')
  }

  predicate PlainEnd(part: string) {
    var ts := Tokens(part);
    ts != [] && '.' in ts[|ts| - 1] ==> PlainQuad(ts[|ts| - 1])
  }

  // The groups a half stands for, an IPv4 form for two.
  function Size(part: string): nat {
    var ts := Tokens(part);
    |ts| + if ts != [] && '.' in ts[|ts| - 1] then 1 else 0
  }

  /** The double colon, if any, has no dot before it and stands for something; the last token, if it has
  a dot, is four plain decimal octets. */
  predicate Conforming(host: string) {
    var dbl := FindDouble(host, 0);
    if dbl == |host| then PlainEnd(host)
    else
      var head, tail := host[..dbl], host[dbl + 2..];
      '.' !in head && PlainEnd(tail) && Size(head) + Size(tail) < 8
  }

  // ---- The tokens of a half that writes hextets ----

  lemma JoinedTokens(ts: seq<string>, hs: seq<nat>)
    requires Writes(ts, hs)
    ensures Tokens(Join(ts, ':')) == ts
  {
    WritesClean(ts, hs);
    CleanJoin(ts);
    if ts != [] { SplitJoin(ts, ':'); }
  }

  lemma PartTokens(part: string, hs: seq<nat>)
    requires Part(part) == Some(hs)
    ensures Writes(Tokens(part), hs) && Join(Tokens(part), ':') == part
  {
    if part != "" {
      JoinSplit(part, ':');
      GroupsRead(Split(part, ':'), hs);
    }
  }

  lemma GroupsHaveNoDot(ts: seq<string>, hs: seq<nat>)
    requires GroupsWrite(ts, hs)
    ensures NoneHas(ts, '.')
  {
    forall k | 0 <= k < |ts| ensures '.' !in ts[k] { GroupHasNo(ts[k], '.'); }
  }

  // The last token tells which it is.
  lemma LastToken(ts: seq<string>, hs: seq<nat>)
    requires Writes(ts, hs)
    ensures GroupsWrite(ts, hs) <==> !(ts != [] && '.' in ts[|ts| - 1])
  {
    if GroupsWrite(ts, hs) { GroupsHaveNoDot(ts, hs); }
  }

  lemma SizeIsLength(ts: seq<string>, hs: seq<nat>)
    requires Writes(ts, hs)
    ensures Size(Join(ts, ':')) == |hs|
    ensures GroupsWrite(ts, hs) <==> !(ts != [] && '.' in ts[|ts| - 1])
  {
    JoinedTokens(ts, hs);
    LastToken(ts, hs);
    WritesLength(ts, hs);
  }

  lemma WritesLength(ts: seq<string>, hs: seq<nat>)
    requires Writes(ts, hs)
    ensures |hs| == if GroupsWrite(ts, hs) then |ts| else |ts| + 1
  {}

  lemma EndIsPlain(ts: seq<string>, hs: seq<nat>)
    requires Writes(ts, hs)
    ensures PlainEnd(Join(ts, ':')) <==> RfcWrites(ts, hs)
  {
    JoinedTokens(ts, hs);
    SizeIsLength(ts, hs);
  }

  lemma {:induction false} DotInJoin(ts: seq<string>)
    requires ts != [] && '.' in ts[|ts| - 1]
    ensures '.' in Join(ts, ':')
  {
    if |ts| > 1 { DotInJoin(ts[1..]); }
  }

  lemma HeadHasNoDot(ts: seq<string>, hs: seq<nat>)
    requires Writes(ts, hs)
    ensures '.' !in Join(ts, ':') <==> GroupsWrite(ts, hs)
  {
    SizeIsLength(ts, hs);
    if GroupsWrite(ts, hs) {
      GroupsHaveNoDot(ts, hs);
      JoinHasNo(ts, ':', '.');
    } else {
      DotInJoin(ts);
    }
  }

  // ---- The two directions ----

  lemma ConformingFull(host: string, hs: seq<nat>)
    requires Parsed(host) == Some(hs) && FindDouble(host, 0) == |host| && Conforming(host)
    ensures RfcText(host, hs)
  {
    PartTokens(host, hs);
    EndIsPlain(Tokens(host), hs);
  }

  lemma ConformingHalves(head: string, tail: string, hi: seq<nat>, lo: seq<nat>)
    requires Part(head) == Some(hi) && Part(tail) == Some(lo)
    requires '.' !in head && PlainEnd(tail) && Size(head) + Size(tail) < 8
    ensures |hi| + |lo| < 8 && RfcText(head + "::" + tail, Filled(hi, lo))
  {
    var ts, us := Tokens(head), Tokens(tail);
    PartTokens(head, hi);
    PartTokens(tail, lo);
    HeadHasNoDot(ts, hi);
    EndIsPlain(us, lo);
    SizeIsLength(ts, hi);
    SizeIsLength(us, lo);
    var hs, i, j := Filled(hi, lo), |hi|, 8 - |lo|;
    assert hs[..i] == hi && hs[j..] == lo && Zeros(hs[i..j]);
    assert RfcHalves(head + "::" + tail, hs, i, j, ts, us);
  }

  lemma FullConforms(ts: seq<string>, hs: seq<nat>)
    requires RfcWrites(ts, hs)
    ensures Conforming(Join(ts, ':'))
  {
    var host := Join(ts, ':');
    WritesClean(ts, hs);
    CleanJoin(ts);
    FindDoubleFirst(host, 0, |host|);
    EndIsPlain(ts, hs);
  }

  lemma HalvesCut(ts: seq<string>, hi: seq<nat>, tail: string)
    requires Writes(ts, hi)
    ensures var head := Join(ts, ':');
      var host := head + "::" + tail;
      FindDouble(host, 0) == |head| && host[..|head|] == head && host[|head| + 2..] == tail
  {
    WritesClean(ts, hi);
    CleanJoin(ts);
    DoubleBetween(Join(ts, ':'), tail);
  }

  lemma CutConforms(host: string, head: string, tail: string)
    requires host == head + "::" + tail && FindDouble(host, 0) == |head|
    ensures Conforming(host) <==> '.' !in head && PlainEnd(tail) && Size(head) + Size(tail) < 8
  {
    assert host[..|head|] == head && host[|head| + 2..] == tail;
  }

  lemma HalvesConform(host: string, hs: seq<nat>, i: nat, j: nat, ts: seq<string>, us: seq<string>)
    requires |hs| == 8 && RfcHalves(host, hs, i, j, ts, us)
    ensures Conforming(host)
  {
    var head, tail, hi, lo := Join(ts, ':'), Join(us, ':'), hs[..i], hs[j..];
    HalvesCut(ts, hi, tail);
    HeadHasNoDot(ts, hi);
    EndIsPlain(us, lo);
    SizeIsLength(ts, hi);
    SizeIsLength(us, lo);
    CutConforms(host, head, tail);
  }

  lemma RfcParses(host: string, hs: seq<nat>)
    requires RfcText(host, hs)
    ensures Parsed(host) == Some(hs) && Conforming(host)
  {
    if ts :| RfcWrites(ts, hs) && host == Join(ts, ':') {
      FullParses(ts, hs);
      FullConforms(ts, hs);
    } else {
      var i, j, ts, us :| RfcHalves(host, hs, i, j, ts, us);
      assert Halves(host, hs, i, j, ts, us);
      ShortenedParses(host, hs, i, j, ts, us);
      HalvesConform(host, hs, i, j, ts, us);
    }
  }

  /** The RFC's texts of an address are exactly the conforming texts that parse to it: the parser reads all
  of them, and what else it reads has a dot before the double colon, a double colon that stands for
  nothing, or an IPv4 literal at the end that is not four plain decimal octets. */
  lemma RfcTextsExactly(host: string, hs: seq<nat>)
    ensures RfcText(host, hs) <==> Parsed(host) == Some(hs) && Conforming(host)
  {
    if RfcText(host, hs) { RfcParses(host, hs); }
    if Parsed(host) == Some(hs) && Conforming(host) {
      var dbl := FindDouble(host, 0);
      if dbl == |host| {
        ConformingFull(host, hs);
      } else {
        var head, tail := host[..dbl], host[dbl + 2..];
        CutAtDouble(host, dbl);
        ConformingHalves(head, tail, Part(head).value, Part(tail).value);
      }
    }
  }

  // ---- The three ways beyond the RFC, each with an input ----

  lemma DecimalLabel(n: nat)
    ensures Ipv4.IsNumeral(Decimal(n)) && Ipv4.Worth(Decimal(n)) == n
  {
    DecimalValue(n);
    Ipv4.DecimalForms("", Decimal(n));
    assert "" + Decimal(n) == Decimal(n);
  }

  lemma QuadTextSpells(x: Ipv4.Address)
    ensures Ipv4.Spells(QuadLabels(x), x)
  {
    DecimalLabel(x.a);
    DecimalLabel(x.b);
    DecimalLabel(x.c);
    DecimalLabel(x.d);
    Ipv4.FourSpell(Decimal(x.a), Decimal(x.b), Decimal(x.c), Decimal(x.d), x);
  }

  /** The IPv4 form of every address is one. */
  lemma QuadTextIsPlain(x: Ipv4.Address)
    ensures PlainQuad(QuadText(x)) && Ipv4.Parsed(QuadText(x)) == Some(x)
  {
    QuadTextSpells(x);
    assert Ipv4.Names(QuadText(x), x);
    Ipv4.ParsesExactlyItsNames(QuadText(x), x);
    assert QuadText(x)[|Decimal(x.a)|] == '.';
  }

  /** A double colon may stand for nothing, between eight written hextets. */
  lemma EmptyRunAccepted(host: string, hs: seq<nat>, i: nat, ts: seq<string>, us: seq<string>)
    requires |hs| == 8 && Halves(host, hs, i, i, ts, us)
    ensures Parsed(host) == Some(hs) && !RfcText(host, hs)
  {
    ShortenedParses(host, hs, i, i, ts, us);
    var head, tail := Join(ts, ':'), Join(us, ':');
    WritesClean(ts, hs[..i]);
    CleanJoin(ts);
    DoubleBetween(head, tail);
    assert host[..|head|] == head && host[|head| + 2..] == tail;
    SizeIsLength(ts, hs[..i]);
    SizeIsLength(us, hs[i..]);
    RfcTextsExactly(host, hs);
  }

  const ONES: seq<string> := [['1'], ['1'], ['1'], ['1']]

  function EightOnes(): string { Join(ONES, ':') + "::" + Join(ONES, ':') }

  /** As in 1:1:1:1::1:1:1:1. */
  lemma EightOnesAccepted()
    ensures var hs: seq<nat> := [1, 1, 1, 1, 1, 1, 1, 1];
      Parsed(EightOnes()) == Some(hs) && !RfcText(EightOnes(), hs)
  {
    var hs: seq<nat> := [1, 1, 1, 1, 1, 1, 1, 1];
    OnesWrite(hs);
    EmptyRunAccepted(EightOnes(), hs, 4, ONES, ONES);
  }

  lemma OnesWrite(hs: seq<nat>)
    requires hs == [1, 1, 1, 1, 1, 1, 1, 1]
    ensures Halves(EightOnes(), hs, 4, 4, ONES, ONES)
  {
    ValueOne('1', Hex);
    assert hs[..4] == [1, 1, 1, 1] && hs[4..] == [1, 1, 1, 1];
    assert GroupsWrite(ONES, hs[..4]);
  }

  /** An IPv4 literal may stand before the double colon, as the first two hextets. */
  lemma EarlyQuadAccepted(q: string)
    requires IsQuad(q)
    ensures var hs := Pair(Ipv4.Parsed(q).value) + [0, 0, 0, 0, 0, 0];
      Parsed(q + "::") == Some(hs) && !RfcText(q + "::", hs)
  {
    var p := Pair(Ipv4.Parsed(q).value);
    QuadBeforeTheRun(q);
    OneTokenWrites(q, p);
    WritesClean([q], p);
    CleanJoin([q]);
    DoubleBetween(q, "");
    assert q + "::" + "" == q + "::";
    assert (q + "::")[..|q|] == q;
    RfcTextsExactly(q + "::", p + [0, 0, 0, 0, 0, 0]);
  }

  /** As in 1.2.3.4::, whatever the address. */
  lemma EarlyQuadExample(x: Ipv4.Address)
    ensures Parsed(QuadText(x) + "::") == Some(Pair(x) + [0, 0, 0, 0, 0, 0])
    ensures !RfcText(QuadText(x) + "::", Pair(x) + [0, 0, 0, 0, 0, 0])
  {
    QuadTextIsPlain(x);
    EarlyQuadAccepted(QuadText(x));
  }

  /** The literal at the end may be any spelling of an IPv4 address with a dot in it. */
  lemma LooseQuadAccepted(q: string)
    requires IsQuad(q) && !PlainQuad(q)
    ensures var hs := [0, 0, 0, 0, 0, 0] + Pair(Ipv4.Parsed(q).value);
      Parsed("::" + q) == Some(hs) && !RfcText("::" + q, hs)
  {
    Compatible(q);
    LooseEndDoesNotConform(q);
    RfcTextsExactly("::" + q, [0, 0, 0, 0, 0, 0] + Pair(Ipv4.Parsed(q).value));
  }

  lemma LooseEndIsNotPlain(q: string)
    requires IsQuad(q) && !PlainQuad(q)
    ensures !PlainEnd(q)
  {
    var p := Pair(Ipv4.Parsed(q).value);
    OneTokenWrites(q, p);
    JoinedTokens([q], p);
    assert Tokens(q) == [q];
  }

  lemma LooseEndDoesNotConform(q: string)
    requires IsQuad(q) && !PlainQuad(q)
    ensures !Conforming("::" + q)
  {
    LooseEndIsNotPlain(q);
    DoubleBetween("", q);
    assert "" + "::" + q == "::" + q;
    assert ("::" + q)[2..] == q;
  }

  /** As in ::1.2.3.4. with a dot at the end, whatever the address. */
  lemma LooseQuadExample(x: Ipv4.Address)
    ensures var q := QuadText(x) + ".";
      && Parsed("::" + q) == Some([0, 0, 0, 0, 0, 0] + Pair(x))
      && !RfcText("::" + q, [0, 0, 0, 0, 0, 0] + Pair(x))
  {
    DottedQuad(x);
    LooseQuadAccepted(QuadText(x) + ".");
  }

  lemma DottedQuad(x: Ipv4.Address)
    ensures var q := QuadText(x) + "."; IsQuad(q) && !PlainQuad(q) && Ipv4.Parsed(q) == Some(x)
  {
    var q := QuadText(x) + ".";
    QuadTextSpells(x);
    assert Ipv4.Names(q, x);
    Ipv4.ParsesExactlyItsNames(q, x);
    assert q[|QuadText(x)|] == '.';
  }
}
