/** IPv6 literals (src/http.cpp): eight groups, one run of zeros written ::, the last two groups of
either half perhaps written as an IPv4 literal. */
module Ipv6 {
  import opened Numerals
  import opened Text
  import Ipv4

  // ---- Tokens ----

  predicate IsGroup(t: string) {
    1 <= |t| <= 4 && AllIn(t, Hex)
  }

  // A token with a dot in it must be an IPv4 literal.
  predicate IsQuad(t: string) {
    '.' in t && Ipv4.Parsed(t).Some?
  }

  function Pair(x: Ipv4.Address): seq<nat> {
    [x.a * 256 + x.b, x.c * 256 + x.d]
  }

  predicate GroupsWrite(ts: seq<string>, hs: seq<nat>) {
    |ts| == |hs| && forall i :: 0 <= i < |ts| ==> IsGroup(ts[i]) && hs[i] == Value(ts[i], Hex)
  }

  predicate QuadWrites(ts: seq<string>, hs: seq<nat>) {
    && ts != [] && |hs| == |ts| + 1
    && var n := |ts| - 1;
       && GroupsWrite(ts[..n], hs[..n])
       && IsQuad(ts[n]) && hs[n..] == Pair(Ipv4.Parsed(ts[n]).value)
  }

  /** The tokens write the hextets: a group of one to four hexadecimal digits each, or an IPv4
  literal in the place of the last two. */
  predicate Writes(ts: seq<string>, hs: seq<nat>) {
    GroupsWrite(ts, hs) || QuadWrites(ts, hs)
  }

  // ---- Texts ----

  predicate Zeros(hs: seq<nat>) {
    forall i :: 0 <= i < |hs| ==> hs[i] == 0
  }

  ghost predicate Full(host: string, hs: seq<nat>) {
    exists ts :: Writes(ts, hs) && host == Join(ts, ':')
  }

  predicate Halves(host: string, hs: seq<nat>, i: nat, j: nat, ts: seq<string>, us: seq<string>) {
    && i <= j <= |hs| && Zeros(hs[i..j])
    && Writes(ts, hs[..i]) && Writes(us, hs[j..])
    && host == Join(ts, ':') + "::" + Join(us, ':')
  }

  ghost predicate Shortened(host: string, hs: seq<nat>) {
    exists i, j, ts, us :: Halves(host, hs, i, j, ts, us)
  }

  // ---- The parser ----

  function FindDouble(s: string, i: nat): (d: nat)
    requires i <= |s|
    ensures i <= d <= |s| && (d < |s| ==> d + 1 < |s| && s[d] == ':' && s[d + 1] == ':')
    decreases |s| - i
  {
    if i + 1 >= |s| then |s|
    else if s[i] == ':' && s[i + 1] == ':' then i
    else FindDouble(s, i + 1)
  }

  // One token's hextets; an IPv4 literal must be the last token.
  function Token(t: string, last: bool): Option<seq<nat>> {
    if '.' in t then
      if last && Ipv4.Parsed(t).Some? then Some(Pair(Ipv4.Parsed(t).value)) else None
    else if IsGroup(t) then Some([Value(t, Hex)])
    else None
  }

  function Groups(ts: seq<string>): Option<seq<nat>> {
    if ts == [] then Some([]) else Follow(Token(ts[0], |ts| == 1), Groups(ts[1..]))
  }

  function Follow(hs: Option<seq<nat>>, rest: Option<seq<nat>>): Option<seq<nat>> {
    if hs.Some? && rest.Some? then Some(hs.value + rest.value) else None
  }

  function Part(part: string): Option<seq<nat>> {
    if part == "" then Some([]) else Groups(Split(part, ':'))
  }

  function Filled(hi: seq<nat>, lo: seq<nat>): seq<nat>
    requires |hi| + |lo| <= 8
  {
    hi + seq(8 - |hi| - |lo|, _ => 0) + lo
  }

  function Parsed(host: string): Option<seq<nat>> {
    var dbl := FindDouble(host, 0);
    if ':' !in host then None
    else if dbl == |host| then
      var hi := Part(host);
      if hi.Some? && |hi.value| == 8 then hi else None
    else
      Halved(host[..dbl], host[dbl + 2..])
  }

  function Halved(head: string, tail: string): Option<seq<nat>> {
    var hi, lo := Part(head), Part(tail);
    if FindDouble(tail, 0) < |tail| then None
    else if hi.Some? && lo.Some? && |hi.value| + |lo.value| <= 8 then Some(Filled(hi.value, lo.value))
    else None
  }

  // ---- Tokens are what Groups reads ----

  lemma GroupHasNo(t: string, c: char)
    requires IsGroup(t) && DigitIn(c, Hex) < 0
    ensures c !in t
  {
    forall k | 0 <= k < |t| ensures t[k] != c { assert DigitIn(t[k], Hex) >= 0; }
  }

  lemma GroupsOfOne(t: string)
    ensures Groups([t]) == Token(t, true)
  {
    assert [t][1..] == [];
    var hs := Token(t, true);
    if hs.Some? { assert hs.value + [] == hs.value; }
  }

  lemma GroupsOfMore(t: string, rest: seq<string>)
    requires rest != []
    ensures Groups([t] + rest) == Follow(Token(t, false), Groups(rest))
  {
    assert ([t] + rest)[1..] == rest;
  }

  lemma QuadNotLast(ts: seq<string>, hs: seq<nat>)
    requires |ts| > 1 && '.' in ts[0]
    ensures !Writes(ts, hs)
  {
    if IsGroup(ts[0]) { GroupHasNo(ts[0], '.'); }
    assert ts[..|ts| - 1][0] == ts[0];
  }

  lemma OneGroup(t: string, hs: seq<nat>)
    ensures GroupsWrite([t], hs) <==> IsGroup(t) && hs == [Value(t, Hex)]
  {
    if |hs| == 1 {
      assert hs == [hs[0]];
      GroupsWriteCons([t], hs);
      assert [t][1..] == [] && hs[1..] == [];
    }
  }

  lemma OneQuad(t: string, hs: seq<nat>)
    ensures QuadWrites([t], hs) <==> IsQuad(t) && hs == Pair(Ipv4.Parsed(t).value)
  {
    assert [t][..0] == [];
    assert hs[0..] == hs;
  }

  lemma OneTokenWrites(t: string, hs: seq<nat>)
    ensures Token(t, true) == Some(hs) <==> Writes([t], hs)
  {
    if IsGroup(t) { GroupHasNo(t, '.'); }
    OneGroup(t, hs);
    OneQuad(t, hs);
  }

  lemma GroupFirst(ts: seq<string>, hs: seq<nat>)
    requires |ts| > 1 && '.' !in ts[0] && hs != []
    requires Groups(ts[1..]) == Some(hs[1..]) <==> Writes(ts[1..], hs[1..])
    ensures Groups(ts) == Some(hs) <==> Writes(ts, hs)
  {
    if IsGroup(ts[0]) {
      WritesCons(ts, hs);
      FollowOne(Value(ts[0], Hex), Groups(ts[1..]), hs);
    } else {
      NoGroupFirst(ts, hs);
    }
  }

  lemma FollowOne(v: nat, rest: Option<seq<nat>>, hs: seq<nat>)
    requires hs != []
    ensures Follow(Some([v]), rest) == Some(hs) <==> hs[0] == v && rest == Some(hs[1..])
  {
    assert hs == [hs[0]] + hs[1..];
    if rest.Some? { assert ([v] + rest.value)[1..] == rest.value; }
  }

  lemma NoGroupFirst(ts: seq<string>, hs: seq<nat>)
    requires |ts| > 1 && !IsGroup(ts[0])
    ensures !Writes(ts, hs)
  {
    assert ts[..|ts| - 1][0] == ts[0];
  }

  lemma {:induction false} GroupsRead(ts: seq<string>, hs: seq<nat>)
    ensures Groups(ts) == Some(hs) <==> Writes(ts, hs)
  {
    if |ts| == 1 {
      assert ts == [ts[0]];
      GroupsOfOne(ts[0]);
      OneTokenWrites(ts[0], hs);
    } else if ts != [] {
      if '.' in ts[0] {
        QuadNotLast(ts, hs);
      } else if hs != [] {
        GroupsRead(ts[1..], hs[1..]);
        GroupFirst(ts, hs);
      }
    }
  }

  lemma GroupsWriteCons(ts: seq<string>, hs: seq<nat>)
    requires ts != [] && hs != []
    ensures GroupsWrite(ts, hs) <==>
      IsGroup(ts[0]) && hs[0] == Value(ts[0], Hex) && GroupsWrite(ts[1..], hs[1..])
  {
    assert ts == [ts[0]] + ts[1..] && hs == [hs[0]] + hs[1..];
  }

  lemma QuadWritesCons(ts: seq<string>, hs: seq<nat>)
    requires ts != [] && hs != [] && '.' !in ts[0] && IsGroup(ts[0])
    ensures QuadWrites(ts, hs) <==> hs[0] == Value(ts[0], Hex) && QuadWrites(ts[1..], hs[1..])
  {
    if |ts| > 1 && |hs| == |ts| + 1 {
      var n := |ts| - 1;
      GroupsWriteCons(ts[..n], hs[..n]);
      assert ts[..n][1..] == ts[1..][..n - 1] && hs[..n][1..] == hs[1..][..n - 1];
      assert hs[1..][n - 1..] == hs[n..];
    }
  }

  lemma WritesCons(ts: seq<string>, hs: seq<nat>)
    requires ts != [] && hs != [] && '.' !in ts[0] && IsGroup(ts[0])
    ensures Writes(ts, hs) <==> hs[0] == Value(ts[0], Hex) && Writes(ts[1..], hs[1..])
  {
    GroupsWriteCons(ts, hs);
    QuadWritesCons(ts, hs);
  }

  // ---- Tokens are clean: not empty, no colon ----

  predicate Clean(ts: seq<string>) {
    NoneHas(ts, ':') && forall k :: 0 <= k < |ts| ==> ts[k] != ""
  }

  lemma WritesClean(ts: seq<string>, hs: seq<nat>)
    requires Writes(ts, hs)
    ensures Clean(ts)
  {
    forall k | 0 <= k < |ts| ensures ':' !in ts[k] && ts[k] != "" {
      if k < |ts| - 1 { assert QuadWrites(ts, hs) ==> ts[..|ts| - 1][k] == ts[k]; }
      if IsGroup(ts[k]) { GroupHasNo(ts[k], ':'); } else { Ipv4.LiteralHasNo(ts[k], ':'); }
    }
  }

  // ---- Where the double colon is ----

  predicate DoubleAt(s: string, k: nat) {
    k + 1 < |s| && s[k] == ':' && s[k + 1] == ':'
  }

  lemma {:induction false} FindDoubleFirst(s: string, i: nat, d: nat)
    requires i <= d && (d == |s| || DoubleAt(s, d))
    requires forall k :: i <= k < d ==> !DoubleAt(s, k)
    ensures FindDouble(s, i) == d
    decreases d - i
  {
    if i < d {
      assert !DoubleAt(s, i);
      if i + 1 < |s| { FindDoubleFirst(s, i + 1, d); }
    }
  }

  lemma {:induction false} CleanJoin(ts: seq<string>)
    requires Clean(ts)
    ensures var s := Join(ts, ':');
      && (forall k :: 0 <= k < |s| ==> !DoubleAt(s, k))
      && (s == "" <==> ts == [])
      && (ts != [] ==> s[0] != ':' && s[|s| - 1] != ':')
  {
    if |ts| == 1 {
      var s := ts[0];
      forall k | 0 <= k < |s| ensures s[k] != ':' { assert s[k] in s; }
    } else if |ts| > 1 {
      var t, rest := ts[0], Join(ts[1..], ':');
      CleanJoin(ts[1..]);
      var s := t + ":" + rest;
      forall k | 0 <= k < |t| ensures s[k] != ':' { assert t[k] in t; }
      forall k | 0 <= k < |s| ensures !DoubleAt(s, k) {
        if k > |t| { assert !DoubleAt(rest, k - |t| - 1); }
      }
    }
  }

  // ---- Every text of the address, and no other ----

  lemma PartReads(ts: seq<string>, hs: seq<nat>)
    requires Writes(ts, hs)
    ensures Part(Join(ts, ':')) == Some(hs)
  {
    WritesClean(ts, hs);
    CleanJoin(ts);
    GroupsRead(ts, hs);
    if ts != [] { SplitJoin(ts, ':'); }
  }

  lemma PartWritten(part: string, hs: seq<nat>) returns (ts: seq<string>)
    requires Part(part) == Some(hs)
    ensures Writes(ts, hs) && part == Join(ts, ':')
  {
    if part == "" {
      ts := [];
    } else {
      ts := Split(part, ':');
      JoinSplit(part, ':');
      GroupsRead(ts, hs);
    }
  }

  lemma ManyTokensManyColons(ts: seq<string>)
    requires |ts| > 1
    ensures ':' in Join(ts, ':')
  {
    assert Join(ts, ':')[|ts[0]|] == ':';
  }

  lemma FullParses(ts: seq<string>, hs: seq<nat>)
    requires |hs| == 8 && Writes(ts, hs)
    ensures Parsed(Join(ts, ':')) == Some(hs)
  {
    var host := Join(ts, ':');
    WritesClean(ts, hs);
    CleanJoin(ts);
    FindDoubleFirst(host, 0, |host|);
    ManyTokensManyColons(ts);
    PartReads(ts, hs);
  }

  lemma DoubleBetween(head: string, tail: string)
    requires forall k :: 0 <= k < |head| ==> !DoubleAt(head, k)
    requires head != "" ==> head[|head| - 1] != ':'
    ensures FindDouble(head + "::" + tail, 0) == |head|
  {
    var host := head + "::" + tail;
    forall k | 0 <= k < |head| ensures !DoubleAt(host, k) {
      assert !DoubleAt(head, k);
    }
    FindDoubleFirst(host, 0, |head|);
  }

  lemma FilledZeros(hs: seq<nat>, i: nat, j: nat)
    requires |hs| == 8 && i <= j <= 8 && Zeros(hs[i..j])
    ensures Filled(hs[..i], hs[j..]) == hs
  {
    assert forall k :: i <= k < j ==> hs[k] == hs[i..j][k - i];
  }

  lemma ParsedHalves(head: string, tail: string)
    requires forall k :: 0 <= k < |head| ==> !DoubleAt(head, k)
    requires head != "" ==> head[|head| - 1] != ':'
    ensures Parsed(head + "::" + tail) == Halved(head, tail)
  {
    var host := head + "::" + tail;
    DoubleBetween(head, tail);
    assert host[|head|] == ':';
    assert host[..|head|] == head && host[|head| + 2..] == tail;
  }

  lemma ShortenedParses(host: string, hs: seq<nat>, i: nat, j: nat, ts: seq<string>, us: seq<string>)
    requires |hs| == 8 && Halves(host, hs, i, j, ts, us)
    ensures Parsed(host) == Some(hs)
  {
    var head, tail := Join(ts, ':'), Join(us, ':');
    WritesClean(ts, hs[..i]);
    WritesClean(us, hs[j..]);
    CleanJoin(ts);
    CleanJoin(us);
    ParsedHalves(head, tail);
    FindDoubleFirst(tail, 0, |tail|);
    PartReads(ts, hs[..i]);
    PartReads(us, hs[j..]);
    FilledZeros(hs, i, j);
  }

  lemma HalvedIsShortened(head: string, tail: string, hs: seq<nat>)
    requires Halved(head, tail) == Some(hs)
    ensures |hs| == 8 && Shortened(head + "::" + tail, hs)
  {
    var hi, lo := Part(head).value, Part(tail).value;
    var ts := PartWritten(head, hi);
    var us := PartWritten(tail, lo);
    var i, j := |hi|, 8 - |lo|;
    assert hs[..i] == hi && hs[j..] == lo && Zeros(hs[i..j]);
    assert Halves(head + "::" + tail, hs, i, j, ts, us);
  }

  lemma PartIsFull(host: string, hs: seq<nat>)
    requires Part(host) == Some(hs)
    ensures Full(host, hs)
  {
    var ts := PartWritten(host, hs);
  }

  lemma CutAtDouble(host: string, d: nat)
    requires DoubleAt(host, d)
    ensures host == host[..d] + "::" + host[d + 2..]
  {
  }

  lemma ParsedIsText(host: string, hs: seq<nat>)
    requires Parsed(host) == Some(hs)
    ensures |hs| == 8 && (Full(host, hs) || Shortened(host, hs))
  {
    var dbl := FindDouble(host, 0);
    if dbl == |host| {
      PartIsFull(host, hs);
    } else {
      HalvedIsShortened(host[..dbl], host[dbl + 2..], hs);
      CutAtDouble(host, dbl);
    }
  }

  /** A text parses to eight hextets exactly when it writes them: in full, or with any one run of
  zeros as a double colon, and either half perhaps ending in an IPv4 literal. */
  lemma ParsesExactlyItsTexts(host: string, hs: seq<nat>)
    ensures Parsed(host) == Some(hs) <==> |hs| == 8 && (Full(host, hs) || Shortened(host, hs))
  {
    if Parsed(host) == Some(hs) { ParsedIsText(host, hs); }
    if |hs| == 8 && Full(host, hs) {
      var ts :| Writes(ts, hs) && host == Join(ts, ':');
      FullParses(ts, hs);
    }
    if |hs| == 8 && Shortened(host, hs) {
      var i, j, ts, us :| Halves(host, hs, i, j, ts, us);
      ShortenedParses(host, hs, i, j, ts, us);
    }
  }

  // An IPv4 literal before the double colon is the first 32 bits.
  lemma QuadBeforeTheRun(q: string)
    requires IsQuad(q)
    ensures Parsed(q + "::") == Some(Pair(Ipv4.Parsed(q).value) + [0, 0, 0, 0, 0, 0])
  {
    var p := Pair(Ipv4.Parsed(q).value);
    OneTokenWrites(q, p);
    RunLast([q], p);
    assert seq(6, _ => 0) == [0, 0, 0, 0, 0, 0];
  }

  lemma RunLast(ts: seq<string>, hi: seq<nat>)
    requires |hi| <= 8 && Writes(ts, hi)
    ensures Parsed(Join(ts, ':') + "::") == Some(hi + seq(8 - |hi|, _ => 0))
  {
    var zeros: seq<nat> := seq(8 - |hi|, _ => 0);
    var hs, i := hi + zeros, |hi|;
    assert hs[..i] == hi && hs[i..8] == zeros && hs[8..] == [];
    var host := Join(ts, ':') + "::";
    assert host + "" == host;
    assert Halves(host, hs, i, 8, ts, []);
    ShortenedParses(host, hs, i, 8, ts, []);
  }

  // ---- The verdict ----

  predicate PrivateV4(x: Ipv4.Address) {
    if x.a == 0 || x.a == 10 || x.a == 127 then true
    else if x.a == 100 then 64 <= x.b <= 127
    else if x.a == 169 then x.b == 254
    else if x.a == 172 then 16 <= x.b <= 31
    else if x.a == 192 then x.b == 168
    else x.a >= 224
  }

  // The network of all words that agree with `base` above its last `low` values.
  predicate InNet(w: nat, base: nat, low: nat)
    requires low > 0
  {
    w / low == base / low
  }

  predicate EightBlocks(w: nat) {
    || InNet(w, 0, 0x100_0000)
    || InNet(w, 0x0A00_0000, 0x100_0000)
    || InNet(w, 0x7F00_0000, 0x100_0000)
    || InNet(w, 0x6440_0000, 0x40_0000)
    || InNet(w, 0xA9FE_0000, 0x1_0000)
    || InNet(w, 0xAC10_0000, 0x10_0000)
    || InNet(w, 0xC0A8_0000, 0x1_0000)
    || InNet(w, 0xE000_0000, 0x2000_0000)
  }

  /** The IPv4 deny list is eight networks, written as address blocks. */
  lemma PrivateV4IsEightBlocks(x: Ipv4.Address)
    ensures PrivateV4(x) <==> EightBlocks(x.Word())
  {
    var w := x.Word();
    Ipv4.Quotients(x.a, x.b, x.c, x.d);
    assert w / 0x100_0000 == x.a && w / 0x1_0000 == x.a * 256 + x.b;
    assert w / 0x40_0000 == x.a * 4 + x.b / 64;
    assert w / 0x10_0000 == x.a * 16 + x.b / 16;
    assert w / 0x2000_0000 == x.a / 32;
  }

  predicate PrivateV6(seg: seq<nat>)
    requires |seg| == 8
  {
    if Zeros(seg) then true
    else if seg[7] == 1 && Zeros(seg[..7]) then true
    else if seg[0] / 64 == 0xfe80 / 64 then true
    else if seg[0] / 512 == 0xfc00 / 512 then true
    else
      var highZero := Zeros(seg[..5]);
      var mapped, compat := highZero && seg[5] == 0xffff, highZero && seg[5] == 0;
      (mapped || compat) && PrivateV4(Ipv4.Address(seg[6] / 256 % 256, seg[6] % 256, seg[7] / 256 % 256, seg[7] % 256))
  }

  lemma PairBack(x: Ipv4.Address)
    ensures var p := Pair(x); Ipv4.Address(p[0] / 256 % 256, p[0] % 256, p[1] / 256 % 256, p[1] % 256) == x
  {
    TwoBytes(x.a, x.b);
    TwoBytes(x.c, x.d);
  }

  lemma TwoBytes(a: nat, b: nat)
    requires a < 256 && b < 256
    ensures (a * 256 + b) / 256 % 256 == a && (a * 256 + b) % 256 == b
  {
  }

  predicate Hextets(seg: seq<nat>) {
    |seg| == 8 && forall k :: 0 <= k < 8 ==> seg[k] < 0x1_0000
  }

  // The IPv4 address in the last two hextets, and its word.
  function Embedded(seg: seq<nat>): Ipv4.Address
    requires Hextets(seg)
  {
    Ipv4.Address(seg[6] / 256, seg[6] % 256, seg[7] / 256, seg[7] % 256)
  }

  lemma EmbeddedWord(seg: seq<nat>)
    requires Hextets(seg)
    ensures Embedded(seg).Word() == seg[6] * 0x1_0000 + seg[7]
  {
    var a, b, c, d := seg[6] / 256, seg[6] % 256, seg[7] / 256, seg[7] % 256;
    assert seg[6] == a * 256 + b && seg[7] == c * 256 + d;
  }

  // ::/96 or ::ffff:0:0/96, the compatible and the mapped addresses.
  predicate HoldsV4(seg: seq<nat>)
    requires |seg| == 8
  {
    Zeros(seg[..5]) && (seg[5] == 0 || seg[5] == 0xffff)
  }

  lemma EmbeddedBlocks(seg: seq<nat>)
    requires Hextets(seg)
    ensures PrivateV4(Embedded(seg)) <==> EightBlocks(seg[6] * 0x1_0000 + seg[7])
  {
    EmbeddedWord(seg);
    PrivateV4IsEightBlocks(Embedded(seg));
  }

  // The unspecified and the loopback address are among the compatible ones, in the block 0.0.0.0/8.
  lemma SpecialAreCompatible(seg: seq<nat>)
    requires Hextets(seg) && (Zeros(seg) || (seg[7] == 1 && Zeros(seg[..7])))
    ensures HoldsV4(seg) && seg[0] == 0 && PrivateV4(Embedded(seg))
  {
    if !Zeros(seg) {
      assert forall k :: 0 <= k < 7 ==> seg[k] == seg[..7][k];
    }
    assert seg[6] == 0;
  }

  lemma NetworksOf(h: nat)
    requires h < 0x1_0000
    ensures h / 64 == 0xfe80 / 64 <==> 0xfe80 <= h < 0xfec0
    ensures h / 512 == 0xfc00 / 512 <==> 0xfc00 <= h < 0xfe00
  {
  }

  lemma PrivateV6Cases(seg: seq<nat>)
    requires Hextets(seg)
    ensures PrivateV6(seg) <==>
      || 0xfe80 <= seg[0] < 0xfec0
      || 0xfc00 <= seg[0] < 0xfe00
      || (HoldsV4(seg) && PrivateV4(Embedded(seg)))
  {
    NetworksOf(seg[0]);
    if Zeros(seg) || (seg[7] == 1 && Zeros(seg[..7])) { SpecialAreCompatible(seg); }
    assert seg[6] / 256 % 256 == seg[6] / 256 && seg[7] / 256 % 256 == seg[7] / 256;
  }

  /** The IPv6 deny list is two networks, fe80::/10 and fc00::/7, and the eight IPv4 ones twice, as compatible and as
  mapped addresses; :: and ::1 lie in the first of these. */
  lemma PrivateV6IsEighteenBlocks(seg: seq<nat>)
    requires Hextets(seg)
    ensures PrivateV6(seg) <==>
      || 0xfe80 <= seg[0] < 0xfec0
      || 0xfc00 <= seg[0] < 0xfe00
      || (HoldsV4(seg) && EightBlocks(seg[6] * 0x1_0000 + seg[7]))
  {
    PrivateV6Cases(seg);
    EmbeddedBlocks(seg);
  }

  /** So neither multicast (ff00::/8) nor an IPv4 address translated under 64:ff9b::/96 is private, whatever the rest:
  224.0.0.0/4 and 127.0.0.1 are. */
  lemma MulticastAllowed(seg: seq<nat>)
    requires Hextets(seg) && seg[0] / 0x100 == 0xff
    ensures !PrivateV6(seg)
  {
    PrivateV6Cases(seg);
    if HoldsV4(seg) { assert seg[..5][0] == seg[0]; }
  }

  lemma TranslatedAllowed(x: Ipv4.Address)
    ensures !PrivateV6([0x64, 0xff9b, 0, 0, 0, 0] + Pair(x))
  {
    var seg := [0x64, 0xff9b, 0, 0, 0, 0] + Pair(x);
    PrivateV6Cases(seg);
    assert seg[..5][0] == 0x64;
  }

  /** An IPv4 address gets one verdict, bare, mapped or compatible. */
  lemma EmbeddedSameVerdict(x: Ipv4.Address, sixth: nat)
    requires sixth == 0 || sixth == 0xffff
    ensures PrivateV6([0, 0, 0, 0, 0, sixth] + Pair(x)) <==> PrivateV4(x)
  {
    var seg := [0, 0, 0, 0, 0, sixth] + Pair(x);
    PairBack(x);
    assert seg[0] == 0 && seg[5] == sixth && seg[6] == Pair(x)[0] && seg[7] == Pair(x)[1];
    assert Zeros(seg[..5]);
    if Zeros(seg) {
      assert seg[6] == 0;
      assert x.a == 0;
    } else if seg[7] == 1 && Zeros(seg[..7]) {
      assert seg[..7][6] == 0;
      assert x.a == 0;
    }
  }

  lemma TwoFs()
    ensures AllIn("ff", Hex) && Value("ff", Hex) == 0xff
  {
    ValueOne('f', Hex);
    ValueSnoc("f", 'f', Hex);
    assert "f" + ['f'] == "ff";
  }

  lemma FourFs()
    ensures IsGroup("ffff") && Value("ffff", Hex) == 0xffff
  {
    TwoFs();
    ValueConcat("ff", "ff", Hex);
    assert "ff" + "ff" == "ffff";
    assert Shifted(0xff, Hex, 1) == 0xff0;
    assert Shifted(0xff, Hex, 2) == 0xff00;
  }

  /** An IPv4 literal q after :: or after ::ffff: is read as the address it names, and blocked exactly
  when that address is. */
  lemma LiteralSameVerdict(q: string)
    requires IsQuad(q)
    ensures var x := Ipv4.Parsed(q).value;
      var compatible, mapped := "::" + q, "::" + Join(["ffff", q], ':');
      && Parsed(compatible) == Some([0, 0, 0, 0, 0, 0] + Pair(x))
      && Parsed(mapped) == Some([0, 0, 0, 0, 0, 0xffff] + Pair(x))
      && (PrivateV6(Parsed(compatible).value) <==> PrivateV4(x))
      && (PrivateV6(Parsed(mapped).value) <==> PrivateV4(x))
  {
    Compatible(q);
    FourFs();
    GroupThenQuad("ffff", q);
    EmbeddedSameVerdict(Ipv4.Parsed(q).value, 0);
    EmbeddedSameVerdict(Ipv4.Parsed(q).value, 0xffff);
  }

  lemma RunFirst(us: seq<string>, lo: seq<nat>)
    requires |lo| <= 8 && Writes(us, lo)
    ensures Parsed("::" + Join(us, ':')) == Some(seq(8 - |lo|, _ => 0) + lo)
  {
    var zeros: seq<nat> := seq(8 - |lo|, _ => 0);
    var hs, j := zeros + lo, 8 - |lo|;
    assert hs[j..] == lo && hs[0..j] == zeros && hs[..0] == [];
    assert "" + "::" + Join(us, ':') == "::" + Join(us, ':');
    assert Halves("::" + Join(us, ':'), hs, 0, j, [], us);
    ShortenedParses("::" + Join(us, ':'), hs, 0, j, [], us);
  }

  lemma Compatible(q: string)
    requires IsQuad(q)
    ensures Parsed("::" + q) == Some([0, 0, 0, 0, 0, 0] + Pair(Ipv4.Parsed(q).value))
  {
    var p := Pair(Ipv4.Parsed(q).value);
    OneTokenWrites(q, p);
    RunFirst([q], p);
    assert seq(6, _ => 0) == [0, 0, 0, 0, 0, 0];
  }

  lemma GroupQuadWrites(g: string, q: string)
    requires IsGroup(g) && IsQuad(q)
    ensures QuadWrites([g, q], [Value(g, Hex)] + Pair(Ipv4.Parsed(q).value))
  {
    var v := Value(g, Hex);
    var us, lo := [g, q], [v] + Pair(Ipv4.Parsed(q).value);
    assert us[..1] == [g] && lo[..1] == [v] && lo[1..] == Pair(Ipv4.Parsed(q).value);
  }

  lemma RunFirstAs(us: seq<string>, lo: seq<nat>, hs: seq<nat>)
    requires |lo| <= 8 && Writes(us, lo) && hs == seq(8 - |lo|, _ => 0) + lo
    ensures Parsed("::" + Join(us, ':')) == Some(hs)
  {
    RunFirst(us, lo);
  }

  lemma FiveZeros(lo: seq<nat>, v: nat, p: seq<nat>)
    requires |p| == 2 && lo == [v] + p
    ensures seq(8 - |lo|, _ => 0) + lo == [0, 0, 0, 0, 0, v] + p
  {
  }

  lemma GroupThenQuad(g: string, q: string)
    requires IsGroup(g) && IsQuad(q)
    ensures Parsed("::" + Join([g, q], ':')) ==
      Some([0, 0, 0, 0, 0, Value(g, Hex)] + Pair(Ipv4.Parsed(q).value))
  {
    var p, v := Pair(Ipv4.Parsed(q).value), Value(g, Hex);
    GroupQuadWrites(g, q);
    FiveZeros([v] + p, v, p);
    RunFirstAs([g, q], [v] + p, [0, 0, 0, 0, 0, v] + p);
  }

  // ---- The program ----

  lemma PairOfBytes(bytes: seq<int>, x: Ipv4.Address)
    requires bytes == Ipv4.Bytes(x)
    ensures Pair(x) == [bytes[0] * 256 + bytes[1], bytes[2] * 256 + bytes[3]]
  {
  }

  method ReadQuad(tok: string) returns (r: Option<seq<nat>>)
    ensures r == if Ipv4.Parsed(tok).Some? then Some(Pair(Ipv4.Parsed(tok).value)) else None
  {
    var v4 := new int[4];
    var ok := Ipv4.ParseIpv4Any(tok, v4);
    if !ok { return None; }
    var bytes := v4[..];
    PairOfBytes(bytes, Ipv4.Parsed(tok).value);
    return Some([bytes[0] * 256 + bytes[1], bytes[2] * 256 + bytes[3]]);
  }

  method ReadToken(tok: string, last: bool) returns (r: Option<seq<nat>>)
    ensures r == Token(tok, last)
  {
    if tok == "" { return None; }
    if '.' in tok {
      r := ReadQuad(tok);
      if r == None { return None; }
      if !last { return None; }
      return;
    }
    if |tok| > 4 { return None; }
    var v := Ipv4.ParseUint(tok, Hex, 0xFFFF);
    FourDigits(tok);
    if v == None { return None; }
    return Some([v.value]);
  }

  /** The loop over one half: it cuts the tokens and reads them as it goes. */
  method ParseGroup(part: string) returns (r: Option<seq<nat>>)
    ensures r == Part(part)
  {
    if part == "" { return Some([]); }
    var into: seq<nat> := [];
    var start, i := 0, 0;
    NothingBefore(Part(part));
    while i <= |part|
      invariant 0 <= start <= i <= |part| + 1
      invariant Part(part) == Remaining(part, into, start, i)
    {
      if i == |part| || part[i] == ':' {
        var hs := ReadToken(part[start..i], i == |part|);
        TokenStep(part, into, start, i);
        if hs == None { return None; }
        into := into + hs.value;
        start := i + 1;
      }
      i := i + 1;
    }
    return Some(into);
  }

  // What the loop makes of the half: the hextets it has, then those still to come.
  function Remaining(part: string, into: seq<nat>, start: nat, i: nat): Option<seq<nat>>
    requires start <= i <= |part| + 1
  {
    if i <= |part| then Follow(Some(into), Groups(Pieces(part, ':', start, i))) else Some(into)
  }

  lemma NothingBefore(rest: Option<seq<nat>>)
    ensures Follow(Some([]), rest) == rest
  {
    if rest.Some? { assert [] + rest.value == rest.value; }
  }

  lemma FollowFollow(a: seq<nat>, b: seq<nat>, rest: Option<seq<nat>>)
    ensures Follow(Some(a), Follow(Some(b), rest)) == Follow(Some(a + b), rest)
  {
    if rest.Some? { assert a + (b + rest.value) == (a + b) + rest.value; }
  }

  lemma TokenStep(part: string, into: seq<nat>, start: nat, i: nat)
    requires start <= i <= |part| && (i == |part| || part[i] == ':')
    ensures Remaining(part, into, start, i) ==
      var hs := Token(part[start..i], i == |part|);
      if hs.Some? then Remaining(part, into + hs.value, i + 1, i + 1) else None
  {
    var tok := part[start..i];
    var hs := Token(tok, i == |part|);
    if i < |part| {
      var rest := Pieces(part, ':', i + 1, i + 1);
      GroupsOfMore(tok, rest);
      if hs.Some? { FollowFollow(into, hs.value, Groups(rest)); }
    } else {
      assert part[start..i] == part[start..];
      GroupsOfOne(tok);
    }
  }

  lemma FourDigits(t: string)
    ensures |t| <= 4 && AllIn(t, Hex) ==> Value(t, Hex) <= 0xFFFF
  {
    if |t| <= 4 && AllIn(t, Hex) {
      ValueBelow(t, Hex);
      assert Shifted(1, Hex, 1) == 0x10;
      assert Shifted(1, Hex, 2) == 0x100;
      assert Shifted(1, Hex, 3) == 0x1000;
      assert Shifted(1, Hex, 4) == 0x1_0000;
    }
  }

  method Double(s: string) returns (d: nat)
    ensures d == FindDouble(s, 0)
  {
    d := 0;
    while d + 1 < |s|
      invariant d <= |s| && FindDouble(s, d) == FindDouble(s, 0)
    {
      if s[d] == ':' && s[d + 1] == ':' { return; }
      d := d + 1;
    }
    d := |s|;
  }

  method Fill(hi: seq<nat>, lo: seq<nat>, out: array<int>)
    requires |hi| + |lo| <= 8 && out.Length == 8
    modifies out
    ensures out[..] == Filled(hi, lo)
  {
    var k := 0;
    for i := 0 to |hi|
      invariant k == i && out[..k] == hi[..k]
    {
      out[k] := hi[i];
      k := k + 1;
    }
    var zeros := 8 - |hi| - |lo|;
    for z := 0 to zeros
      invariant k == |hi| + z && out[..|hi|] == hi && forall j :: |hi| <= j < k ==> out[j] == 0
    {
      out[k] := 0;
      k := k + 1;
    }
    for i := 0 to |lo|
      invariant k == |hi| + zeros + i && out[..|hi|] == hi && forall j :: |hi| <= j < |hi| + zeros ==> out[j] == 0
      invariant forall j :: 0 <= j < i ==> out[|hi| + zeros + j] == lo[j]
    {
      out[k] := lo[i];
      k := k + 1;
    }
    assert out[|hi|..|hi| + zeros] == seq(zeros, _ => 0) && out[|hi| + zeros..] == lo;
    assert out[..] == out[..|hi|] + out[|hi|..|hi| + zeros] + out[|hi| + zeros..];
  }

  /** parse_ipv6: on success exactly the eight slots are written, on failure none. */
  method ParseIpv6(host: string, out: array<int>) returns (ok: bool)
    requires out.Length == 8
    modifies out
    ensures ok <==> Parsed(host).Some?
    ensures ok ==> out[..] == Parsed(host).value
    ensures !ok ==> out[..] == old(out[..])
  {
    if ':' !in host { return false; }
    var dbl := Double(host);
    var head, tail := host, "";
    var hasDbl := dbl < |host|;
    if hasDbl {
      head, tail := host[..dbl], host[dbl + 2..];
      var again := Double(tail);
      if again < |tail| { return false; }
    }
    var hi := ParseGroup(head);
    if hi == None { return false; }
    var lo := ParseGroup(tail);
    if lo == None { return false; }
    if hasDbl {
      if |hi.value| + |lo.value| > 8 { return false; }
      Fill(hi.value, lo.value, out);
    } else {
      if |hi.value| != 8 { return false; }
      for i := 0 to 8
        invariant out[..i] == hi.value[..i]
      {
        out[i] := hi.value[i];
      }
      assert out[..8] == out[..] && hi.value[..8] == hi.value;
    }
    return true;
  }
}
