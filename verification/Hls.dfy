/** HLS master playlists (src/hls.cpp): which variants a playlist lists, and which one is played. */
module Hls {
  import opened Numerals
  import opened Text

  // ---- Choosing a variant ----

  datatype Quality = Best | P1080 | P720 | P480 | Worst

  // A variant's height, when the playlist gave one.
  type Height = Option<nat>

  function Cap(q: Quality): Option<nat> {
    match q
    case P1080 => Some(1080)
    case P720 => Some(720)
    case P480 => Some(480)
    case _ => None
  }

  // quality_rank: within the cap it grows with the height, above it all are worse and it falls.
  function Rank(res: nat, cap: nat): int {
    if res <= cap then res as int else -(res as int)
  }

  predicate Preferred(a: Height, b: Height, q: Quality) {
    if a == None then false
    else if b == None then true
    else if Cap(q) == None then if q == Worst then a.value < b.value else a.value > b.value
    else Rank(a.value, Cap(q).value) > Rank(b.value, Cap(q).value)
  }

  predicate Within(h: Height, q: Quality) {
    h.Some? && (Cap(q).Some? ==> h.value <= Cap(q).value)
  }

  // k is the first of the highest, or of the lowest, of the eligible heights among the first n.
  predicate FirstBest(vs: seq<Height>, n: nat, k: nat, eligible: Height -> bool, highest: bool)
    requires n <= |vs|
  {
    && k < n && vs[k].Some? && eligible(vs[k])
    && (forall i :: 0 <= i < n && vs[i].Some? && eligible(vs[i]) ==>
          if highest then vs[i].value <= vs[k].value else vs[k].value <= vs[i].value)
    && (forall i :: 0 <= i < k ==> vs[i] != vs[k])
  }

  /** What the player promises: without a rung the highest known height, or the lowest for Worst; under
  a rung the highest known one within it, else the lowest known one; the first listed of those that
  tie, and the first variant of all when no height is known. */
  predicate Chosen(vs: seq<Height>, n: nat, q: Quality, k: nat)
    requires n <= |vs|
  {
    if forall i :: 0 <= i < n ==> vs[i] == None then k == 0
    else if exists i :: 0 <= i < n && Within(vs[i], q) then FirstBest(vs, n, k, h => Within(h, q), q != Worst)
    else FirstBest(vs, n, k, h => true, false)
  }

  lemma NextChosen(vs: seq<Height>, n: nat, q: Quality, k: nat)
    requires 0 < n < |vs| && k < n && Chosen(vs, n, q, k)
    ensures Chosen(vs, n + 1, q, if Preferred(vs[n], vs[k], q) then n else k)
  {
    var next := if Preferred(vs[n], vs[k], q) then n else k;
    if exists i :: 0 <= i < n + 1 && Within(vs[i], q) {
      NextWithin(vs, n, q, k, next);
    } else if exists i :: 0 <= i < n + 1 && vs[i].Some? {
      NextBeyond(vs, n, q, k, next);
    }
  }

  lemma NextWithin(vs: seq<Height>, n: nat, q: Quality, k: nat, next: nat)
    requires 0 < n < |vs| && k < n && Chosen(vs, n, q, k) && next == if Preferred(vs[n], vs[k], q) then n else k
    requires exists i :: 0 <= i < n + 1 && Within(vs[i], q)
    ensures FirstBest(vs, n + 1, next, h => Within(h, q), q != Worst)
  {
  }

  lemma NextBeyond(vs: seq<Height>, n: nat, q: Quality, k: nat, next: nat)
    requires 0 < n < |vs| && k < n && Chosen(vs, n, q, k) && next == if Preferred(vs[n], vs[k], q) then n else k
    requires (exists i :: 0 <= i < n + 1 && vs[i].Some?) && !exists i :: 0 <= i < n + 1 && Within(vs[i], q)
    ensures FirstBest(vs, n + 1, next, h => true, false)
  {
  }

  lemma FirstChosen(vs: seq<Height>, q: Quality)
    requires vs != []
    ensures Chosen(vs, 1, q, 0)
  {
  }

  /** select_variant, on the variants' heights; the answer is an index. */
  method SelectVariant(vs: seq<Height>, q: Quality) returns (pick: Option<nat>)
    ensures pick == None <==> vs == []
    ensures pick.Some? ==> pick.value < |vs| && Chosen(vs, |vs|, q, pick.value)
  {
    if vs == [] { return None; }
    var k: nat := 0;
    FirstChosen(vs, q);
    for i := 1 to |vs|
      invariant k < i && Chosen(vs, i, q, k)
    {
      NextChosen(vs, i, q, k);
      k := if Preferred(vs[i], vs[k], q) then i else k;
    }
    return Some(k);
  }

  /** That determines the variant. */
  lemma ChosenOnce(vs: seq<Height>, q: Quality, j: nat, k: nat)
    requires Chosen(vs, |vs|, q, j) && Chosen(vs, |vs|, q, k)
    ensures j == k
  {
  }

  // The highest of the known heights that the rung admits is at k, and it is the first listed with it.
  predicate HighestUpTo(vs: seq<Height>, k: nat, limit: nat) {
    && k < |vs| && vs[k].Some? && vs[k].value <= limit
    && (forall i :: 0 <= i < |vs| && vs[i].Some? && vs[i].value <= limit ==> vs[i].value <= vs[k].value)
    && forall i :: 0 <= i < k ==> vs[i] != vs[k]
  }

  predicate Lowest(vs: seq<Height>, k: nat) {
    && k < |vs| && vs[k].Some? && (forall i :: 0 <= i < |vs| && vs[i].Some? ==> vs[k].value <= vs[i].value)
    && forall i :: 0 <= i < k ==> vs[i] != vs[k]
  }

  predicate Rung(q: Quality, limit: nat) {
    (q == P1080 && limit == 1080) || (q == P720 && limit == 720) || (q == P480 && limit == 480)
  }

  /** In the rungs' numbers: the highest height up to the rung's, or the lowest when all are above it. */
  lemma ChosenUnderRung(vs: seq<Height>, q: Quality, k: nat, limit: nat)
    requires Rung(q, limit) && vs != []
    ensures Chosen(vs, |vs|, q, k) <==>
      if forall i :: 0 <= i < |vs| ==> vs[i] == None then k == 0
      else if exists i :: 0 <= i < |vs| && vs[i].Some? && vs[i].value <= limit then HighestUpTo(vs, k, limit)
      else Lowest(vs, k)
  {
  }

  lemma ChosenWithoutRung(vs: seq<Height>, q: Quality, k: nat, limit: nat)
    requires (q == Best || q == Worst) && vs != []
    requires forall i :: 0 <= i < |vs| && vs[i].Some? ==> vs[i].value <= limit
    ensures Chosen(vs, |vs|, q, k) <==>
      if forall i :: 0 <= i < |vs| ==> vs[i] == None then k == 0
      else if q == Best then HighestUpTo(vs, k, limit)
      else Lowest(vs, k)
  {
  }

  // ---- One line ----

  predicate TrimmedAway(c: char) { c == ' ' || c == '\t' || c == '\r' }

  function TrimFront(s: string): string {
    if s != "" && TrimmedAway(s[0]) then TrimFront(s[1..]) else s
  }

  function TrimBack(s: string): string {
    if s != "" && TrimmedAway(s[|s| - 1]) then TrimBack(s[..|s| - 1]) else s
  }

  function Trim(s: string): string {
    TrimBack(TrimFront(s))
  }

  const INF := "#EXT-X-STREAM-INF"

  const KEY := "RESOLUTION="

  predicate KeyAt(s: string, i: nat) {
    i + |KEY| <= |s| && s[i..i + |KEY|] == KEY
  }

  function FindKey(s: string, i: nat): (at: nat)
    requires i <= |s|
    ensures i <= at <= |s| && (at < |s| ==> KeyAt(s, at))
    decreases |s| - i
  {
    if i == |s| || KeyAt(s, i) then i else FindKey(s, i + 1)
  }

  function DigitsEnd(s: string, i: nat): (end: nat)
    requires i <= |s|
    ensures i <= end <= |s| && AllIn(s[i..end], Dec)
    decreases |s| - i
  {
    if i < |s| && IsDigit(s[i]) then
      var end := DigitsEnd(s, i + 1);
      assert s[i..end] == [s[i]] + s[i + 1..end];
      end
    else i
  }

  // The heights it reads: the overflow test is made before the last digit, so six 32-bit values are lost.
  const MAX_HEIGHT := 4294967289

  // stream_inf_height: the number after the x after the key.
  function InfHeight(line: string): Height {
    var key := FindKey(line, 0);
    if key == |line| then None else HeightAfter(line, key + |KEY|)
  }

  function HeightAfter(line: string, i: nat): Height
    requires i <= |line|
  {
    var x := FindChar(line, 'x', i);
    if x == |line| then None else NumberAt(line, x + 1)
  }

  function NumberAt(line: string, i: nat): Height
    requires i <= |line|
  {
    var digits := line[i..DigitsEnd(line, i)];
    if digits == "" || Value(digits, Dec) > MAX_HEIGHT then None else Some(Value(digits, Dec))
  }

  datatype Line = Blank | Comment | Inf(height: Height) | Media(url: string)

  function Classified(raw: string): Line {
    var line := Trim(raw);
    if line == "" then Blank
    else if INF <= line then Inf(InfHeight(line))
    else if line[0] == '#' then Comment
    else Media(line)
  }

  // ---- The whole playlist ----

  datatype Variant = Variant(url: string, height: Height)

  function ClassifiedAll(raws: seq<string>): seq<Line> {
    if raws == [] then [] else [Classified(raws[0])] + ClassifiedAll(raws[1..])
  }

  // The variants the lines list, when `pending` is what the last unused tag said.
  function Listed(lines: seq<Line>, pending: Option<Height>): seq<Variant>
    decreases |lines|
  {
    if lines == [] then []
    else
      match lines[0]
      case Inf(h) => Listed(lines[1..], Some(h))
      case Media(url) =>
        if pending.Some? then [Variant(url, pending.value)] + Listed(lines[1..], None)
        else Listed(lines[1..], None)
      case _ => Listed(lines[1..], pending)
  }

  function Parsed(text: string): seq<Variant> {
    Listed(ClassifiedAll(Split(text, '\n')), None)
  }

  // ---- Every printed playlist ----

  predicate AllTrimmed(s: string) {
    forall i :: 0 <= i < |s| ==> TrimmedAway(s[i])
  }

  lemma {:induction false} TrimFrontOf(p: string, s: string)
    requires AllTrimmed(p) && s != "" && !TrimmedAway(s[0])
    ensures TrimFront(p + s) == s
  {
    if p == "" {
      assert p + s == s;
    } else {
      TrimFrontOf(p[1..], s);
      assert (p + s)[1..] == p[1..] + s;
    }
  }

  lemma {:induction false} TrimBackOf(s: string, t: string)
    requires AllTrimmed(t) && s != "" && !TrimmedAway(s[|s| - 1])
    ensures TrimBack(s + t) == s
  {
    if t == "" {
      assert s + t == s;
    } else {
      TrimBackOf(s, t[..|t| - 1]);
      assert (s + t)[..|s + t| - 1] == s + t[..|t| - 1];
    }
  }

  // Only blanks, tabs and CR.
  predicate AllBlank(s: string) { forall i :: 0 <= i < |s| ==> s[i] == ' ' || s[i] == '\t' || s[i] == '\r' }

  // It neither begins nor ends with one.
  predicate NoBlankEnds(s: string) { s != "" ==> !AllBlank(s[..1]) && !AllBlank(s[|s| - 1..]) }

  ghost predicate PaddedIs(s: string, t: string) {
    exists p, q :: AllBlank(p) && AllBlank(q) && s == (p + t) + q
  }

  lemma {:induction false} FrontTrimmed(s: string) returns (p: string)
    ensures AllBlank(p) && s == p + TrimFront(s)
    ensures TrimFront(s) != "" ==> !TrimmedAway(TrimFront(s)[0])
  {
    if s != "" && TrimmedAway(s[0]) {
      var rest := FrontTrimmed(s[1..]);
      p := [s[0]] + rest;
    } else {
      p := "";
    }
  }

  lemma {:induction false} BackTrimmed(s: string) returns (q: string)
    ensures AllBlank(q) && s == TrimBack(s) + q
    ensures TrimBack(s) != "" ==> !TrimmedAway(TrimBack(s)[|TrimBack(s)| - 1])
    ensures TrimBack(s) != "" ==> TrimBack(s)[0] == s[0]
  {
    if s != "" && TrimmedAway(s[|s| - 1]) {
      var rest := BackTrimmed(s[..|s| - 1]);
      q := rest + [s[|s| - 1]];
    } else {
      q := "";
    }
  }

  lemma TrimIs(s: string, p: string, t: string, q: string)
    requires AllBlank(p) && AllBlank(q) && s == (p + t) + q && NoBlankEnds(t)
    ensures Trim(s) == t
  {
    if t == "" {
      assert s == p + q;
      TrimBlank(s);
    } else {
      assert t[..1] == [t[0]] && t[|t| - 1..] == [t[|t| - 1]];
      TrimPadded(p, t, q);
    }
  }

  /** Trimming takes away the blanks, tabs and CR around a text, and nothing else. */
  lemma TrimExactly(s: string, t: string)
    ensures Trim(s) == t <==> PaddedIs(s, t) && NoBlankEnds(t)
  {
    if Trim(s) == t {
      var p := FrontTrimmed(s);
      var q := BackTrimmed(TrimFront(s));
      assert s == (p + t) + q;
    }
    if PaddedIs(s, t) && NoBlankEnds(t) {
      var p, q :| AllBlank(p) && AllBlank(q) && s == (p + t) + q;
      TrimIs(s, p, t, q);
    }
  }

  // A text that neither begins nor ends with a character that is trimmed away.
  predicate Tight(s: string) {
    s != "" && !TrimmedAway(s[0]) && !TrimmedAway(s[|s| - 1])
  }

  lemma TrimPadded(p: string, s: string, t: string)
    requires AllTrimmed(p) && Tight(s) && AllTrimmed(t)
    ensures Trim(p + s + t) == s
  {
    assert p + s + t == p + (s + t);
    TrimFrontOf(p, s + t);
    TrimBackOf(s, t);
  }

  lemma {:induction false} FindKeyIs(s: string, i: nat, at: nat)
    requires i <= at < |s| && KeyAt(s, at) && forall k :: i <= k < at ==> !KeyAt(s, k)
    ensures FindKey(s, i) == at
    decreases at - i
  {
    if i < at { FindKeyIs(s, i + 1, at); }
  }

  lemma {:induction false} DigitsEndIs(s: string, i: nat, end: nat)
    requires i <= end <= |s| && AllIn(s[i..end], Dec) && (end < |s| ==> !IsDigit(s[end]))
    ensures DigitsEnd(s, i) == end
    decreases end - i
  {
    if i < end {
      assert DigitIn(s[i..end][0], Dec) >= 0;
      assert s[i + 1..end] == s[i..end][1..];
      DigitsEndIs(s, i + 1, end);
    }
  }

  // WIDTHxHEIGHT and what follows it.
  function Size(w: string, digits: string, rest: string): string {
    w + ("x" + (digits + rest))
  }

  // No RESOLUTION= begins before position n.
  predicate NoKeyBefore(line: string, n: nat) {
    forall k :: 0 <= k < n ==> !KeyAt(line, k)
  }

  /** A tag line gives the height written after the first RESOLUTION= and the x after it, if it is one
  the parser reads. */
  lemma PrintedHeight(line: string, head: string, w: string, digits: string, rest: string)
    requires line == head + (KEY + Size(w, digits, rest)) && NoKeyBefore(line, |head|)
    requires 'x' !in w && digits != "" && AllIn(digits, Dec) && (rest != "" ==> !IsDigit(rest[0]))
    ensures InfHeight(line) == if Value(digits, Dec) <= MAX_HEIGHT then Some(Value(digits, Dec)) else None
  {
    KeyFound(line, head, Size(w, digits, rest));
    SizeRead(line, |head| + |KEY|, w, digits, rest);
  }

  // A size with no x, or with no digit after it.
  ghost predicate NoSize(tail: string) {
    'x' !in tail || exists w, rest :: NoDigit(tail, w, rest)
  }

  predicate NoDigit(tail: string, w: string, rest: string) {
    tail == w + ("x" + rest) && 'x' !in w && (rest != "" ==> !IsDigit(rest[0]))
  }

  /** And none without an x after the key, or without a digit after the x. */
  lemma NoSizeNoHeight(line: string, head: string, tail: string)
    requires line == head + (KEY + tail) && NoKeyBefore(line, |head|) && NoSize(tail)
    ensures InfHeight(line) == None
  {
    var i := |head| + |KEY|;
    KeyFound(line, head, tail);
    if 'x' in tail {
      var w, rest :| NoDigit(tail, w, rest);
      NoDigitNoHeight(line, i, tail, w, rest, i + |w| + 1);
    } else {
      NoX(line, i, tail);
    }
  }

  lemma NoDigitNoHeight(line: string, i: nat, tail: string, w: string, rest: string, n: nat)
    requires i <= |line| && line[i..] == tail && NoDigit(tail, w, rest) && n == i + |w| + 1
    ensures HeightAfter(line, i) == None
  {
    XFound(line, i, w, rest);
    NoNumber(line, n, rest);
  }

  lemma NoX(line: string, i: nat, tail: string)
    requires i <= |line| && line[i..] == tail && 'x' !in tail
    ensures HeightAfter(line, i) == None
  {
    assert forall k :: i <= k < |line| ==> line[k] == tail[k - i];
  }

  lemma NoNumber(line: string, i: nat, rest: string)
    requires i <= |line| && line[i..] == rest && (rest != "" ==> !IsDigit(rest[0]))
    ensures NumberAt(line, i) == None
  {
    if rest != "" { assert line[i] == line[i..][0]; }
    assert DigitsEnd(line, i) == i;
  }

  lemma SizeRead(line: string, i: nat, w: string, digits: string, rest: string)
    requires i <= |line| && line[i..] == Size(w, digits, rest)
    requires 'x' !in w && digits != "" && AllIn(digits, Dec) && (rest != "" ==> !IsDigit(rest[0]))
    ensures HeightAfter(line, i) == if Value(digits, Dec) <= MAX_HEIGHT then Some(Value(digits, Dec)) else None
  {
    XFound(line, i, w, digits + rest);
    NumberFound(line, i + |w| + 1, digits, rest);
  }

  lemma KeyFound(line: string, head: string, tail: string)
    requires line == head + (KEY + tail) && NoKeyBefore(line, |head|)
    ensures |head| + |KEY| <= |line| && line[|head| + |KEY|..] == tail
    ensures InfHeight(line) == HeightAfter(line, |head| + |KEY|)
  {
    assert line[0..] == line;
    SuffixSplits(line, 0, head, KEY + tail);
    SuffixSplits(line, |head|, KEY, tail);
    FindKeyIs(line, 0, |head|);
  }

  lemma XFound(line: string, i: nat, w: string, tail: string)
    requires i <= |line| && line[i..] == w + ("x" + tail) && 'x' !in w
    ensures i + |w| + 1 <= |line| && line[i + |w| + 1..] == tail
    ensures HeightAfter(line, i) == NumberAt(line, i + |w| + 1)
  {
    var x := i + |w|;
    SuffixSplits(line, i, w, "x" + tail);
    SuffixSplits(line, x, "x", tail);
    forall k | i <= k < x ensures line[k] != 'x' { assert line[k] == line[i..x][k - i]; }
    assert line[x] == line[x..x + 1][0];
    FindCharIs(line, 'x', i, x);
  }

  lemma NumberFound(line: string, i: nat, digits: string, rest: string)
    requires i <= |line| && line[i..] == digits + rest
    requires digits != "" && AllIn(digits, Dec) && (rest != "" ==> !IsDigit(rest[0]))
    ensures NumberAt(line, i) == if Value(digits, Dec) <= MAX_HEIGHT then Some(Value(digits, Dec)) else None
  {
    SuffixSplits(line, i, digits, rest);
    if rest != "" { assert line[i + |digits|] == rest[0]; }
    DigitsEndIs(line, i, i + |digits|);
  }

  /** One variant as a playlist may list it: lines that are no tag of a variant, its tag, blank lines
  and comments, and its address. */
  datatype Entry = Entry(before: seq<Line>, height: Height, between: seq<Line>, url: string)

  predicate Idle(line: Line) { !line.Inf? }

  predicate Noise(line: Line) { line.Blank? || line.Comment? }

  predicate Interleaved(e: Entry) {
    && (forall i :: 0 <= i < |e.before| ==> Idle(e.before[i]))
    && (forall i :: 0 <= i < |e.between| ==> Noise(e.between[i]))
  }

  predicate AllInterleaved(es: seq<Entry>) {
    forall i :: 0 <= i < |es| ==> Interleaved(es[i])
  }

  function EntryLines(e: Entry): seq<Line> {
    e.before + ([Inf(e.height)] + (e.between + [Media(e.url)]))
  }

  function Lines(es: seq<Entry>): seq<Line> {
    if es == [] then [] else EntryLines(es[0]) + Lines(es[1..])
  }

  function Variants(es: seq<Entry>): seq<Variant> {
    if es == [] then [] else [Variant(es[0].url, es[0].height)] + Variants(es[1..])
  }

  lemma ListedCons(line: Line, rest: seq<Line>, pending: Option<Height>)
    ensures Listed([line] + rest, pending) ==
      if line.Inf? then Listed(rest, Some(line.height))
      else if line.Media? && pending.Some? then [Variant(line.url, pending.value)] + Listed(rest, None)
      else if line.Media? then Listed(rest, None)
      else Listed(rest, pending)
  {
    assert ([line] + rest)[1..] == rest;
  }

  lemma {:induction false} IdleSkipped(idle: seq<Line>, rest: seq<Line>)
    requires forall i :: 0 <= i < |idle| ==> Idle(idle[i])
    ensures Listed(idle + rest, None) == Listed(rest, None)
  {
    if idle == [] {
      assert idle + rest == rest;
    } else {
      IdleSkipped(idle[1..], rest);
      ListedCons(idle[0], idle[1..] + rest, None);
      assert idle + rest == [idle[0]] + (idle[1..] + rest);
    }
  }

  lemma {:induction false} NoiseSkipped(noise: seq<Line>, rest: seq<Line>, pending: Option<Height>)
    requires forall i :: 0 <= i < |noise| ==> Noise(noise[i])
    ensures Listed(noise + rest, pending) == Listed(rest, pending)
  {
    if noise == [] {
      assert noise + rest == rest;
    } else {
      NoiseSkipped(noise[1..], rest, pending);
      ListedCons(noise[0], noise[1..] + rest, pending);
      assert noise + rest == [noise[0]] + (noise[1..] + rest);
    }
  }

  lemma EntryListed(e: Entry, rest: seq<Line>)
    requires Interleaved(e)
    ensures Listed(EntryLines(e) + rest, None) == [Variant(e.url, e.height)] + Listed(rest, None)
  {
    var tail := [Media(e.url)] + rest;
    IdleSkipped(e.before, [Inf(e.height)] + (e.between + tail));
    ListedCons(Inf(e.height), e.between + tail, None);
    NoiseSkipped(e.between, tail, Some(e.height));
    ListedCons(Media(e.url), rest, Some(e.height));
    assert EntryLines(e) + rest == e.before + ([Inf(e.height)] + (e.between + tail));
  }

  lemma {:induction false} EntriesListed(es: seq<Entry>, after: seq<Line>)
    requires AllInterleaved(es) && forall i :: 0 <= i < |after| ==> Idle(after[i])
    ensures Listed(Lines(es) + after, None) == Variants(es)
  {
    if es == [] {
      IdleSkipped(after, []);
      assert after + [] == after && Lines(es) + after == after;
    } else {
      EntriesListed(es[1..], after);
      EntryListed(es[0], Lines(es[1..]) + after);
      assert Lines(es) + after == EntryLines(es[0]) + (Lines(es[1..]) + after);
    }
  }

  // ---- How a line may be written ----

  // A tag that gives a height: the first RESOLUTION= in it, a width, an x, the digits.
  predicate GivesHeight(tag: string, head: string, w: string, digits: string, rest: string, h: nat) {
    && tag == head + (KEY + Size(w, digits, rest)) && NoKeyBefore(tag, |head|) && 'x' !in w
    && digits != "" && AllIn(digits, Dec) && Value(digits, Dec) == h <= MAX_HEIGHT
    && (rest != "" ==> !IsDigit(rest[0]))
  }

  ghost predicate Says(tag: string, h: Height) {
    if h == None then NoKeyBefore(tag, |tag|)
    else exists head, w, digits, rest :: GivesHeight(tag, head, w, digits, rest, h.value)
  }

  // The text of a line without the blanks and CR around it.
  ghost predicate Spells(text: string, line: Line) {
    match line
    case Blank => text == ""
    case Comment => Tight(text) && text[0] == '#' && !(INF <= text)
    case Inf(h) => Tight(text) && INF <= text && Says(text, h)
    case Media(url) => Tight(text) && text[0] != '#' && text == url
  }

  /** A line as a playlist may write it, with any blanks and CR around its text. */
  ghost predicate Prints(raw: string, line: Line) {
    exists p, text, t :: AllTrimmed(p) && AllTrimmed(t) && Spells(text, line) && raw == p + text + t
  }

  lemma {:induction false} TrimBlank(s: string)
    requires AllTrimmed(s)
    ensures Trim(s) == ""
  {
    if s != "" { TrimBlank(s[1..]); }
  }

  lemma NoKeyNoHeight(tag: string)
    requires NoKeyBefore(tag, |tag|)
    ensures InfHeight(tag) == None
  {
    var key := FindKey(tag, 0);
    assert key < |tag| ==> KeyAt(tag, key);
  }

  lemma SaysHeight(tag: string, h: Height)
    requires Says(tag, h)
    ensures InfHeight(tag) == h
  {
    if h == None {
      NoKeyNoHeight(tag);
    } else {
      var head, w, digits, rest :| GivesHeight(tag, head, w, digits, rest, h.value);
      PrintedHeight(tag, head, w, digits, rest);
    }
  }

  lemma TagLine(p: string, tag: string, t: string)
    requires AllTrimmed(p) && AllTrimmed(t) && Tight(tag) && INF <= tag
    ensures Classified(p + tag + t) == Inf(InfHeight(tag))
  {
    TrimPadded(p, tag, t);
  }

  lemma AddressLine(p: string, url: string, t: string)
    requires AllTrimmed(p) && AllTrimmed(t) && Tight(url) && url[0] != '#'
    ensures Classified(p + url + t) == Media(url)
  {
    TrimPadded(p, url, t);
  }

  lemma CommentLine(p: string, text: string, t: string)
    requires AllTrimmed(p) && AllTrimmed(t) && Tight(text) && text[0] == '#' && !(INF <= text)
    ensures Classified(p + text + t) == Comment
  {
    TrimPadded(p, text, t);
  }

  /** Every such line is read as what it says. */
  lemma PrintedReads(raw: string, line: Line)
    requires Prints(raw, line)
    ensures Classified(raw) == line
  {
    var p, text, t :| AllTrimmed(p) && AllTrimmed(t) && Spells(text, line) && raw == p + text + t;
    match line
    case Blank =>
      assert p + text + t == p + t;
      TrimBlank(p + t);
    case Comment => CommentLine(p, text, t);
    case Inf(h) =>
      TagLine(p, text, t);
      SaysHeight(text, h);
    case Media(url) => AddressLine(p, text, t);
  }

  ghost predicate PrintsAll(raws: seq<string>, lines: seq<Line>) {
    |raws| == |lines| && forall i :: 0 <= i < |raws| ==> Prints(raws[i], lines[i])
  }

  lemma {:induction false} AllPrintedRead(raws: seq<string>, lines: seq<Line>)
    requires PrintsAll(raws, lines)
    ensures ClassifiedAll(raws) == lines
  {
    if raws != [] {
      PrintedReads(raws[0], lines[0]);
      AllPrintedRead(raws[1..], lines[1..]);
      assert lines == [lines[0]] + lines[1..];
    }
  }

  /** Parsing recovers the printed list, in order, whatever blank lines, comments and stray lines are
  interleaved and whatever blanks and CR stand around a line. */
  lemma ParsesPrinted(raws: seq<string>, es: seq<Entry>, after: seq<Line>)
    requires AllInterleaved(es) && forall i :: 0 <= i < |after| ==> Idle(after[i])
    requires raws != [] && NoneHas(raws, '\n') && PrintsAll(raws, Lines(es) + after)
    ensures Parsed(Join(raws, '\n')) == Variants(es)
  {
    SplitJoin(raws, '\n');
    AllPrintedRead(raws, Lines(es) + after);
    EntriesListed(es, after);
  }

  // ---- A printer ----

  const TAG := INF + ":"

  function Tag(h: Height): string {
    if h == None then TAG else TAG + (KEY + Size("0", Decimal(h.value), ""))
  }

  function Print(vs: seq<Variant>): seq<string> {
    if vs == [] then [] else [Tag(vs[0].height), vs[0].url] + Print(vs[1..])
  }

  // A variant a playlist can carry.
  predicate Printable(v: Variant) {
    && Tight(v.url) && v.url[0] != '#' && '\n' !in v.url
    && (v.height.Some? ==> v.height.value <= MAX_HEIGHT)
  }

  function Plain(vs: seq<Variant>): seq<Entry> {
    if vs == [] then [] else [Entry([], vs[0].height, [], vs[0].url)] + Plain(vs[1..])
  }

  lemma TagHasNoKey(tag: string)
    requires TAG <= tag
    ensures NoKeyBefore(tag, |TAG|)
  {
    forall k | 0 <= k < |TAG| ensures !KeyAt(tag, k) {
      assert tag[k] == TAG[k] && (k == 9 ==> tag[11] == TAG[11]);
      if KeyAt(tag, k) { KeyLetters(tag, k); }
    }
  }

  lemma KeyLetters(s: string, k: nat)
    requires KeyAt(s, k)
    ensures s[k] == 'R' && s[k + 2] == 'S'
  {
    assert s[k..k + |KEY|][0] == s[k] && s[k..k + |KEY|][2] == s[k + 2];
  }

  lemma DigitsEverywhere(n: nat)
    ensures forall i :: 0 <= i < |Decimal(n)| ==> IsDigit(Decimal(n)[i])
  {
    DecimalValue(n);
    forall i | 0 <= i < |Decimal(n)| ensures IsDigit(Decimal(n)[i]) { assert DigitIn(Decimal(n)[i], Dec) >= 0; }
  }

  lemma HeightTag(h: nat)
    requires h <= MAX_HEIGHT
    ensures Says(Tag(Some(h)), Some(h)) && TAG <= Tag(Some(h))
  {
    var digits := Decimal(h);
    var tag := Tag(Some(h));
    DecimalValue(h);
    TagHasNoKey(tag);
    assert digits + "" == digits;
    assert GivesHeight(tag, TAG, "0", digits, "", h);
  }

  lemma HeightTagEnds(h: nat)
    ensures var tag := Tag(Some(h)); IsDigit(tag[|tag| - 1]) && '\n' !in tag
  {
    var digits := Decimal(h);
    var tag := Tag(Some(h));
    DecimalValue(h);
    DigitsEverywhere(h);
    assert digits + "" == digits;
    assert tag[|tag| - 1] == digits[|digits| - 1];
  }

  lemma TagTight(tag: string)
    requires TAG <= tag && !TrimmedAway(tag[|tag| - 1])
    ensures Tight(tag) && INF <= tag
  {
    assert tag[0] == TAG[0] == '#';
  }

  lemma BareTag()
    ensures Says(TAG, None) && TAG[|TAG| - 1] == ':' && '\n' !in TAG
  {
    TagHasNoKey(TAG);
  }

  lemma TagPrints(h: Height)
    requires h.Some? ==> h.value <= MAX_HEIGHT
    ensures Prints(Tag(h), Inf(h)) && '\n' !in Tag(h)
  {
    if h.Some? {
      HeightTag(h.value);
      HeightTagEnds(h.value);
    } else {
      BareTag();
    }
    TagTight(Tag(h));
    AsWritten(Tag(h), Inf(h));
  }

  lemma AsWritten(text: string, line: Line)
    requires Spells(text, line)
    ensures Prints(text, line)
  {
    assert "" + text + "" == text;
  }

  lemma AddressPrints(v: Variant)
    requires Printable(v)
    ensures Prints(v.url, Media(v.url))
  {
    AsWritten(v.url, Media(v.url));
  }

  lemma PlainEntry(v: Variant)
    ensures EntryLines(Entry([], v.height, [], v.url)) == [Inf(v.height), Media(v.url)]
  {
  }

  lemma VariantPrints(v: Variant)
    requires Printable(v)
    ensures var raws := [Tag(v.height), v.url];
      PrintsAll(raws, [Inf(v.height), Media(v.url)]) && NoneHas(raws, '\n')
  {
    TagPrints(v.height);
    AddressPrints(v);
  }

  lemma PrintsMore(raws: seq<string>, lines: seq<Line>, raws': seq<string>, lines': seq<Line>)
    requires PrintsAll(raws, lines) && PrintsAll(raws', lines')
    ensures PrintsAll(raws + raws', lines + lines')
  {
  }

  lemma {:induction false} PrintPrints(vs: seq<Variant>)
    requires forall i :: 0 <= i < |vs| ==> Printable(vs[i])
    ensures PrintsAll(Print(vs), Lines(Plain(vs))) && NoneHas(Print(vs), '\n')
  {
    if vs != [] {
      var v := vs[0];
      PrintPrints(vs[1..]);
      VariantPrints(v);
      PlainEntry(v);
      PrintsMore([Tag(v.height), v.url], [Inf(v.height), Media(v.url)], Print(vs[1..]), Lines(Plain(vs[1..])));
    }
  }

  lemma {:induction false} PlainIsPlain(vs: seq<Variant>)
    ensures Variants(Plain(vs)) == vs && AllInterleaved(Plain(vs))
  {
    if vs != [] {
      PlainIsPlain(vs[1..]);
      assert vs == [vs[0]] + vs[1..];
    }
  }

  /** A list of variants printed as a playlist and parsed again is the same list: any addresses that can
  stand on a line of their own, any heights up to 4294967289 or none. */
  lemma RoundTrip(vs: seq<Variant>)
    requires forall i :: 0 <= i < |vs| ==> Printable(vs[i])
    ensures Parsed(Join(Print(vs), '\n')) == vs
  {
    PrintPrints(vs);
    PlainIsPlain(vs);
    PlainParses(Print(vs), Plain(vs));
  }

  lemma PlainParses(raws: seq<string>, es: seq<Entry>)
    requires NoneHas(raws, '\n') && PrintsAll(raws, Lines(es)) && AllInterleaved(es)
    ensures Parsed(Join(raws, '\n')) == Variants(es)
  {
    if raws == [] {
      NothingPrinted();
      return;
    }
    var none: seq<Line> := [];
    assert Lines(es) + none == Lines(es);
    ParsesPrinted(raws, es, none);
  }

  lemma NothingPrinted()
    ensures Parsed("") == []
  {
    assert Split("", '\n') == [""];
  }

  /** In the playlist's own words: a variant of each height up to 4294967289, and of none above it. */
  lemma ReadsExactly(url: string, h: nat)
    requires Printable(Variant(url, None))
    ensures Parsed(("#EXT-X-STREAM-INF:RESOLUTION=0x" + Decimal(h)) + ("\n" + url)) ==
      [Variant(url, if h <= 4294967289 then Some(h) else None)]
  {
    var tag := "#EXT-X-STREAM-INF:RESOLUTION=0x" + Decimal(h);
    TagSpelled(Decimal(h));
    HeightTagEnds(h);
    HeightOfTag(h);
    TagTight(tag);
    OneVariant(tag, url);
  }

  lemma TagSpelled(digits: string)
    ensures "#EXT-X-STREAM-INF:RESOLUTION=0x" + digits == TAG + (KEY + Size("0", digits, ""))
  {
    assert TAG + (KEY + ("0" + "x")) == "#EXT-X-STREAM-INF:RESOLUTION=0x";
    assert digits + "" == digits;
  }

  lemma HeightOfTag(h: nat)
    ensures InfHeight(Tag(Some(h))) == if h <= MAX_HEIGHT then Some(h) else None
  {
    DecimalValue(h);
    TagHasNoKey(Tag(Some(h)));
    PrintedHeight(Tag(Some(h)), TAG, "0", Decimal(h), "");
  }

  lemma TwoLines(a: string, b: string)
    requires '\n' !in a && '\n' !in b
    ensures Split(a + ("\n" + b), '\n') == [a, b]
  {
    assert Join([a, b], '\n') == a + ("\n" + b);
    SplitJoin([a, b], '\n');
  }

  lemma TwoClassified(a: string, b: string)
    ensures ClassifiedAll([a, b]) == [Classified(a), Classified(b)]
  {
    assert [a, b] == [a] + [b] && [b] == [b] + [];
    ClassifiedCons(a, [b]);
    ClassifiedCons(b, []);
  }

  lemma TagAndAddress(h: Height, url: string)
    ensures Listed([Inf(h), Media(url)], None) == [Variant(url, h)]
  {
    assert [Inf(h), Media(url)] == [Inf(h)] + [Media(url)] && [Media(url)] == [Media(url)] + [];
    ListedCons(Inf(h), [Media(url)], None);
    ListedCons(Media(url), [], Some(h));
  }

  lemma OneVariant(tag: string, url: string)
    requires Tight(tag) && INF <= tag && '\n' !in tag && Printable(Variant(url, None))
    ensures Parsed(tag + ("\n" + url)) == [Variant(url, InfHeight(tag))]
  {
    TwoLines(tag, url);
    TwoClassified(tag, url);
    TagUnpadded(tag);
    AddressUnpadded(url);
    TagAndAddress(InfHeight(tag), url);
  }

  lemma TagUnpadded(tag: string)
    requires Tight(tag) && INF <= tag
    ensures Classified(tag) == Inf(InfHeight(tag))
  {
    TrimTight(tag);
  }

  lemma AddressUnpadded(url: string)
    requires Tight(url) && url[0] != '#'
    ensures Classified(url) == Media(url)
  {
    TrimTight(url);
  }

  lemma TrimTight(s: string)
    requires Tight(s)
    ensures Trim(s) == s
  {
    TrimPadded("", s, "");
    assert "" + s + "" == s;
  }

  /** One more than that is printed and not read back, though it fits 32 bits. */
  lemma TallestRefused()
    ensures 4294967290 < 0x1_0000_0000 && InfHeight(TAG + (KEY + Size("0", Decimal(4294967290), ""))) == None
  {
    HeightOfTag(4294967290);
  }

  // ---- Attribute lists (section 4.2 of RFC 8216) ----

  // NAME=value; a quoted value keeps its quotes.
  datatype Attribute = Attribute(name: string, value: string)

  predicate WellNamed(a: Attribute) { '=' !in a.name && ',' !in a.name }

  function AttributeText(a: Attribute): string { a.name + ("=" + a.value) }

  // The tag up to and with the comma after the last of these attributes.
  function Head(attributes: seq<Attribute>): string {
    if attributes == [] then TAG
    else Head(attributes[..|attributes| - 1]) + (AttributeText(attributes[|attributes| - 1]) + ",")
  }

  predicate Contains(s: string, n: nat) {
    exists k :: 0 <= k < n && KeyAt(s, k)
  }

  const NAME := "RESOLUTION"

  // The key stands in the value, quoted or not, or the name ends like it.
  predicate Misleads(a: Attribute) {
    Contains(a.value, |a.value|) || (|a.name| >= |NAME| && a.name[|a.name| - |NAME|..] == NAME)
  }

  lemma KeyEnds(s: string, k: nat)
    requires KeyAt(s, k)
    ensures s[k + 10] == '=' && s[k..k + 10] == NAME
    ensures forall i :: k <= i < k + 10 ==> s[i] != '=' && s[i] != ','
  {
    var key := s[k..k + |KEY|];
    assert key[10] == s[k + 10] && key[..10] == s[k..k + 10] && KEY[..10] == NAME;
    forall i | k <= i < k + 10 ensures s[i] != '=' && s[i] != ',' { assert s[i] == key[i - k] == KEY[i - k]; }
  }

  lemma KeyIs(s: string, k: nat)
    requires k + 11 <= |s| && s[k..k + 10] == NAME && s[k + 10] == '='
    ensures KeyAt(s, k)
  {
    assert s[k..k + 11] == s[k..k + 10] + [s[k + 10]];
    assert NAME + "=" == KEY;
  }

  // The same key in a longer text.
  lemma KeyShifts(s: string, h: string, t: string, r: string, k: nat)
    requires s == h + (t + r) && k + |KEY| <= |t|
    ensures KeyAt(s, |h| + k) <==> KeyAt(t, k)
  {
    assert s[|h| + k..|h| + k + |KEY|] == t[k..k + |KEY|];
  }

  lemma TextParts(a: Attribute)
    ensures var t, n := AttributeText(a), |a.name|;
      t == (a.name + "=") + (a.value + "") && |t| == n + 1 + |a.value| && t[n] == '=' && t[..n] == a.name
  {}

  lemma MisleadingText(a: Attribute)
    requires Misleads(a)
    ensures Contains(AttributeText(a), |AttributeText(a)|)
  {
    var t, n := AttributeText(a), |a.name|;
    TextParts(a);
    if k :| 0 <= k < |a.value| && KeyAt(a.value, k) {
      KeyShifts(t, a.name + "=", a.value, "", k);
    } else {
      assert t[n - 10..n] == a.name[n - 10..];
      KeyIs(t, n - 10);
    }
  }

  // A key inside an attribute's text ends at the name's = or lies in the value.
  lemma KeyInText(a: Attribute, k: nat)
    requires WellNamed(a) && KeyAt(AttributeText(a), k)
    ensures Misleads(a)
  {
    var t, n := AttributeText(a), |a.name|;
    TextParts(a);
    KeyEnds(t, k);
    if k > n {
      KeyShifts(t, a.name + "=", a.value, "", k - (n + 1));
    } else {
      assert k + 10 >= n && !(k <= n < k + 10);
      assert a.name[n - 10..] == t[k..k + 10];
    }
  }

  lemma MisleadsExactlyWhen(a: Attribute)
    requires WellNamed(a)
    ensures Misleads(a) <==> Contains(AttributeText(a), |AttributeText(a)|)
  {
    var t := AttributeText(a);
    if Misleads(a) { MisleadingText(a); }
    if k :| 0 <= k < |t| && KeyAt(t, k) { KeyInText(a, k); }
  }

  // No key runs over the comma after an attribute.
  lemma KeyInside(s: string, h: string, t: string, rest: string, k: nat)
    requires s == h + (t + ("," + rest)) && k <= |t|
    ensures KeyAt(s, |h| + k) <==> k + |KEY| <= |t| && KeyAt(t, k)
  {
    assert s[|h| + |t|] == ',';
    if k + |KEY| <= |t| {
      KeyShifts(s, h, t, "," + rest, k);
    } else if KeyAt(s, |h| + k) {
      KeyEnds(s, |h| + k);
    }
  }

  lemma NextHead(s: string, h: string, a: Attribute, rest: string)
    requires WellNamed(a) && s == h + ((AttributeText(a) + ",") + rest)
    ensures NoKeyBefore(s, |h| + |AttributeText(a)| + 1) <==> NoKeyBefore(s, |h|) && !Misleads(a)
  {
    var t := AttributeText(a);
    assert s == h + (t + ("," + rest));
    MisleadsExactlyWhen(a);
    if Misleads(a) {
      var k :| 0 <= k < |t| && KeyAt(t, k);
      KeyInside(s, h, t, rest, k);
    } else {
      forall k | |h| <= k <= |h| + |t| ensures !KeyAt(s, k) { KeyInside(s, h, t, rest, k - |h|); }
    }
  }

  predicate Honest(attributes: seq<Attribute>) {
    forall i :: 0 <= i < |attributes| ==> !Misleads(attributes[i])
  }

  lemma {:induction false} FirstKeyExactlyWhen(tag: string, attributes: seq<Attribute>, rest: string)
    requires (forall i :: 0 <= i < |attributes| ==> WellNamed(attributes[i])) && tag == Head(attributes) + rest
    ensures NoKeyBefore(tag, |Head(attributes)|) <==> Honest(attributes)
  {
    if attributes == [] {
      TagHasNoKey(tag);
    } else {
      var n := |attributes| - 1;
      var a := attributes[n];
      var more := (AttributeText(a) + ",") + rest;
      assert tag == Head(attributes[..n]) + more;
      FirstKeyExactlyWhen(tag, attributes[..n], more);
      NextHead(tag, Head(attributes[..n]), a, rest);
      assert attributes == attributes[..n] + [a];
    }
  }

  // The tag with these attributes before RESOLUTION, whatever follows it.
  function ResolutionTag(before: seq<Attribute>, w: string, digits: string, rest: string): string {
    Head(before) + (KEY + Size(w, digits, rest))
  }

  /** The RESOLUTION attribute is where the key is found exactly when no attribute before it has the key in
  its value, a quoted one included, or a longer name that ends in it. */
  lemma AttributeFoundExactlyWhen(before: seq<Attribute>, w: string, digits: string, rest: string)
    requires forall i :: 0 <= i < |before| ==> WellNamed(before[i])
    ensures FindKey(ResolutionTag(before, w, digits, rest), 0) == |Head(before)| <==> Honest(before)
  {
    var tag, at := ResolutionTag(before, w, digits, rest), |Head(before)|;
    FirstKeyExactlyWhen(tag, before, KEY + Size(w, digits, rest));
    KeyStands(tag, Head(before), Size(w, digits, rest));
    if Honest(before) { FindKeyIs(tag, 0, at); }
    if FindKey(tag, 0) == at { NoKeyUntilFound(tag, 0); }
  }

  lemma KeyStands(tag: string, head: string, tail: string)
    requires tag == head + (KEY + tail) && tail != ""
    ensures |head| < |tag| && KeyAt(tag, |head|)
  {
    assert tag[|head|..|head| + |KEY|] == KEY;
  }

  lemma {:induction false} NoKeyUntilFound(s: string, i: nat)
    requires i <= |s|
    ensures forall k :: i <= k < FindKey(s, i) ==> !KeyAt(s, k)
    decreases |s| - i
  {
    if i < |s| && !KeyAt(s, i) { NoKeyUntilFound(s, i + 1); }
  }

  /** And then the height is the attribute's. */
  lemma AttributeHeight(before: seq<Attribute>, w: string, digits: string, rest: string)
    requires (forall i :: 0 <= i < |before| ==> WellNamed(before[i])) && Honest(before)
    requires 'x' !in w && digits != "" && AllIn(digits, Dec) && (rest != "" ==> !IsDigit(rest[0]))
    ensures InfHeight(ResolutionTag(before, w, digits, rest))
         == if Value(digits, Dec) <= MAX_HEIGHT then Some(Value(digits, Dec)) else None
  {
    var tag := ResolutionTag(before, w, digits, rest);
    FirstKeyExactlyWhen(tag, before, KEY + Size(w, digits, rest));
    PrintedHeight(tag, Head(before), w, digits, rest);
  }

  // VIDEO="RESOLUTION=..." before the attribute.
  function Quoting(size: string): Attribute {
    Attribute("VIDEO", "\"" + (KEY + (size + "\"")))
  }

  lemma QuotingMisleads(size: string)
    ensures WellNamed(Quoting(size)) && Misleads(Quoting(size))
  {
    var a := Quoting(size);
    assert a.value[1..1 + |KEY|] == KEY;
    assert KeyAt(a.value, 1);
  }

  lemma QuotingText(size: string, more: string)
    ensures AttributeText(Quoting(size)) + more == QUOTE + (KEY + (size + ("\"" + more)))
  {
    var key := KEY;
    assert AttributeText(Quoting(size)) == QUOTE + (key + (size + "\""));
  }

  lemma SizeText(w: string, digits: string, rest: string)
    ensures (w + ("x" + digits)) + rest == Size(w, digits, rest)
  {
  }

  lemma Regrouped(tag: string, quote: string, key: string, size: string)
    ensures tag + (quote + (key + size)) == (tag + quote) + (key + size)
  {
  }

  /** A size quoted in an earlier attribute, which misleads, is read instead: its height, whatever the
  RESOLUTION says. */
  lemma QuotedHeightRead(w: string, digits: string, more: string)
    requires 'x' !in w && digits != "" && AllIn(digits, Dec) && Value(digits, Dec) <= MAX_HEIGHT
    ensures Misleads(Quoting(w + ("x" + digits)))
    ensures InfHeight(TAG + (AttributeText(Quoting(w + ("x" + digits))) + more)) == Some(Value(digits, Dec))
  {
    QuotingMisleads(w + ("x" + digits));
    var size, rest := w + ("x" + digits), "\"" + more;
    var tag := TAG + (AttributeText(Quoting(size)) + more);
    QuotingText(size, more);
    SizeText(w, digits, rest);
    Regrouped(TAG, QUOTE, KEY, Size(w, digits, rest));
    HeadHasNoKey(tag, TAG + QUOTE);
    PrintedHeight(tag, TAG + QUOTE, w, digits, rest);
  }

  const QUOTE := "VIDEO=\""

  lemma HeadHasNoKey(tag: string, head: string)
    requires head == TAG + QUOTE && head <= tag
    ensures NoKeyBefore(tag, |head|)
  {
    TagHasNoKey(tag);
    forall k | |TAG| <= k < |head| ensures !KeyAt(tag, k) {
      if KeyAt(tag, k) { KeyLetters(tag, k); }
      assert tag[k] == QUOTE[k - |TAG|];
    }
  }

  /** As in VIDEO="RESOLUTION=1x9",RESOLUTION=1280x720, which is 9 high to it. */
  lemma NineRead(more: string)
    requires more == "," + (KEY + "1280x720")
    ensures InfHeight(TAG + (AttributeText(Quoting(['1'] + ("x" + ['9']))) + more)) == Some(9)
  {
    ValueOne('9', Dec);
    QuotedHeightRead(['1'], ['9'], more);
  }

  // ---- The program ----

  method SearchKey(line: string) returns (key: nat)
    ensures key == FindKey(line, 0)
  {
    key := 0;
    while key < |line| && !KeyAt(line, key)
      invariant key <= |line| && FindKey(line, key) == FindKey(line, 0)
    {
      key := key + 1;
    }
  }

  method StreamInfHeight(line: string) returns (h: Height)
    ensures h == InfHeight(line)
  {
    var key := SearchKey(line);
    if key == |line| { return None; }
    var x := Find(line, 'x', key + |KEY|);
    if x == |line| { return None; }
    h := ReadNumber(line, x + 1);
  }

  // The two digit loops; the second refuses before a digit could overflow 32 bits.
  method ReadNumber(line: string, start: nat) returns (h: Height)
    requires start <= |line|
    ensures h == NumberAt(line, start)
  {
    var end := start;
    while end < |line| && IsDigit(line[end])
      invariant start <= end <= |line| && DigitsEnd(line, end) == DigitsEnd(line, start)
    {
      end := end + 1;
    }
    if end == start { return None; }
    h := ReadHeight(line[start..end]);
  }

  method ReadHeight(digits: string) returns (h: Height)
    requires AllIn(digits, Dec)
    ensures h == if Value(digits, Dec) > MAX_HEIGHT then None else Some(Value(digits, Dec))
  {
    var v: nat := 0;
    for i := 0 to |digits|
      invariant v == Value(digits[..i], Dec) <= MAX_HEIGHT
    {
      PrefixStep(digits, i, Dec);
      if v > (0xFFFF_FFFF - 9) / 10 { return None; }
      v := (v * 10 + DigitIn(digits[i], Dec)) % 0x1_0000_0000;
    }
    assert digits[..|digits|] == digits;
    return Some(v);
  }

  method ReadLine(raw: string) returns (line: Line)
    ensures line == Classified(raw)
  {
    var trimmed := Trim(raw);
    if trimmed == "" { return Blank; }
    if INF <= trimmed {
      var h := StreamInfHeight(trimmed);
      return Inf(h);
    }
    return if trimmed[0] == '#' then Comment else Media(trimmed);
  }

  lemma NextLine(text: string, pos: nat, nl: nat)
    requires pos <= |text| && nl == FindChar(text, '\n', pos)
    ensures ClassifiedAll(Pieces(text, '\n', pos, pos)) ==
      [Classified(text[pos..nl])] + if nl < |text| then ClassifiedAll(Pieces(text, '\n', nl + 1, nl + 1)) else []
  {
    FindCharSkips(text, '\n', pos);
    assert text[pos..nl] == text[pos..][..nl - pos];
    if nl < |text| {
      PiecesUpTo(text, '\n', pos, pos, nl);
      ClassifiedCons(text[pos..nl], Pieces(text, '\n', nl + 1, nl + 1));
    } else {
      PiecesOfOne(text, '\n', pos, pos);
      assert text[pos..nl] == text[pos..];
      ClassifiedCons(text[pos..nl], []);
    }
  }

  lemma ClassifiedCons(raw: string, rest: seq<string>)
    ensures ClassifiedAll([raw] + rest) == [Classified(raw)] + ClassifiedAll(rest)
  {
    assert ([raw] + rest)[1..] == rest;
  }

  // The lines not yet read.
  function Ahead(text: string, pos: nat): seq<Line>
    requires pos <= |text| + 1
  {
    if pos <= |text| then ClassifiedAll(Pieces(text, '\n', pos, pos)) else []
  }

  // What a line makes of the pending tag, and what it lists.
  function After(line: Line, pending: Option<Height>): Option<Height> {
    if line.Inf? then Some(line.height) else if line.Media? then None else pending
  }

  function Emitted(line: Line, pending: Option<Height>): seq<Variant> {
    if line.Media? && pending.Some? then [Variant(line.url, pending.value)] else []
  }

  lemma LineStep(out: seq<Variant>, line: Line, rest: seq<Line>, pending: Option<Height>)
    ensures out + Listed([line] + rest, pending) ==
      (out + Emitted(line, pending)) + Listed(rest, After(line, pending))
  {
    ListedCons(line, rest, pending);
  }

  method TakeLine(line: Line, out: seq<Variant>, pending: Option<Height>)
    returns (out': seq<Variant>, pending': Option<Height>)
    ensures out' == out + Emitted(line, pending) && pending' == After(line, pending)
  {
    out', pending' := out, pending;
    match line {
      case Inf(h) => pending' := Some(h);
      case Media(url) =>
        if pending.Some? {
          out' := out + [Variant(url, pending.value)];
          pending' := None;
        }
      case _ =>
    }
  }

  lemma FirstAhead(text: string)
    ensures [] + Listed(Ahead(text, 0), None) == Parsed(text)
  {
  }

  lemma NoneAhead(text: string, out: seq<Variant>, pending: Option<Height>)
    ensures out + Listed(Ahead(text, |text| + 1), pending) == out
  {
  }

  lemma NextAhead(text: string, pos: nat, nl: nat, out: seq<Variant>, pending: Option<Height>)
    requires pos <= |text| && nl == FindChar(text, '\n', pos)
    ensures var line := Classified(text[pos..nl]);
      out + Listed(Ahead(text, pos), pending)
      == (out + Emitted(line, pending)) + Listed(Ahead(text, nl + 1), After(line, pending))
  {
    NextLine(text, pos, nl);
    LineStep(out, Classified(text[pos..nl]), Ahead(text, nl + 1), pending);
  }

  method ParseMasterPlaylist(text: string) returns (out: seq<Variant>)
    ensures out == Parsed(text)
  {
    out := [];
    var pending: Option<Height> := None;
    var pos := 0;
    FirstAhead(text);
    ghost var all := Parsed(text);
    while pos <= |text|
      invariant 0 <= pos <= |text| + 1
      invariant out + Listed(Ahead(text, pos), pending) == all
    {
      var nl := Find(text, '\n', pos);
      NextAhead(text, pos, nl, out, pending);
      var line := ReadLine(text[pos..nl]);
      out, pending := TakeLine(line, out, pending);
      pos := nl + 1;
    }
    NoneAhead(text, out, pending);
  }
}
