/** A show's episode list, its labels and its dubbed part (src/anidbapp.cpp). */
module Episodes {
  import opened Numerals
  import opened Sorting

  const UINT32_MAX := 0xFFFF_FFFF

  // ---- parse_episodes, from decoded rows ----

  // None where the row has no such integer.
  datatype Row = Row(id: Option<int>, number: Option<int>)

  datatype Episode = Episode(id: int, number: nat)

  predicate IsKept(r: Row) {
    r.id.Some? && r.id.value > 0 && r.number.Some? && 1 <= r.number.value <= UINT32_MAX
  }

  function Kept(rows: seq<Row>): seq<Episode> {
    if rows == [] then []
    else
      var n := |rows| - 1;
      if IsKept(rows[n]) then Kept(rows[..n]) + [Episode(rows[n].id.value, rows[n].number.value)]
      else Kept(rows[..n])
  }

  function Number(e: Episode): int { e.number }

  // std::unique: an element goes when its number is that of the last one retained.
  function Unique(es: seq<Episode>): seq<Episode> {
    if es == [] then []
    else
      var n := |es| - 1;
      var u := Unique(es[..n]);
      if u != [] && u[|u| - 1].number == es[n].number then u else u + [es[n]]
  }

  function Parsed(rows: seq<Row>): seq<Episode> {
    Unique(StableSort(Kept(rows), Number))
  }

  method ParseEpisodes(rows: seq<Row>) returns (eps: seq<Episode>)
    ensures eps == Parsed(rows)
  {
    eps := [];
    for i := 0 to |rows|
      invariant eps == Kept(rows[..i])
    {
      assert rows[..i + 1][..i] == rows[..i];
      var r := rows[i];
      if r.id == None { continue; }
      if r.id.value <= 0 { continue; }
      if r.number == None { continue; }
      if r.number.value < 1 || r.number.value > UINT32_MAX { continue; }
      eps := eps + [Episode(r.id.value, r.number.value)];
    }
    assert rows[..|rows|] == rows;
    eps := StableSort(eps, Number);
    eps := Dedup(eps);
  }

  method Dedup(es: seq<Episode>) returns (u: seq<Episode>)
    ensures u == Unique(es)
  {
    u := [];
    for i := 0 to |es|
      invariant u == Unique(es[..i])
    {
      assert es[..i + 1][..i] == es[..i];
      if u == [] || u[|u| - 1].number != es[i].number { u := u + [es[i]]; }
    }
    assert es[..|es|] == es;
  }

  predicate Increasing(es: seq<Episode>) {
    forall i, j :: 0 <= i < j < |es| ==> es[i].number < es[j].number
  }

  // The first-listed of the episodes with a number.
  predicate Leads(es: seq<Episode>, e: Episode) {
    var same := WithKey(es, Number, e.number);
    same != [] && same[0] == e
  }

  lemma {:induction false} WithKeySnoc(es: seq<Episode>, e: Episode, k: int)
    ensures WithKey(es + [e], Number, k)
         == if e.number == k then WithKey(es, Number, k) + [e] else WithKey(es, Number, k)
  {
    if es == [] {
      assert [] + [e] == [e] && [e][1..] == [];
      assert WithKey<Episode>([], Number, k) == [];
    } else {
      WithKeySnoc(es[1..], e, k);
      assert (es + [e])[1..] == es[1..] + [e];
      WithKeyCons(es[0], es[1..], Number, k);
      WithKeyCons(es[0], es[1..] + [e], Number, k);
      assert es == [es[0]] + es[1..] && es + [e] == [es[0]] + (es[1..] + [e]);
    }
  }

  lemma {:induction false} WithKeyMember(es: seq<Episode>, e: Episode)
    ensures e in es <==> e in WithKey(es, Number, e.number)
  {
    if es != [] {
      WithKeyMember(es[1..], e);
      assert es == [es[0]] + es[1..];
    }
  }

  lemma LeadsSnoc(es: seq<Episode>, e: Episode, x: Episode)
    ensures Leads(es + [e], x) <==> Leads(es, x) || (x == e && WithKey(es, Number, e.number) == [])
  {
    WithKeySnoc(es, e, x.number);
  }

  // The last retained element carries the last number.
  lemma UniqueLast(es: seq<Episode>)
    requires es != []
    ensures Unique(es) != [] && Unique(es)[|Unique(es)| - 1].number == es[|es| - 1].number
  {
  }

  lemma {:induction false} KeySeen(es: seq<Episode>, k: int)
    ensures WithKey(es, Number, k) != [] <==> exists i :: 0 <= i < |es| && es[i].number == k
    decreases |es|
  {
    if es != [] {
      var n := |es| - 1;
      KeySeen(es[..n], k);
      WithKeySnoc(es[..n], es[n], k);
      assert es == es[..n] + [es[n]];
      if exists i :: 0 <= i < n && es[i].number == k {
        var i :| 0 <= i < n && es[i].number == k;
        assert es[..n][i].number == k;
      }
    }
  }

  // In a sorted list, a number has been seen when it is the last one's.
  lemma LastSeen(init: seq<Episode>, x: Episode)
    requires Sorted(init, Number) && (init != [] ==> init[|init| - 1].number <= x.number)
    ensures WithKey(init, Number, x.number) != [] <==> init != [] && init[|init| - 1].number == x.number
  {
    KeySeen(init, x.number);
    forall i | 0 <= i < |init| ensures init[i].number <= init[|init| - 1].number {
      if i < |init| - 1 { assert Number(init[i]) <= Number(init[|init| - 1]); }
    }
  }

  lemma SortedInit(init: seq<Episode>, x: Episode)
    requires Sorted(init + [x], Number)
    ensures Sorted(init, Number)
    ensures init != [] ==> init[|init| - 1].number <= x.number
  {
    var es := init + [x];
    assert forall i :: 0 <= i < |init| ==> es[i] == init[i];
    if init != [] { assert Number(es[|init| - 1]) <= Number(es[|init|]); }
  }

  lemma UniqueSnoc(init: seq<Episode>, x: Episode)
    ensures Unique(init + [x]) ==
      var u := Unique(init);
      if u != [] && u[|u| - 1].number == x.number then u else u + [x]
  {
    assert (init + [x])[..|init|] == init;
  }

  lemma IncreasingSnoc(u: seq<Episode>, x: Episode)
    requires Increasing(u) && (u != [] ==> u[|u| - 1].number < x.number)
    ensures Increasing(u + [x])
  {
    forall i | 0 <= i < |u| ensures u[i].number < x.number {
      if i < |u| - 1 { assert u[i].number < u[|u| - 1].number; }
    }
  }

  // One more of a sorted list: it is retained exactly when its number was not seen.
  lemma UniqueStep(init: seq<Episode>, x: Episode)
    requires Sorted(init + [x], Number)
    ensures Unique(init + [x]) ==
      if WithKey(init, Number, x.number) == [] then Unique(init) + [x] else Unique(init)
    ensures WithKey(init, Number, x.number) == [] && Unique(init) != [] ==>
      Unique(init)[|Unique(init)| - 1].number < x.number
  {
    SortedInit(init, x);
    UniqueSnoc(init, x);
    LastSeen(init, x);
    if init != [] { UniqueLast(init); }
  }

  lemma UniqueLeads(init: seq<Episode>, x: Episode)
    requires Sorted(init + [x], Number) && forall e :: e in Unique(init) <==> Leads(init, e)
    ensures forall e :: e in Unique(init + [x]) <==> Leads(init + [x], e)
  {
    UniqueStep(init, x);
    forall e ensures e in Unique(init + [x]) <==> Leads(init + [x], e) { LeadsSnoc(init, x, e); }
  }

  lemma UniqueGrows(init: seq<Episode>, x: Episode, es: seq<Episode>)
    requires es == init + [x] && Sorted(es, Number)
    requires Increasing(Unique(init)) && forall e :: e in Unique(init) <==> Leads(init, e)
    ensures Increasing(Unique(es)) && forall e :: e in Unique(es) <==> Leads(es, e)
  {
    UniqueStep(init, x);
    if WithKey(init, Number, x.number) == [] { IncreasingSnoc(Unique(init), x); }
    UniqueLeads(init, x);
  }

  lemma {:induction false} UniqueOfSorted(es: seq<Episode>)
    requires Sorted(es, Number)
    ensures Increasing(Unique(es))
    ensures forall e :: e in Unique(es) <==> Leads(es, e)
  {
    if es != [] {
      var n := |es| - 1;
      assert es == es[..n] + [es[n]];
      SortedInit(es[..n], es[n]);
      UniqueOfSorted(es[..n]);
      UniqueGrows(es[..n], es[n], es);
    }
  }

  /** The list holds each number once, in increasing order, with the id the site listed first. */
  lemma FirstListedWins(rows: seq<Row>)
    ensures var eps := Parsed(rows);
      Increasing(eps) && forall e :: e in eps <==> Leads(Kept(rows), e)
  {
    var sorted := StableSort(Kept(rows), Number);
    SortMembers(Kept(rows), Number);
    UniqueOfSorted(sorted);
    forall e ensures Leads(sorted, e) <==> Leads(Kept(rows), e) {
      StableSortSorts(Kept(rows), Number, e.number);
    }
  }

  // The row lists an episode of this number.
  predicate Carries(r: Row, n: int) { r.number == Some(n) && r.id.Some? && r.id.value > 0 }

  // The first row to list an episode of e's number, and it lists e.
  predicate FirstRow(rows: seq<Row>, i: nat, e: Episode)
    requires i < |rows|
  {
    && rows[i] == Row(Some(e.id), Some(e.number)) && e.id > 0
    && forall j :: 0 <= j < i ==> !Carries(rows[j], e.number)
  }

  lemma {:induction false} KeptSeen(rows: seq<Row>, k: int)
    requires 1 <= k <= 4294967295
    ensures WithKey(Kept(rows), Number, k) == [] <==> forall j :: 0 <= j < |rows| ==> !Carries(rows[j], k)
  {
    if rows == [] {
      assert WithKey<Episode>([], Number, k) == [];
    } else {
      var n := |rows| - 1;
      KeptSeen(rows[..n], k);
      assert forall j :: 0 <= j < n ==> rows[..n][j] == rows[j];
      if IsKept(rows[n]) { WithKeySnoc(Kept(rows[..n]), Episode(rows[n].id.value, rows[n].number.value), k); }
    }
  }

  lemma KeptStep(init: seq<Row>, r: Row, e: Episode)
    ensures Leads(Kept(init + [r]), e) <==>
      || Leads(Kept(init), e)
      || (1 <= e.number <= 4294967295 && FirstRow(init + [r], |init|, e))
  {
    var rows := init + [r];
    assert rows[..|init|] == init;
    assert forall j :: 0 <= j < |init| ==> rows[j] == init[j];
    if 1 <= e.number <= 4294967295 { KeptSeen(init, e.number); }
    if IsKept(r) { LeadsSnoc(Kept(init), Episode(r.id.value, r.number.value), e); }
  }

  lemma {:induction false} LeadingRow(rows: seq<Row>, e: Episode)
    ensures Leads(Kept(rows), e) <==>
      1 <= e.number <= 4294967295 && exists i :: 0 <= i < |rows| && FirstRow(rows, i, e)
  {
    if rows == [] {
      assert WithKey<Episode>([], Number, e.number) == [];
    } else {
      var n := |rows| - 1;
      var init := rows[..n];
      assert rows == init + [rows[n]];
      LeadingRow(init, e);
      KeptStep(init, rows[n], e);
      assert forall j :: 0 <= j < n ==> rows[j] == init[j];
      assert forall i :: 0 <= i < n ==> (FirstRow(rows, i, e) <==> FirstRow(init, i, e));
    }
  }

  /** In the rows' terms: an episode is in the list exactly when its number is from 1 to 2^32 - 1 and the
  first row with that number and a positive id has its id. */
  lemma ListedExactlyWhen(rows: seq<Row>, e: Episode)
    ensures e in Parsed(rows) <==>
      1 <= e.number <= 4294967295 && exists i :: 0 <= i < |rows| && FirstRow(rows, i, e)
  {
    FirstListedWins(rows);
    LeadingRow(rows, e);
  }

  // ---- Labels ----

  // base_offset.
  function Offset(eps: seq<Episode>): nat {
    if eps != [] && eps[0].number > 0 then eps[0].number - 1 else 0
  }

  // label.
  function Label(e: Episode, offset: nat): string {
    Decimal(if e.number > offset then e.number - offset else 0)
  }

  function Labels(listed: seq<Episode>, offset: nat): seq<string> {
    seq(|listed|, i requires 0 <= i < |listed| => Label(listed[i], offset))
  }

  datatype Lookup = Found(episode: Episode) | InvalidEpisode | NoSuchEpisode

  // The label's number, if it is one resolve accepts.
  function Wanted(s: string): Option<nat> {
    if s != "" && AllIn(s, Dec) && 1 <= Value(s, Dec) <= UINT32_MAX then Some(Value(s, Dec)) else None
  }

  function FirstNumbered(eps: seq<Episode>, number: int): Lookup {
    if eps == [] then NoSuchEpisode
    else if eps[0].number == number then Found(eps[0])
    else FirstNumbered(eps[1..], number)
  }

  // resolve's episode lookup.
  function Resolved(eps: seq<Episode>, s: string): Lookup {
    if Wanted(s) == None || Wanted(s).value + Offset(eps) > UINT32_MAX then InvalidEpisode
    else FirstNumbered(eps, Wanted(s).value + Offset(eps))
  }

  /** What a parsed list is: numbers from 1 to 2^32 - 1, strictly increasing. */
  predicate Listable(eps: seq<Episode>) {
    Increasing(eps) && forall i :: 0 <= i < |eps| ==> 1 <= eps[i].number <= UINT32_MAX
  }

  lemma {:induction false} KeptInRange(rows: seq<Row>)
    ensures forall e :: e in Kept(rows) ==> 1 <= e.number <= UINT32_MAX
  {
    if rows != [] { KeptInRange(rows[..|rows| - 1]); }
  }

  lemma ParsedListable(rows: seq<Row>)
    ensures Listable(Parsed(rows))
  {
    FirstListedWins(rows);
    KeptInRange(rows);
    var eps := Parsed(rows);
    forall i | 0 <= i < |eps| ensures 1 <= eps[i].number <= UINT32_MAX {
      assert Leads(Kept(rows), eps[i]);
      WithKeyMember(Kept(rows), eps[i]);
    }
  }

  lemma {:induction false} FirstNumberedFinds(eps: seq<Episode>, i: nat)
    requires i < |eps| && Increasing(eps)
    ensures FirstNumbered(eps, eps[i].number) == Found(eps[i])
  {
    if i > 0 {
      assert eps[0].number < eps[i].number;
      assert forall j, k :: 0 <= j < k < |eps[1..]| ==> eps[1..][j] == eps[j + 1] && eps[1..][k] == eps[k + 1];
      FirstNumberedFinds(eps[1..], i - 1);
    }
  }

  lemma {:induction false} FirstNumberedIn(eps: seq<Episode>, number: int, e: Episode)
    requires FirstNumbered(eps, number) == Found(e)
    ensures e in eps && e.number == number
  {
    if eps[0].number != number { FirstNumberedIn(eps[1..], number, e); }
  }

  /** A label resolves to an episode exactly when it spells, with any leading zeros, the episode's
  number counted from the list's first. */
  lemma ResolvesExactly(eps: seq<Episode>, s: string, e: Episode)
    requires Listable(eps)
    ensures Resolved(eps, s) == Found(e) <==>
      e in eps && s != "" && AllIn(s, Dec) && Value(s, Dec) + Offset(eps) == e.number
  {
    if Resolved(eps, s) == Found(e) {
      FirstNumberedIn(eps, Value(s, Dec) + Offset(eps), e);
    }
    if e in eps && s != "" && AllIn(s, Dec) && Value(s, Dec) + Offset(eps) == e.number {
      var i :| 0 <= i < |eps| && eps[i] == e;
      FirstNumberedFinds(eps, i);
      if i > 0 { assert eps[0].number < eps[i].number; }
      assert eps[0].number >= 1;
    }
  }

  /** Whatever rows came in and however many episodes are listed (all, or the dubbed ones), every label
  listed resolves to the episode it was listed for, and the first is 1. */
  lemma LabelsResolve(rows: seq<Row>, listed: nat, i: nat)
    requires i < listed <= |Parsed(rows)|
    ensures var eps := Parsed(rows);
      var labels := Labels(eps[..listed], Offset(eps));
      Resolved(eps, labels[i]) == Found(eps[i]) && labels[0] == "1"
  {
    ParsedListable(rows);
    LabelResolves(Parsed(rows), listed, i);
  }

  lemma LabelResolves(eps: seq<Episode>, listed: nat, i: nat)
    requires Listable(eps) && i < listed <= |eps|
    ensures var labels := Labels(eps[..listed], Offset(eps));
      Resolved(eps, labels[i]) == Found(eps[i]) && labels[0] == "1"
  {
    assert eps[0].number >= 1;
    if i > 0 { assert eps[0].number < eps[i].number; }
    DecimalValue(eps[i].number - Offset(eps));
    ResolvesExactly(eps, Label(eps[i], Offset(eps)), eps[i]);
    assert Decimal(1) == "1";
  }

  // What a label counts from: the number before the list's first.
  function CountedFrom(eps: seq<Episode>): int {
    if eps == [] || eps[0].number == 0 then 0 else eps[0].number - 1
  }

  // Decimal digits only, at least one.
  predicate Spelled(s: string) { s != "" && forall i :: 0 <= i < |s| ==> '0' <= s[i] <= '9' }

  lemma SpelledIs(s: string)
    ensures Spelled(s) <==> s != "" && AllIn(s, Dec)
  {
    if s != "" && AllIn(s, Dec) {
      forall i | 0 <= i < |s| ensures '0' <= s[i] <= '9' { assert DigitIn(s[i], Dec) >= 0; }
    }
  }

  /** A label is refused exactly when it is no numeral, is worth nothing, or counts past 2^32 - 1; any other
  is unknown exactly when no episode has the number it counts to. */
  lemma RefusedExactlyWhen(eps: seq<Episode>, s: string)
    ensures Resolved(eps, s) == InvalidEpisode <==>
      !Spelled(s) || !AllIn(s, Dec) || Value(s, Dec) == 0 || Value(s, Dec) + CountedFrom(eps) > 4294967295
    ensures Resolved(eps, s) == NoSuchEpisode <==>
      && Resolved(eps, s) != InvalidEpisode && AllIn(s, Dec)
      && forall e :: e in eps ==> e.number != Value(s, Dec) + CountedFrom(eps)
  {
    SpelledIs(s);
    if AllIn(s, Dec) { FirstNumberedMisses(eps, Value(s, Dec) + CountedFrom(eps)); }
  }

  lemma {:induction false} FirstNumberedMisses(eps: seq<Episode>, number: int)
    ensures FirstNumbered(eps, number) != InvalidEpisode
    ensures FirstNumbered(eps, number) == NoSuchEpisode <==> forall e :: e in eps ==> e.number != number
  {
    if eps != [] {
      FirstNumberedMisses(eps[1..], number);
      assert eps == [eps[0]] + eps[1..];
    }
  }

  /** What is printed for an episode: its number counted from the list's first, which is 1. */
  lemma LabelCounts(eps: seq<Episode>, listed: nat, i: nat)
    requires Listable(eps) && i < listed <= |eps|
    ensures Labels(eps[..listed], Offset(eps))[i] == Decimal(eps[i].number - eps[0].number + 1)
  {
    if i > 0 { assert eps[0].number < eps[i].number; }
    assert 1 <= eps[0].number;
  }

  // The digit loop. Its 32-bit accumulator never wraps.
  method ReadWanted(s: string) returns (r: Option<nat>)
    ensures r == Wanted(s)
  {
    if s == "" { return None; }
    var want: nat := 0;
    for i := 0 to |s|
      invariant AllIn(s[..i], Dec) && want == Value(s[..i], Dec) && want <= UINT32_MAX
    {
      var d := DigitIn(s[i], Dec);
      if d < 0 { return None; }
      PrefixStep(s, i, Dec);
      var next := Times(want, Dec) + d;
      if next > UINT32_MAX { return None; }
      want := next % 0x1_0000_0000;
    }
    assert s[..|s|] == s;
    if want == 0 { return None; }
    return Some(want);
  }

  method Resolve(eps: seq<Episode>, episode: string) returns (r: Lookup)
    ensures r == Resolved(eps, episode)
  {
    var want := ReadWanted(episode);
    if want == None { return InvalidEpisode; }
    var siteNumber := want.value + Offset(eps);
    if siteNumber > UINT32_MAX { return InvalidEpisode; }
    assert eps[0..] == eps;
    for k := 0 to |eps|
      invariant FirstNumbered(eps[k..], siteNumber) == FirstNumbered(eps, siteNumber)
    {
      if eps[k].number == siteNumber { return Found(eps[k]); }
      assert eps[k..][1..] == eps[k + 1..];
    }
    return NoSuchEpisode;
  }

  // ---- The dubbed part ----

  /** What asking whether an episode is dubbed may answer. */
  datatype Probe = Dubbed | Undubbed | Failed

  datatype Prefix = Through(last: nat) | Nothing | Error

  function CeilLog2(n: nat): nat {
    if n <= 1 then 0 else 1 + CeilLog2((n + 1) / 2)
  }

  function Pow2(k: nat): nat {
    if k == 0 then 1 else 2 * Pow2(k - 1)
  }

  lemma {:induction false} CeilLog2Is(n: nat)
    requires n >= 1
    ensures n <= Pow2(CeilLog2(n))
    ensures n > 1 ==> Pow2(CeilLog2(n) - 1) < n
  {
    if n > 1 { CeilLog2Is((n + 1) / 2); }
  }

  lemma {:induction false} CeilLog2Monotone(m: nat, n: nat)
    requires m <= n
    ensures CeilLog2(m) <= CeilLog2(n)
  {
    if m > 1 { CeilLog2Monotone((m + 1) / 2, (n + 1) / 2); }
  }

  // The last dubbed episode before one that is not, or before the end.
  predicate Boundary(dub: seq<Probe>, k: nat) {
    k < |dub| && dub[k] == Dubbed && (k == |dub| - 1 || dub[k + 1] == Undubbed)
  }

  /** dub_prefix. It answers nothing exactly when there is no episode or the first is not dubbed; an
  index it answers is a boundary, whatever the episodes in between; it fails exactly when an episode
  it asked about failed, asking none after that. */
  method DubPrefix(dub: seq<Probe>) returns (r: Prefix, asked: seq<nat>)
    ensures forall i :: 0 <= i < |asked| ==> asked[i] < |dub|
    ensures r == Nothing <==> dub == [] || dub[0] == Undubbed
    ensures r.Through? ==> Boundary(dub, r.last)
    ensures r == Error <==> asked != [] && dub[asked[|asked| - 1]] == Failed
    ensures forall i :: 0 <= i < |asked| - 1 ==> dub[asked[i]] != Failed
    ensures |asked| <= 2 + CeilLog2(|dub|)
  {
    asked := [];
    if dub == [] { return Nothing, asked; }
    var last := |dub| - 1;
    asked := asked + [0];
    if dub[0] == Failed { return Error, asked; }
    if dub[0] == Undubbed { return Nothing, asked; }
    if last == 0 { return Through(last), asked; }
    asked := asked + [last];
    if dub[last] == Failed { return Error, asked; }
    if dub[last] == Dubbed { return Through(last), asked; }
    var lo, hi := 0, last;
    CeilLog2Monotone(last, |dub|);
    while hi - lo > 1
      invariant 0 <= lo < hi <= last && dub[lo] == Dubbed && dub[hi] == Undubbed
      invariant |asked| > 0 && forall i :: 0 <= i < |asked| ==> asked[i] < |dub| && dub[asked[i]] != Failed
      invariant |asked| + CeilLog2(hi - lo) <= 2 + CeilLog2(|dub|)
    {
      var mid := lo + (hi - lo) / 2;
      CeilLog2Monotone((hi - lo) / 2, (hi - lo + 1) / 2);
      asked := asked + [mid];
      if dub[mid] == Failed { return Error, asked; }
      if dub[mid] == Dubbed { lo := mid; } else { hi := mid; }
    }
    return Through(lo), asked;
  }

  /** When the dub is a prefix of the list, the boundary is its last episode and no other. */
  lemma PrefixHasOneBoundary(dub: seq<Probe>, p: nat, k: nat)
    requires p <= |dub| && forall i :: 0 <= i < |dub| ==> dub[i] == if i < p then Dubbed else Undubbed
    ensures Boundary(dub, k) <==> p > 0 && k == p - 1
  {
  }
}
