/** The offline bridge between MyAnimeList and AniList ids (src/idmap.cpp), over any table sorted by
MyAnimeList id. */
module IdMap {
  import opened Numerals
  import opened Sorting

  const UINT32_MAX := 0xFFFF_FFFF

  // Flat pairs: a MyAnimeList id, then its AniList id.
  type Table = seq<nat>

  function Count(t: Table): nat { |t| / 2 }

  function MalAt(t: Table, i: nat): nat
    requires i < Count(t)
  {
    t[2 * i]
  }

  function AnilistAt(t: Table, i: nat): nat
    requires i < Count(t)
  {
    t[2 * i + 1]
  }

  predicate Valid(t: Table) {
    && (forall i, j :: 0 <= i < j < Count(t) ==> MalAt(t, i) < MalAt(t, j))
    && (forall i :: 0 <= i < Count(t) ==> MalAt(t, i) <= UINT32_MAX && AnilistAt(t, i) <= UINT32_MAX)
  }

  // The table holds the pair.
  ghost predicate Pairs(t: Table, mal: int, anilist: int) {
    exists i :: 0 <= i < Count(t) && MalAt(t, i) == mal && AnilistAt(t, i) == anilist
  }

  // ---- Linear scans: what the two searches must find ----

  function ScanMal(t: Table, mal: int, i: nat): Option<int>
    requires i <= Count(t)
    decreases Count(t) - i
  {
    if i == Count(t) then None
    else if MalAt(t, i) == mal then Some(AnilistAt(t, i))
    else ScanMal(t, mal, i + 1)
  }

  function ScanAnilist(t: Table, anilist: int, i: nat): Option<int>
    requires i <= Count(t)
    decreases Count(t) - i
  {
    if i == Count(t) then None
    else if AnilistAt(t, i) == anilist then Some(MalAt(t, i))
    else ScanAnilist(t, anilist, i + 1)
  }

  function AnilistOf(t: Table, mal: int): Option<int> {
    if mal <= 0 || mal > UINT32_MAX then None else ScanMal(t, mal, 0)
  }

  function MalOf(t: Table, anilist: int): Option<int> {
    if anilist <= 0 || anilist > UINT32_MAX then None else ScanAnilist(t, anilist, 0)
  }

  lemma {:induction false} ScanMalFinds(t: Table, mal: int, i: nat, k: nat)
    requires Valid(t) && i <= k < Count(t) && MalAt(t, k) == mal
    ensures ScanMal(t, mal, i) == Some(AnilistAt(t, k))
    decreases k - i
  {
    if i < k {
      assert MalAt(t, i) < MalAt(t, k);
      ScanMalFinds(t, mal, i + 1, k);
    }
  }

  lemma {:induction false} ScanMalMisses(t: Table, mal: int, i: nat)
    requires i <= Count(t)
    ensures ScanMal(t, mal, i) == None <==> forall k :: i <= k < Count(t) ==> MalAt(t, k) != mal
    ensures ScanMal(t, mal, i).Some? ==> Pairs(t, mal, ScanMal(t, mal, i).value)
    decreases Count(t) - i
  {
    if i < Count(t) { ScanMalMisses(t, mal, i + 1); }
  }

  lemma {:induction false} ScanAnilistLeast(t: Table, anilist: int, i: nat)
    requires Valid(t) && i <= Count(t)
    ensures var r := ScanAnilist(t, anilist, i);
      && (r == None <==> forall k :: i <= k < Count(t) ==> AnilistAt(t, k) != anilist)
      && (r.Some? ==> Pairs(t, r.value, anilist))
      && (r.Some? ==> forall k :: i <= k < Count(t) && AnilistAt(t, k) == anilist ==> r.value <= MalAt(t, k))
    decreases Count(t) - i
  {
    if i < Count(t) {
      ScanAnilistLeast(t, anilist, i + 1);
      assert forall k :: i < k < Count(t) ==> MalAt(t, i) < MalAt(t, k);
    }
  }

  /** to_anilist: the binary search is the linear scan. */
  method ToAnilist(t: Table, mal: int) returns (r: Option<int>)
    requires Valid(t)
    ensures r == AnilistOf(t, mal)
  {
    if mal <= 0 || mal > UINT32_MAX {
      return None;
    }
    var lo, hi := 0, Count(t);
    while lo < hi
      invariant 0 <= lo <= hi <= Count(t)
      invariant forall i :: 0 <= i < lo ==> MalAt(t, i) < mal
      invariant forall i :: hi <= i < Count(t) ==> MalAt(t, i) > mal
    {
      var mid := lo + (hi - lo) / 2;
      var m := MalAt(t, mid);
      if m < mal {
        lo := mid + 1;
      } else if m > mal {
        hi := mid;
      } else {
        ScanMalFinds(t, mal, 0, mid);
        return Some(AnilistAt(t, mid));
      }
    }
    ScanMalMisses(t, mal, 0);
    return None;
  }

  // ---- The reverse index ----

  datatype Entry = Entry(anilist: nat, mal: nat)

  // Pairs compare by AniList id, then by MyAnimeList id.
  function PairKey(e: Entry): int { e.anilist * 0x1_0000_0000 + e.mal }

  function Entries(t: Table, n: nat): seq<Entry>
    requires n <= Count(t)
  {
    seq(n, i requires 0 <= i < n => Entry(AnilistAt(t, i), MalAt(t, i)))
  }

  ghost predicate Indexes(index: seq<Entry>, t: Table) {
    && Sorted(index, PairKey)
    && (forall e :: e in index ==> e.anilist <= UINT32_MAX && e.mal <= UINT32_MAX)
    && (forall e :: e in index <==> Pairs(t, e.mal, e.anilist))
  }

  method ByAnilist(t: Table) returns (index: seq<Entry>)
    requires Valid(t)
    ensures Indexes(index, t)
  {
    index := [];
    for i := 0 to Count(t)
      invariant index == Entries(t, i)
    {
      index := index + [Entry(AnilistAt(t, i), MalAt(t, i))];
    }
    ghost var all := index;
    EntriesPair(t);
    index := StableSort(index, PairKey);
    SortMembers(all, PairKey);
  }

  lemma EntriesPair(t: Table)
    requires Valid(t)
    ensures var es := Entries(t, Count(t));
      forall e :: e in es <==> Pairs(t, e.mal, e.anilist)
    ensures forall e :: e in Entries(t, Count(t)) ==> e.anilist <= UINT32_MAX && e.mal <= UINT32_MAX
  {
    var es := Entries(t, Count(t));
    forall e ensures e in es <==> Pairs(t, e.mal, e.anilist) {
      if Pairs(t, e.mal, e.anilist) {
        var i :| 0 <= i < Count(t) && MalAt(t, i) == e.mal && AnilistAt(t, i) == e.anilist;
        assert es[i] == e;
      }
    }
  }

  // std::lower_bound on the AniList id.
  function LowerBound(index: seq<Entry>, key: int, i: nat): (at: nat)
    requires i <= |index|
    ensures i <= at <= |index| && (at < |index| ==> index[at].anilist >= key)
    ensures forall k :: i <= k < at ==> index[k].anilist < key
    decreases |index| - i
  {
    if i == |index| || index[i].anilist >= key then i else LowerBound(index, key, i + 1)
  }

  lemma KeyOrder(d: Entry, e: Entry)
    requires d.mal <= UINT32_MAX && e.mal <= UINT32_MAX && PairKey(d) <= PairKey(e)
    ensures d.anilist <= e.anilist && (d.anilist == e.anilist ==> d.mal <= e.mal)
  {
  }

  // The first index entry of an AniList id is its least pair.
  lemma BoundIsLeast(t: Table, index: seq<Entry>, anilist: int, i: nat)
    requires Indexes(index, t) && i < Count(t) && AnilistAt(t, i) == anilist
    ensures var at := LowerBound(index, anilist, 0);
      at < |index| && index[at].anilist == anilist && index[at].mal <= MalAt(t, i)
  {
    var at := LowerBound(index, anilist, 0);
    var e := Entry(AnilistAt(t, i), MalAt(t, i));
    assert Pairs(t, e.mal, e.anilist);
    assert e in index;
    var k :| 0 <= k < |index| && index[k] == e;
    assert at <= k;
    if at < k { assert PairKey(index[at]) <= PairKey(index[k]); }
    assert index[at] in index;
    KeyOrder(index[at], index[k]);
  }

  /** to_mal: looking the id up in the sorted index is the linear scan over the table. */
  method ToMal(t: Table, anilist: int) returns (r: Option<int>)
    requires Valid(t)
    ensures r == MalOf(t, anilist)
  {
    if anilist <= 0 || anilist > UINT32_MAX { return None; }
    var index := ByAnilist(t);
    var at := LowerBound(index, anilist, 0);
    ScanAnilistLeast(t, anilist, 0);
    if at == |index| || index[at].anilist != anilist {
      forall i | 0 <= i < Count(t) ensures AnilistAt(t, i) != anilist {
        if AnilistAt(t, i) == anilist { BoundIsLeast(t, index, anilist, i); }
      }
      return None;
    }
    assert index[at] in index;
    ghost var i :| 0 <= i < Count(t) && MalAt(t, i) == index[at].mal && AnilistAt(t, i) == anilist;
    ghost var scanned := ScanAnilist(t, anilist, 0);
    ghost var j :| 0 <= j < Count(t) && MalAt(t, j) == scanned.value && AnilistAt(t, j) == anilist;
    BoundIsLeast(t, index, anilist, j);
    return Some(index[at].mal);
  }

  /** Both directions in terms of the table's pairs: the AniList id is the one paired, the MyAnimeList id
  the least one paired. */
  lemma SearchesByPairs(t: Table, mal: int, anilist: int)
    requires Valid(t)
    ensures AnilistOf(t, mal) == Some(anilist) <==> mal > 0 && Pairs(t, mal, anilist)
    ensures MalOf(t, anilist) == Some(mal) <==>
      anilist > 0 && Pairs(t, mal, anilist) && forall m :: Pairs(t, m, anilist) ==> mal <= m
  {
    ScanMalMisses(t, mal, 0);
    ScanAnilistLeast(t, anilist, 0);
    if mal > 0 && Pairs(t, mal, anilist) {
      var i :| 0 <= i < Count(t) && MalAt(t, i) == mal && AnilistAt(t, i) == anilist;
      ScanMalFinds(t, mal, 0, i);
    }
  }

  // ---- Ids of shows known to MyAnimeList only ----

  // anilist_or_synthetic.
  function AnilistOrSynthetic(t: Table, mal: int): int {
    if AnilistOf(t, mal).Some? then AnilistOf(t, mal).value else -mal
  }

  // mal_id_for (src/catalog.cpp).
  function MalIdFor(t: Table, anilist: int, hint: Option<int>): Option<int> {
    if hint.Some? && hint.value > 0 then hint
    else if anilist < 0 then Some(-anilist)
    else MalOf(t, anilist)
  }

  /** The id a show is asked for by: the one its caller gives if there is one, else the show's own if it is
  synthetic, else the least one paired with it. */
  lemma AskedForBy(t: Table, anilist: int, hint: Option<int>, mal: int)
    requires Valid(t)
    ensures MalIdFor(t, anilist, hint) == Some(mal) <==>
      if hint.Some? && hint.value > 0 then mal == hint.value
      else if anilist < 0 then mal == -anilist
      else anilist > 0 && Pairs(t, mal, anilist) && forall m :: Pairs(t, m, anilist) ==> mal <= m
  {
    SearchesByPairs(t, mal, anilist);
  }

  /** There and back: a show stored under its synthetic id is asked for by its own MyAnimeList id, one
  the table knows by the least id it pairs with the same AniList id. */
  lemma ThereAndBack(t: Table, mal: int)
    requires Valid(t) && mal > 0
    requires forall i :: 0 <= i < Count(t) ==> AnilistAt(t, i) > 0
    ensures var id := AnilistOrSynthetic(t, mal);
      var back := MalIdFor(t, id, None);
      && back.Some?
      && (id < 0 <==> AnilistOf(t, mal) == None)
      && (id < 0 ==> back == Some(mal))
      && (id > 0 ==> Pairs(t, mal, id) && Pairs(t, back.value, id) && back.value <= mal)
      && id != 0
  {
    if mal <= UINT32_MAX { ScanMalMisses(t, mal, 0); }
    var id := AnilistOrSynthetic(t, mal);
    if AnilistOf(t, mal).Some? {
      var i :| 0 <= i < Count(t) && MalAt(t, i) == mal && AnilistAt(t, i) == id;
      ScanAnilistLeast(t, id, 0);
    }
  }

  /** Two shows share a stored id only when the table gives both the same AniList id. */
  lemma SyntheticIdsDistinct(t: Table, m: int, n: int)
    requires Valid(t) && m > 0 && n > 0 && m != n
    requires AnilistOrSynthetic(t, m) == AnilistOrSynthetic(t, n)
    ensures AnilistOf(t, m).Some? && AnilistOf(t, m) == AnilistOf(t, n)
  {
    if m <= UINT32_MAX { ScanMalMisses(t, m, 0); }
    if n <= UINT32_MAX { ScanMalMisses(t, n, 0); }
  }
}
