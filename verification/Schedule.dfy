/** schedule() (src/domain.cpp): the watchlist's future airings, bucketed by local day. */
module Schedule {
  import opened Numerals
  import opened Calendar
  import opened Library
  import opened Sorting

  const SCHEDULE_DAYS := 8

  datatype Weekday = Monday | Tuesday | Wednesday | Thursday | Friday | Saturday | Sunday

  datatype Show = Show(status: ListStatus, nextAiringAt: Option<int>, nextEpisode: Option<nat>)

  datatype CalendarDate = CalendarDate(civil: Date, weekday: Weekday)

  datatype Entry = Entry(showIndex: nat, airingAt: int, episode: nat, secondsUntil: int,
                         date: CalendarDate, minuteOfDay: int)

  datatype Group = Group(daysFromToday: int, later: bool, date: CalendarDate, entries: seq<Entry>)

  // The reader of the UTC offset in effect at an instant; Utc stands for the null pointer.
  datatype OffsetReader = Utc | Reader(at: int -> int)

  function LocalSecs(offset: OffsetReader, t: int): int {
    t + if offset.Utc? then 0 else offset.at(t)
  }

  function TruncMod(a: int, b: int): int
    requires b > 0
  {
    a - TruncDiv(a, b) * b
  }

  // floor_div, for a positive divisor.
  function FloorDiv(a: int, b: int): (q: int)
    requires b > 0
    ensures q * b <= a < (q + 1) * b
  {
    var q := TruncDiv(a, b);
    if TruncMod(a, b) != 0 && a < 0 then q - 1 else q
  }

  function WeekdayOf(t: int): Weekday
  {
    var days := if t >= 0 then t / 86400 else -((-t + 86399) / 86400);
    var r := TruncMod(days + 3, 7);
    NthWeekday(if r < 0 then r + 7 else r)
  }

  function NthWeekday(i: int): Weekday
    requires 0 <= i < 7
  {
    if i == 0 then Monday else if i == 1 then Tuesday else if i == 2 then Wednesday
    else if i == 3 then Thursday else if i == 4 then Friday else if i == 5 then Saturday else Sunday
  }

  function NextWeekday(w: Weekday): Weekday {
    match w
    case Monday => Tuesday case Tuesday => Wednesday case Wednesday => Thursday
    case Thursday => Friday case Friday => Saturday case Saturday => Sunday case Sunday => Monday
  }

  /** The weekday is the calendar's on every day, before 1970 too: 1 January 1970 is a Thursday
  and each day's weekday follows the one before. The time of day does not matter. */
  lemma WeekdayFollowsCalendar(day: int, secs: int)
    requires 0 <= secs < 86400
    ensures WeekdayOf(day * 86400 + secs) == WeekdayOf(day * 86400)
    ensures WeekdayOf((day + 1) * 86400) == NextWeekday(WeekdayOf(day * 86400))
    ensures WeekdayOf(0) == Thursday
  {
    WeekdayByDay(day, secs);
    WeekdayByDay(day, 0);
    WeekdayByDay(day + 1, 0);
    WeekdayByDay(0, 0);
    WeekdayCycle(day + 3);
  }

  lemma WeekdayCycle(n: int)
    ensures NthWeekday((n + 1) % 7) == NextWeekday(NthWeekday(n % 7))
  {
    assert (n + 1) % 7 == if n % 7 == 6 then 0 else n % 7 + 1;
  }

  lemma WeekdayByDay(day: int, secs: int)
    requires 0 <= secs < 86400
    ensures WeekdayOf(day * 86400 + secs) == NthWeekday((day + 3) % 7)
  {
    var t := day * 86400 + secs;
    if t >= 0 {
      assert t / 86400 == day;
    } else {
      assert (-t + 86399) / 86400 == -day;
    }
  }

  function DateOf(day: int): CalendarDate {
    CalendarDate(CivilFromDays(day), WeekdayOf(day * 86400))
  }

  // ---- Which shows, and in which bucket ----

  predicate Listed(s: Show, now: int) {
    && (s.status == Watching || s.status == Planning)
    && s.nextAiringAt.Some?
    && s.nextAiringAt.value > now
  }

  function EntryOf(i: nat, s: Show, now: int, offset: OffsetReader): Entry
    requires Listed(s, now)
  {
    var at := s.nextAiringAt.value;
    var local := LocalSecs(offset, at);
    var day := FloorDiv(local, 86400);
    Entry(i, at, if s.nextEpisode.Some? then s.nextEpisode.value else 0, at - now,
          DateOf(day), TruncDiv(local - day * 86400, 60))
  }

  // Days from today to an airing's local day.
  function Ahead(at: int, now: int, offset: OffsetReader): int {
    FloorDiv(LocalSecs(offset, at), 86400) - FloorDiv(LocalSecs(offset, now), 86400)
  }

  // Which of the nine buckets an airing goes to.
  function BucketOf(now: int, offset: OffsetReader): int -> int
  {
    at => Clamped(Ahead(at, now, offset))
  }

  function Clamped(ahead: int): (b: int)
    ensures 0 <= b <= SCHEDULE_DAYS
  {
    if ahead < 0 then 0 else if ahead < SCHEDULE_DAYS then ahead else SCHEDULE_DAYS
  }

  // The date a bucket's group carries; `later` keeps a default-constructed one.
  function DateOfBucket(now: int, offset: OffsetReader): int -> CalendarDate
  {
    b => if b == SCHEDULE_DAYS then UNUSED_DATE else DateOf(FloorDiv(LocalSecs(offset, now), 86400) + b)
  }

  const UNUSED_DATE := CalendarDate(EPOCH, Thursday)

  // The entries of all listed shows, in list order.
  function Listing(shows: seq<Show>, now: int, offset: OffsetReader): seq<Entry>
  {
    if shows == [] then []
    else
      var n := |shows| - 1;
      var before := Listing(shows[..n], now, offset);
      if Listed(shows[n], now) then before + [EntryOf(n, shows[n], now, offset)] else before
  }

  function InBucket(es: seq<Entry>, b: int, bucket: int -> int): seq<Entry>
  {
    if es == [] then []
    else if bucket(es[0].airingAt) == b then [es[0]] + InBucket(es[1..], b, bucket)
    else InBucket(es[1..], b, bucket)
  }

  // ---- Sorting by airing time ----

  function AiringTime(e: Entry): int { e.airingAt }

  function ByAiring(es: seq<Entry>): seq<Entry> {
    StableSort(es, AiringTime)
  }

  predicate SortedByAiring(es: seq<Entry>) {
    Sorted(es, AiringTime)
  }

  // ---- The result ----

  function GroupsBelow(es: seq<Entry>, n: nat, bucket: int -> int, date: int -> CalendarDate): seq<Group>
  {
    if n == 0 then []
    else WithGroup(GroupsBelow(es, n - 1, bucket, date), n - 1, InBucket(es, n - 1, bucket), date(n - 1))
  }

  function WithGroup(before: seq<Group>, b: nat, mine: seq<Entry>, date: CalendarDate): seq<Group> {
    if mine == [] then before else before + [Group(b, b == SCHEDULE_DAYS, date, ByAiring(mine))]
  }

  function Groups(shows: seq<Show>, now: int, offset: OffsetReader): seq<Group> {
    GroupsBelow(Listing(shows, now, offset), SCHEDULE_DAYS + 1,
                BucketOf(now, offset), DateOfBucket(now, offset))
  }

  lemma {:induction false} InBucketSnoc(es: seq<Entry>, e: Entry, b: int, bucket: int -> int)
    ensures InBucket(es + [e], b, bucket)
         == if bucket(e.airingAt) == b then InBucket(es, b, bucket) + [e] else InBucket(es, b, bucket)
  {
    if es == [] {
      assert es + [e] == [e];
    } else {
      InBucketSnoc(es[1..], e, b, bucket);
      assert (es + [e])[1..] == es[1..] + [e];
    }
  }

  ghost predicate Bucketed(buckets: seq<seq<Entry>>, es: seq<Entry>, bucket: int -> int) {
    && |buckets| == SCHEDULE_DAYS + 1
    && forall b :: 0 <= b <= SCHEDULE_DAYS ==> buckets[b] == InBucket(es, b, bucket)
  }

  lemma BucketedSnoc(buckets: seq<seq<Entry>>, es: seq<Entry>, e: Entry, bucket: int -> int)
    requires Bucketed(buckets, es, bucket) && 0 <= bucket(e.airingAt) <= SCHEDULE_DAYS
    ensures var b := bucket(e.airingAt);
      Bucketed(buckets[b := buckets[b] + [e]], es + [e], bucket)
  {
    forall c | 0 <= c <= SCHEDULE_DAYS
      ensures InBucket(es + [e], c, bucket)
           == if bucket(e.airingAt) == c then InBucket(es, c, bucket) + [e] else InBucket(es, c, bucket)
    {
      InBucketSnoc(es, e, c, bucket);
    }
  }

  lemma ListingSnoc(shows: seq<Show>, i: nat, now: int, offset: OffsetReader)
    requires i < |shows|
    ensures Listing(shows[..i + 1], now, offset)
         == var before := Listing(shows[..i], now, offset);
            if Listed(shows[i], now) then before + [EntryOf(i, shows[i], now, offset)] else before
  {
    assert shows[..i + 1][..i] == shows[..i];
  }

  method FillBuckets(shows: seq<Show>, now: int, offset: OffsetReader) returns (buckets: seq<seq<Entry>>)
    ensures Bucketed(buckets, Listing(shows, now, offset), BucketOf(now, offset))
  {
    var today := FloorDiv(LocalSecs(offset, now), 86400);
    buckets := seq(SCHEDULE_DAYS + 1, _ => []);
    ghost var es: seq<Entry> := [];
    for i := 0 to |shows|
      invariant es == Listing(shows[..i], now, offset)
      invariant Bucketed(buckets, es, BucketOf(now, offset))
    {
      ListingSnoc(shows, i, now, offset);
      if (shows[i].status == Watching || shows[i].status == Planning)
         && shows[i].nextAiringAt.Some? && shows[i].nextAiringAt.value > now {
        var entry, b := Place(i, shows[i], now, offset, today);
        BucketedSnoc(buckets, es, entry, BucketOf(now, offset));
        buckets := buckets[b := buckets[b] + [entry]];
        es := es + [entry];
      }
    }
    assert shows[..|shows|] == shows;
  }

  // The body of the loop over shows: one entry, and the bucket it is pushed to.
  method Place(i: nat, s: Show, now: int, offset: OffsetReader, today: int) returns (e: Entry, b: int)
    requires Listed(s, now) && today == FloorDiv(LocalSecs(offset, now), 86400)
    ensures e == EntryOf(i, s, now, offset)
    ensures b == BucketOf(now, offset)(e.airingAt) && 0 <= b <= SCHEDULE_DAYS
  {
    var at := s.nextAiringAt.value;
    var local := LocalSecs(offset, at);
    var day := FloorDiv(local, 86400);
    e := Entry(i, at, if s.nextEpisode.Some? then s.nextEpisode.value else 0, at - now,
               DateOf(day), TruncDiv(local - day * 86400, 60));
    var ahead := if day - today < 0 then 0 else day - today;
    b := if ahead < SCHEDULE_DAYS then ahead else SCHEDULE_DAYS;
  }

  method Schedule(shows: seq<Show>, now: int, offset: OffsetReader) returns (out: seq<Group>)
    ensures out == Groups(shows, now, offset)
  {
    var buckets := FillBuckets(shows, now, offset);
    out := Emit(buckets, Listing(shows, now, offset), BucketOf(now, offset), DateOfBucket(now, offset));
  }

  method Emit(buckets: seq<seq<Entry>>, ghost es: seq<Entry>, ghost bucket: int -> int,
              date: int -> CalendarDate)
    returns (out: seq<Group>)
    requires Bucketed(buckets, es, bucket)
    ensures out == GroupsBelow(es, SCHEDULE_DAYS + 1, bucket, date)
  {
    out := [];
    for b := 0 to |buckets|
      invariant out == GroupsBelow(es, b, bucket, date)
    {
      if buckets[b] == [] { continue; }
      out := out + [Group(b, b == SCHEDULE_DAYS, date(b), ByAiring(buckets[b]))];
    }
  }

  function AllEntries(gs: seq<Group>): seq<Entry> {
    if gs == [] then [] else AllEntries(gs[..|gs| - 1]) + gs[|gs| - 1].entries
  }

  // ---- What the schedule promises ----

  /** An entry says its show's airing: the local wall clock it is due at, and that it is due. */
  lemma EntryReadsLocally(i: nat, s: Show, now: int, offset: OffsetReader)
    requires Listed(s, now)
    ensures var e := EntryOf(i, s, now, offset);
      && 0 <= e.minuteOfDay <= 1439
      && e.secondsUntil > 0
      && ValidDate(e.date.civil)
      && var local := LocalSecs(offset, e.airingAt);
         DayNumber(e.date.civil) * 1440 + e.minuteOfDay == local / 60
  {
    var at := s.nextAiringAt.value;
    var local := LocalSecs(offset, at);
    var day := FloorDiv(local, 86400);
    CivilIsDate(day);
    MinuteOfDay(local, day);
  }

  lemma MinuteOfDay(local: int, day: int)
    requires day * 86400 <= local < (day + 1) * 86400
    ensures 0 <= TruncDiv(local - day * 86400, 60) <= 1439
    ensures day * 1440 + TruncDiv(local - day * 86400, 60) == local / 60
  {}

  // One group: not empty, sorted, and only entries of its own bucket.
  ghost predicate WellFormed(g: Group, bucket: int -> int)
  {
    && g.entries != [] && SortedByAiring(g.entries)
    && (g.later <==> g.daysFromToday == SCHEDULE_DAYS)
    && forall e :: e in g.entries ==> bucket(e.airingAt) == g.daysFromToday
  }

  // Groups in strictly increasing day order, so `later` only in the last place.
  ghost predicate WellGrouped(gs: seq<Group>, n: nat, bucket: int -> int)
  {
    && (forall i :: 0 <= i < |gs| ==> WellFormed(gs[i], bucket) && 0 <= gs[i].daysFromToday < n)
    && (forall i, j :: 0 <= i < j < |gs| ==> gs[i].daysFromToday < gs[j].daysFromToday)
  }

  lemma {:induction false} InBucketOnly(es: seq<Entry>, b: int, bucket: int -> int)
    ensures forall e :: e in InBucket(es, b, bucket) ==> e in es && bucket(e.airingAt) == b
  {
    if es != [] { InBucketOnly(es[1..], b, bucket); }
  }

  // Appending the next bucket's group keeps the list of groups well formed.
  lemma WellGroupedSnoc(gs: seq<Group>, g: Group, n: nat, next: nat, bucket: int -> int)
    requires WellGrouped(gs, n, bucket) && WellFormed(g, bucket) && g.daysFromToday == n && next == n + 1
    ensures WellGrouped(gs + [g], next, bucket)
  {}

  lemma NextGroupWellFormed(es: seq<Entry>, b: nat, bucket: int -> int, date: CalendarDate)
    requires InBucket(es, b, bucket) != []
    ensures var g := Group(b, b == SCHEDULE_DAYS, date, ByAiring(InBucket(es, b, bucket)));
      WellFormed(g, bucket)
  {
    SortMembers(InBucket(es, b, bucket), AiringTime);
    InBucketOnly(es, b, bucket);
  }

  lemma WithGroupWellFormed(es: seq<Entry>, before: seq<Group>, b: nat, next: nat, bucket: int -> int,
                            date: CalendarDate)
    requires WellGrouped(before, b, bucket) && next == b + 1
    ensures WellGrouped(WithGroup(before, b, InBucket(es, b, bucket), date), next, bucket)
  {
    var mine := InBucket(es, b, bucket);
    if mine != [] {
      NextGroupWellFormed(es, b, bucket, date);
      WellGroupedSnoc(before, Group(b, b == SCHEDULE_DAYS, date, ByAiring(mine)), b, next, bucket);
    }
  }

  lemma {:induction false} GroupsWellFormed(es: seq<Entry>, n: nat, bucket: int -> int, date: int -> CalendarDate)
    ensures WellGrouped(GroupsBelow(es, n, bucket, date), n, bucket)
  {
    if n > 0 {
      GroupsWellFormed(es, n - 1, bucket, date);
      WithGroupWellFormed(es, GroupsBelow(es, n - 1, bucket, date), n - 1, n, bucket, date(n - 1));
    }
  }

  lemma {:induction false} GroupMembers(es: seq<Entry>, n: nat, bucket: int -> int, date: int -> CalendarDate,
                                        g: Group, e: Entry)
    requires g in GroupsBelow(es, n, bucket, date) && e in g.entries
    ensures g.date == date(g.daysFromToday) && e in es && bucket(e.airingAt) == g.daysFromToday
  {
    if g in GroupsBelow(es, n - 1, bucket, date) {
      GroupMembers(es, n - 1, bucket, date, g, e);
    } else {
      SortMembers(InBucket(es, n - 1, bucket), AiringTime);
      InBucketOnly(es, n - 1, bucket);
    }
  }

  // The entries of the first n buckets, in list order.
  function Below(es: seq<Entry>, n: int, bucket: int -> int): seq<Entry>
  {
    if es == [] then []
    else if bucket(es[0].airingAt) < n then [es[0]] + Below(es[1..], n, bucket)
    else Below(es[1..], n, bucket)
  }

  lemma {:induction false} SplitByBucket(es: seq<Entry>, n: nat, next: nat, bucket: int -> int)
    requires next == n + 1
    ensures multiset(Below(es, next, bucket))
         == multiset(Below(es, n, bucket)) + multiset(InBucket(es, n, bucket))
  {
    if es != [] {
      SplitByBucket(es[1..], n, next, bucket);
    }
  }

  lemma {:induction false} BelowAll(es: seq<Entry>, n: int, bucket: int -> int)
    requires forall e :: e in es ==> bucket(e.airingAt) < n
    ensures Below(es, n, bucket) == es
  {
    if es != [] {
      BelowAll(es[1..], n, bucket);
      assert [es[0]] + es[1..] == es;
    }
  }

  lemma {:induction false} BelowNone(es: seq<Entry>, bucket: int -> int)
    requires forall e :: e in es ==> bucket(e.airingAt) >= 0
    ensures Below(es, 0, bucket) == []
  {
    if es != [] { BelowNone(es[1..], bucket); }
  }

  lemma AllEntriesSnoc(gs: seq<Group>, g: Group)
    ensures AllEntries(gs + [g]) == AllEntries(gs) + g.entries
  {
    assert (gs + [g])[..|gs|] == gs;
  }

  lemma NextGroups(es: seq<Entry>, n: nat, bucket: int -> int, date: int -> CalendarDate)
    ensures GroupsBelow(es, n + 1, bucket, date)
         == WithGroup(GroupsBelow(es, n, bucket, date), n, InBucket(es, n, bucket), date(n))
  {}

  lemma EntriesWith(before: seq<Group>, b: nat, mine: seq<Entry>, date: CalendarDate)
    ensures AllEntries(WithGroup(before, b, mine, date)) == AllEntries(before) + ByAiring(mine)
  {
    if mine == [] {
      assert AllEntries(before) + [] == AllEntries(before);
    } else {
      AllEntriesSnoc(before, Group(b, b == SCHEDULE_DAYS, date, ByAiring(mine)));
    }
  }

  // Bucket by bucket the groups take up what the lists below do.
  ghost predicate Conserving(groups: nat -> seq<Group>, low: nat -> seq<Entry>, mine: nat -> seq<Entry>,
                             date: int -> CalendarDate)
  {
    && multiset(AllEntries(groups(0))) == multiset(low(0))
    && forall k: nat :: groups(k + 1) == WithGroup(groups(k), k, mine(k), date(k))
                        && multiset(low(k + 1)) == multiset(low(k)) + multiset(mine(k))
  }

  lemma ConserveStep(gs: seq<Group>, b: nat, mine: seq<Entry>, date: CalendarDate, low: seq<Entry>, lower: seq<Entry>)
    requires multiset(AllEntries(gs)) == multiset(low) && multiset(lower) == multiset(low) + multiset(mine)
    ensures multiset(AllEntries(WithGroup(gs, b, mine, date))) == multiset(lower)
  {
    EntriesWith(gs, b, mine, date);
    StableSortSorts(mine, AiringTime, 0);
  }

  lemma {:induction false} Conserved(groups: nat -> seq<Group>, low: nat -> seq<Entry>, mine: nat -> seq<Entry>,
                                     date: int -> CalendarDate, n: nat)
    requires Conserving(groups, low, mine, date)
    ensures multiset(AllEntries(groups(n))) == multiset(low(n))
  {
    if n > 0 {
      var k: nat := n - 1;
      Conserved(groups, low, mine, date, k);
      ConserveStep(groups(k), k, mine(k), date(k), low(k), low(k + 1));
    }
  }

  lemma GroupsConserve(es: seq<Entry>, n: nat, bucket: int -> int, date: int -> CalendarDate)
    requires forall e :: e in es ==> bucket(e.airingAt) >= 0
    ensures multiset(AllEntries(GroupsBelow(es, n, bucket, date))) == multiset(Below(es, n, bucket))
  {
    var groups := (k: nat) => GroupsBelow(es, k, bucket, date);
    var low, mine := (k: nat) => Below(es, k, bucket), (k: nat) => InBucket(es, k, bucket);
    BelowNone(es, bucket);
    forall k: nat
      ensures groups(k + 1) == WithGroup(groups(k), k, mine(k), date(k))
      ensures multiset(low(k + 1)) == multiset(low(k)) + multiset(mine(k))
    {
      NextGroups(es, k, bucket, date);
      SplitByBucket(es, k, k + 1, bucket);
    }
    Conserved(groups, low, mine, date, n);
  }

  lemma {:induction false} ListingGenuine(shows: seq<Show>, now: int, offset: OffsetReader)
    ensures forall e :: e in Listing(shows, now, offset) ==>
              && e.showIndex < |shows| && Listed(shows[e.showIndex], now)
              && e == EntryOf(e.showIndex, shows[e.showIndex], now, offset)
  {
    if shows != [] { ListingGenuine(shows[..|shows| - 1], now, offset); }
  }

  lemma OneMore(es: seq<Entry>, x: Entry, e: Entry)
    ensures multiset(es + [x])[e] == multiset(es)[e] + if x == e then 1 else 0
  {}

  lemma ListingCount(shows: seq<Show>, n: nat, now: int, offset: OffsetReader, e: Entry)
    requires n + 1 == |shows|
    ensures multiset(Listing(shows, now, offset))[e] == multiset(Listing(shows[..n], now, offset))[e]
         + if Listed(shows[n], now) && EntryOf(n, shows[n], now, offset) == e then 1 else 0
  {
    if Listed(shows[n], now) { OneMore(Listing(shows[..n], now, offset), EntryOf(n, shows[n], now, offset), e); }
  }

  lemma ListingFresh(shows: seq<Show>, now: int, offset: OffsetReader, e: Entry)
    requires e.showIndex == |shows|
    ensures multiset(Listing(shows, now, offset))[e] == 0
  {
    ListingGenuine(shows, now, offset);
  }

  lemma {:induction false} ListingOnce(shows: seq<Show>, i: nat, now: int, offset: OffsetReader)
    requires i < |shows| && Listed(shows[i], now)
    ensures multiset(Listing(shows, now, offset))[EntryOf(i, shows[i], now, offset)] == 1
  {
    var n := |shows| - 1;
    var e := EntryOf(i, shows[i], now, offset);
    ListingCount(shows, n, now, offset, e);
    if i < n {
      ListingOnce(shows[..n], i, now, offset);
    } else {
      ListingFresh(shows[..n], now, offset, e);
    }
  }

  /** Every listed show has its entry in exactly one place and nothing else has one; groups run by
  day with `later` last, none is empty, and each is sorted by airing time. */
  lemma EveryAiringOnce(shows: seq<Show>, now: int, offset: OffsetReader)
    ensures var gs := Groups(shows, now, offset);
      && WellGrouped(gs, SCHEDULE_DAYS + 1, BucketOf(now, offset))
      && (forall i :: 0 <= i < |shows| && Listed(shows[i], now) ==>
            multiset(AllEntries(gs))[EntryOf(i, shows[i], now, offset)] == 1)
      && (forall e :: e in AllEntries(gs) ==>
            && e.showIndex < |shows| && Listed(shows[e.showIndex], now)
            && e == EntryOf(e.showIndex, shows[e.showIndex], now, offset))
  {
    var gs, es, bucket := Groups(shows, now, offset), Listing(shows, now, offset), BucketOf(now, offset);
    GroupsWellFormed(es, SCHEDULE_DAYS + 1, bucket, DateOfBucket(now, offset));
    AllListed(shows, now, offset);
    forall i | 0 <= i < |shows| && Listed(shows[i], now)
      ensures multiset(AllEntries(gs))[EntryOf(i, shows[i], now, offset)] == 1
    {
      ListingOnce(shows, i, now, offset);
    }
    ListingGenuine(shows, now, offset);
    forall e | e in AllEntries(gs) ensures e in es {
      assert e in multiset(AllEntries(gs));
    }
  }

  lemma AllListed(shows: seq<Show>, now: int, offset: OffsetReader)
    ensures multiset(AllEntries(Groups(shows, now, offset))) == multiset(Listing(shows, now, offset))
  {
    var es, bucket := Listing(shows, now, offset), BucketOf(now, offset);
    GroupsConserve(es, SCHEDULE_DAYS + 1, bucket, DateOfBucket(now, offset));
    BelowAll(es, SCHEDULE_DAYS + 1, bucket);
  }

  /** In groups 1 to 7 every entry carries its group's own date, whatever the offset reader does
  between the airings: only today's group and `later` may hold other dates. */
  lemma GroupDateIsEntryDate(shows: seq<Show>, now: int, offset: OffsetReader, g: Group, e: Entry)
    requires g in Groups(shows, now, offset) && e in g.entries
    requires 1 <= g.daysFromToday < SCHEDULE_DAYS
    ensures e.date == g.date
  {
    var es, bucket := Listing(shows, now, offset), BucketOf(now, offset);
    var day := FloorDiv(LocalSecs(offset, now), 86400) + g.daysFromToday;
    GroupMembers(es, SCHEDULE_DAYS + 1, bucket, DateOfBucket(now, offset), g, e);
    BucketDate(now, offset, g.daysFromToday, day);
    ListedDate(shows, now, offset, e, g.daysFromToday, day);
  }

  lemma BucketDate(now: int, offset: OffsetReader, b: int, day: int)
    requires b != SCHEDULE_DAYS && day == FloorDiv(LocalSecs(offset, now), 86400) + b
    ensures DateOfBucket(now, offset)(b) == DateOf(day)
  {}

  lemma EntryDate(i: nat, s: Show, now: int, offset: OffsetReader)
    requires Listed(s, now)
    ensures var e := EntryOf(i, s, now, offset); e.date == DateOf(FloorDiv(LocalSecs(offset, e.airingAt), 86400))
  {}

  lemma ListedEntryDate(shows: seq<Show>, now: int, offset: OffsetReader, e: Entry, day: int)
    requires e in Listing(shows, now, offset) && day == FloorDiv(LocalSecs(offset, e.airingAt), 86400)
    ensures e.date == DateOf(day)
  {
    ListingGenuine(shows, now, offset);
    EntryDate(e.showIndex, shows[e.showIndex], now, offset);
  }

  // A listed entry in a bucket strictly between today's and the last has that bucket's date.
  lemma ListedDate(shows: seq<Show>, now: int, offset: OffsetReader, e: Entry, b: int, day: int)
    requires e in Listing(shows, now, offset)
    requires 1 <= b < SCHEDULE_DAYS && Clamped(Ahead(e.airingAt, now, offset)) == b
    requires day == FloorDiv(LocalSecs(offset, now), 86400) + b
    ensures e.date == DateOf(day)
  {
    ListedEntryDate(shows, now, offset, e, day);
  }

  // ---- Every group, in the reader's own terms ----

  // What the wall clock shows, and its day, counted from 1 January 1970.
  function Wall(offset: OffsetReader, t: int): int {
    match offset
    case Utc => t
    case Reader(at) => t + at(t)
  }

  function WallDay(offset: OffsetReader, t: int): int { Wall(offset, t) / 86400 }

  // A show that is watched or planned, and has an airing ahead.
  predicate Due(s: Show, now: int) {
    (s.status == Watching || s.status == Planning) && s.nextAiringAt.Some? && s.nextAiringAt.value > now
  }

  // The date of a day: its number, and its weekday counted from Monday.
  predicate Dated(d: CalendarDate, day: int) {
    ValidDate(d.civil) && DayNumber(d.civil) == day && d.weekday == NthWeekday((day + 3) % 7)
  }

  // The entry of show i says when it airs.
  predicate Tells(e: Entry, i: nat, s: Show, now: int, offset: OffsetReader) {
    && Due(s, now) && e.showIndex == i && e.airingAt == s.nextAiringAt.value
    && e.episode == (if s.nextEpisode.Some? then s.nextEpisode.value else 0)
    && e.secondsUntil == s.nextAiringAt.value - now
    && Dated(e.date, WallDay(offset, e.airingAt))
    && e.minuteOfDay == Wall(offset, e.airingAt) % 86400 / 60
  }

  lemma DateTells(day: int)
    ensures Dated(DateOf(day), day)
  {
    CivilIsDate(day);
    WeekdayByDay(day, 0);
  }

  lemma FloorsToDay(t: int)
    ensures FloorDiv(t, 86400) == t / 86400
  {
    var q := FloorDiv(t, 86400);
  }

  lemma MinuteTells(local: int, day: int)
    requires day == local / 86400
    ensures TruncDiv(local - day * 86400, 60) == local % 86400 / 60
  {
    assert local - day * 86400 == local % 86400;
  }

  lemma EntryTells(i: nat, s: Show, now: int, offset: OffsetReader)
    requires Due(s, now)
    ensures Tells(EntryOf(i, s, now, offset), i, s, now, offset)
  {
    var at := s.nextAiringAt.value;
    FloorsToDay(LocalSecs(offset, at));
    DateTells(WallDay(offset, at));
    MinuteTells(LocalSecs(offset, at), WallDay(offset, at));
  }

  /** Each show that is due stands in the schedule once, and nothing else does: every entry tells the airing of the
  show it names, and that show's only. */
  lemma StandsOnce(shows: seq<Show>, now: int, offset: OffsetReader)
    ensures var es := AllEntries(Groups(shows, now, offset));
      && (forall e :: e in es ==> e.showIndex < |shows| && Tells(e, e.showIndex, shows[e.showIndex], now, offset))
      && (forall i :: 0 <= i < |shows| && Due(shows[i], now) ==>
            exists e :: e in es && e.showIndex == i && multiset(es)[e] == 1)
      && (forall d, e :: d in es && e in es && d.showIndex == e.showIndex ==> d == e)
  {
    var es := AllEntries(Groups(shows, now, offset));
    EveryAiringOnce(shows, now, offset);
    forall e | e in es ensures e.showIndex < |shows| && Tells(e, e.showIndex, shows[e.showIndex], now, offset) {
      EntryTells(e.showIndex, shows[e.showIndex], now, offset);
    }
    forall i | 0 <= i < |shows| && Due(shows[i], now)
      ensures exists e :: e in es && e.showIndex == i && multiset(es)[e] == 1
    {
      var e := EntryOf(i, shows[i], now, offset);
      assert multiset(es)[e] == 1;
      assert e in multiset(es);
    }
  }

  lemma BucketTells(at: int, now: int, offset: OffsetReader)
    ensures var d := WallDay(offset, at) - WallDay(offset, now);
      BucketOf(now, offset)(at) == if d < 0 then 0 else if d < 8 then d else 8
  {
    FloorsToDay(LocalSecs(offset, at));
    FloorsToDay(LocalSecs(offset, now));
  }

  /** It stands in the group of its airing's day, counted from today's: today's group if that is past, `later` from the
  eighth day on. */
  lemma StandsByDay(shows: seq<Show>, now: int, offset: OffsetReader, g: Group, e: Entry)
    requires g in Groups(shows, now, offset) && e in g.entries
    ensures var d := WallDay(offset, e.airingAt) - WallDay(offset, now);
      g.daysFromToday == if d < 0 then 0 else if d < 8 then d else 8
  {
    var all := Listing(shows, now, offset);
    GroupMembers(all, SCHEDULE_DAYS + 1, BucketOf(now, offset), DateOfBucket(now, offset), g, e);
    BucketTells(e.airingAt, now, offset);
  }

  // Sorted by airing time, and airings at one time in the order of the shows.
  predicate InOrder(es: seq<Entry>) {
    forall i, j :: 0 <= i < j < |es| ==>
      es[i].airingAt < es[j].airingAt || (es[i].airingAt == es[j].airingAt && es[i].showIndex < es[j].showIndex)
  }

  // Not empty, of one of the nine days, the last of which is later and has no date of its own, and in order.
  predicate GroupTells(g: Group, today: int) {
    && g.entries != [] && 0 <= g.daysFromToday <= 8 && (g.later <==> g.daysFromToday == 8)
    && (if g.later then g.date == CalendarDate(Date(1970, 1, 1), Thursday) else Dated(g.date, today + g.daysFromToday))
    && InOrder(g.entries)
  }

  // Shows in list order.
  predicate Rising(es: seq<Entry>) { forall i, j :: 0 <= i < j < |es| ==> es[i].showIndex < es[j].showIndex }

  lemma {:induction false} ListingRises(shows: seq<Show>, now: int, offset: OffsetReader)
    ensures Rising(Listing(shows, now, offset))
  {
    if shows != [] {
      var n := |shows| - 1;
      ListingRises(shows[..n], now, offset);
      ListingGenuine(shows[..n], now, offset);
      var before := Listing(shows[..n], now, offset);
      assert forall i :: 0 <= i < |before| ==> before[i] in before;
    }
  }

  lemma {:induction false} BucketRises(es: seq<Entry>, b: int, bucket: int -> int)
    requires Rising(es)
    ensures Rising(InBucket(es, b, bucket))
  {
    if es != [] {
      assert forall i :: 0 <= i < |es[1..]| ==> es[1..][i] == es[i + 1];
      BucketRises(es[1..], b, bucket);
      InBucketOnly(es[1..], b, bucket);
      RisesAfter(es[0], es[1..], InBucket(es[1..], b, bucket));
    }
  }

  lemma RisesAfter(e: Entry, rest: seq<Entry>, some: seq<Entry>)
    requires Rising([e] + rest) && Rising(some) && forall x :: x in some ==> x in rest
    ensures Rising([e] + some)
  {
    forall i | 0 <= i < |some| ensures e.showIndex < some[i].showIndex {
      assert some[i] in some;
      var k :| 0 <= k < |rest| && rest[k] == some[i];
      assert ([e] + rest)[k + 1] == rest[k] && ([e] + rest)[0] == e;
    }
  }

  lemma {:induction false} KeyRises(es: seq<Entry>, k: int)
    requires Rising(es)
    ensures Rising(WithKey(es, AiringTime, k))
    ensures forall e :: e in WithKey(es, AiringTime, k) ==> e in es
  {
    if es != [] {
      assert forall i :: 0 <= i < |es[1..]| ==> es[1..][i] == es[i + 1];
      KeyRises(es[1..], k);
      WithKeyCons(es[0], es[1..], AiringTime, k);
      assert es == [es[0]] + es[1..];
      if es[0].airingAt == k { RisesAfter(es[0], es[1..], WithKey(es[1..], AiringTime, k)); }
    }
  }

  lemma {:induction false} TiesRise(es: seq<Entry>, i: nat, j: nat)
    requires i < j < |es| && es[i].airingAt == es[j].airingAt && Rising(WithKey(es, AiringTime, es[i].airingAt))
    ensures es[i].showIndex < es[j].showIndex
  {
    var k, rest := es[i].airingAt, es[1..];
    var some := WithKey(rest, AiringTime, k);
    WithKeyCons(es[0], rest, AiringTime, k);
    assert es == [es[0]] + rest;
    if i == 0 {
      assert es[j] == rest[j - 1];
      HasKey(rest, es[j]);
      var m :| 0 <= m < |some| && some[m] == es[j];
      assert ([es[0]] + some)[m + 1] == es[j];
    } else {
      if es[0].airingAt == k {
        assert forall m :: 0 <= m < |some| ==> ([es[0]] + some)[m + 1] == some[m];
      }
      TiesRise(rest, i - 1, j - 1);
    }
  }

  lemma {:induction false} HasKey(es: seq<Entry>, e: Entry)
    requires e in es
    ensures e in WithKey(es, AiringTime, e.airingAt)
  {
    WithKeyCons(es[0], es[1..], AiringTime, e.airingAt);
    assert es == [es[0]] + es[1..];
    if es[0] != e { HasKey(es[1..], e); }
  }

  lemma SortedInOrder(es: seq<Entry>)
    requires Rising(es)
    ensures InOrder(ByAiring(es))
  {
    var sorted := ByAiring(es);
    forall i, j | 0 <= i < j < |sorted|
      ensures sorted[i].airingAt < sorted[j].airingAt
           || (sorted[i].airingAt == sorted[j].airingAt && sorted[i].showIndex < sorted[j].showIndex)
    {
      var k := sorted[i].airingAt;
      StableSortSorts(es, AiringTime, k);
      KeyRises(es, k);
      assert AiringTime(sorted[i]) <= AiringTime(sorted[j]);
      if sorted[i].airingAt == sorted[j].airingAt { TiesRise(sorted, i, j); }
    }
  }

  lemma {:induction false} GroupSorts(es: seq<Entry>, n: nat, bucket: int -> int, date: int -> CalendarDate, g: Group)
    requires g in GroupsBelow(es, n, bucket, date)
    ensures exists b :: g.entries == ByAiring(InBucket(es, b, bucket))
  {
    if g in GroupsBelow(es, n - 1, bucket, date) { GroupSorts(es, n - 1, bucket, date, g); }
  }

  lemma GroupDated(shows: seq<Show>, now: int, offset: OffsetReader, g: Group)
    requires g in Groups(shows, now, offset) && g.entries != [] && 0 <= g.daysFromToday <= 8
    ensures if g.daysFromToday == 8 then g.date == CalendarDate(Date(1970, 1, 1), Thursday)
            else Dated(g.date, WallDay(offset, now) + g.daysFromToday)
  {
    GroupMembers(Listing(shows, now, offset), SCHEDULE_DAYS + 1, BucketOf(now, offset), DateOfBucket(now, offset),
                 g, g.entries[0]);
    DateOfDay(now, offset, g.daysFromToday);
  }

  lemma DateOfDay(now: int, offset: OffsetReader, d: int)
    requires 0 <= d <= 8
    ensures var date := DateOfBucket(now, offset)(d);
      if d == 8 then date == CalendarDate(Date(1970, 1, 1), Thursday) else Dated(date, WallDay(offset, now) + d)
  {
    FloorsToDay(LocalSecs(offset, now));
    if d < 8 {
      var day := FloorDiv(LocalSecs(offset, now), 86400) + d;
      BucketDate(now, offset, d, day);
      DateTells(day);
    }
  }

  lemma GroupInOrder(shows: seq<Show>, now: int, offset: OffsetReader, g: Group)
    requires g in Groups(shows, now, offset)
    ensures InOrder(g.entries)
  {
    var es, bucket := Listing(shows, now, offset), BucketOf(now, offset);
    GroupSorts(es, SCHEDULE_DAYS + 1, bucket, DateOfBucket(now, offset), g);
    var b :| g.entries == ByAiring(InBucket(es, b, bucket));
    ListingRises(shows, now, offset);
    BucketRises(es, b, bucket);
    SortedInOrder(InBucket(es, b, bucket));
  }

  /** The groups: none empty, in the order of their days, the eighth day's alone marked as later and without a date of
  its own, the others dated by their day; each sorted by airing time, ties in the order of the shows. */
  lemma GroupsTell(shows: seq<Show>, now: int, offset: OffsetReader)
    ensures var gs := Groups(shows, now, offset);
      && (forall i, j :: 0 <= i < j < |gs| ==> gs[i].daysFromToday < gs[j].daysFromToday)
      && (forall k :: 0 <= k < |gs| ==> GroupTells(gs[k], WallDay(offset, now)))
  {
    var gs := Groups(shows, now, offset);
    EveryAiringOnce(shows, now, offset);
    forall k | 0 <= k < |gs| ensures GroupTells(gs[k], WallDay(offset, now)) {
      assert WellFormed(gs[k], BucketOf(now, offset)) && 0 <= gs[k].daysFromToday < 9;
      GroupDated(shows, now, offset, gs[k]);
      GroupInOrder(shows, now, offset, gs[k]);
    }
  }

  // ---- Read as UTC, the groups are one sorted list cut by day ----

  // Buckets that never run backwards in time: true of UTC, not of every local clock.
  ghost predicate InTimeOrder(bucket: int -> int) {
    forall x, y :: bucket(x) < bucket(y) ==> x < y
  }

  lemma UtcInTimeOrder(now: int)
    ensures InTimeOrder(BucketOf(now, Utc))
  {
    forall x: int, y: int ensures FloorDiv(x, 86400) < FloorDiv(y, 86400) ==> x < y {}
  }

  lemma {:induction false} BelowOnly(es: seq<Entry>, n: int, bucket: int -> int)
    ensures forall e :: e in Below(es, n, bucket) ==> bucket(e.airingAt) < n
  {
    if es != [] { BelowOnly(es[1..], n, bucket); }
  }

  lemma {:induction false} SortSplits(es: seq<Entry>, n: nat, next: nat, bucket: int -> int)
    requires InTimeOrder(bucket) && next == n + 1
    ensures ByAiring(Below(es, next, bucket))
         == ByAiring(Below(es, n, bucket)) + ByAiring(InBucket(es, n, bucket))
  {
    if es != [] {
      var e, rest := es[0], es[1..];
      SortSplits(rest, n, next, bucket);
      var low, mine := Below(rest, n, bucket), InBucket(rest, n, bucket);
      BelowOnly(rest, n, bucket);
      InBucketOnly(rest, n, bucket);
      if bucket(e.airingAt) < n {
        SortIntoLow(e, low, mine, Below(rest, next, bucket), AiringTime);
      } else if bucket(e.airingAt) == n {
        SortIntoHigh(e, low, mine, Below(rest, next, bucket), AiringTime);
      }
    }
  }

  ghost predicate Ordering(groups: nat -> seq<Group>, low: nat -> seq<Entry>, mine: nat -> seq<Entry>,
                           date: int -> CalendarDate)
  {
    && AllEntries(groups(0)) == ByAiring(low(0))
    && forall k: nat :: groups(k + 1) == WithGroup(groups(k), k, mine(k), date(k))
                        && ByAiring(low(k + 1)) == ByAiring(low(k)) + ByAiring(mine(k))
  }

  lemma {:induction false} Ordered(groups: nat -> seq<Group>, low: nat -> seq<Entry>, mine: nat -> seq<Entry>,
                                   date: int -> CalendarDate, n: nat)
    requires Ordering(groups, low, mine, date)
    ensures AllEntries(groups(n)) == ByAiring(low(n))
  {
    if n > 0 {
      var k: nat := n - 1;
      Ordered(groups, low, mine, date, k);
      EntriesWith(groups(k), k, mine(k), date(k));
      assert groups(k + 1) == WithGroup(groups(k), k, mine(k), date(k));
    }
  }

  lemma OrderedGroups(es: seq<Entry>, n: nat, bucket: int -> int, date: int -> CalendarDate)
    requires InTimeOrder(bucket) && forall e :: e in es ==> bucket(e.airingAt) >= 0
    ensures AllEntries(GroupsBelow(es, n, bucket, date)) == ByAiring(Below(es, n, bucket))
  {
    var groups := (k: nat) => GroupsBelow(es, k, bucket, date);
    var low, mine := (k: nat) => Below(es, k, bucket), (k: nat) => InBucket(es, k, bucket);
    BelowNone(es, bucket);
    forall k: nat
      ensures groups(k + 1) == WithGroup(groups(k), k, mine(k), date(k))
      ensures ByAiring(low(k + 1)) == ByAiring(low(k)) + ByAiring(mine(k))
    {
      NextGroups(es, k, bucket, date);
      SortSplits(es, k, k + 1, bucket);
    }
    Ordered(groups, low, mine, date, n);
  }

  /** Read as UTC, the groups laid end to end are exactly the stable sort of all listed airings. */
  lemma UtcIsOneSort(shows: seq<Show>, now: int)
    ensures AllEntries(Groups(shows, now, Utc)) == ByAiring(Listing(shows, now, Utc))
  {
    var es, bucket := Listing(shows, now, Utc), BucketOf(now, Utc);
    UtcInTimeOrder(now);
    OrderedGroups(es, SCHEDULE_DAYS + 1, bucket, DateOfBucket(now, Utc));
    BelowAll(es, SCHEDULE_DAYS + 1, bucket);
  }
}
