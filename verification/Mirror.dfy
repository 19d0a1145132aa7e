/** The MAL mirror (src/mal_mirror.cpp): a guarded push of dirty rows onto a list others edit too,
and a pull that renews its token at most once. */
module Mirror {
  import opened Numerals
  import opened Library

  datatype Pair = Pair(status: ListStatus, progress: nat)

  // One entry of the MAL list.
  datatype Entry = Entry(pair: Pair, score: nat)

  type Server = map<int, Entry>

  datatype Error = Http(status: nat) | TooMany | OtherError

  // What the mirror last got accepted for a row; a withheld score is no belief at all.
  datatype Snapshot = Snapshot(synced: Option<Pair>, syncedScore: Option<nat>)

  // A library row as the work list gives it.
  datatype Row = Row(anilistId: int, malId: int, pair: Pair, score: nat, snapshot: Snapshot)

  datatype MirrorOutcome = Finished | Disabled | Unauthorized | RateLimited

  datatype Summary = Summary(outcome: MirrorOutcome, dirty: nat, pushed: nat, failed: nat, skipped: nat)

  // ---- Push: one row ----

  // The weather one row meets: the list when it is read and when it is written (others may edit
  // in between), which calls fail, and whether a save whose reply is an error took effect all the same.
  datatype Weather = Weather(atFetch: Server, fetchError: Option<Error>,
                             atSave: Server, saveError: Option<Error>, landed: bool, markFails: bool)

  function Live(s: Server, id: int): Option<Entry> {
    if id in s then Some(s[id]) else None
  }

  // Whether MAL's entry has moved away from what the mirror believes.
  predicate Moved(live: Option<Entry>, s: Snapshot) {
    live.Some? && ((s.synced.Some? && live.value.pair != s.synced.value)
                   || (s.syncedScore.Some? && live.value.score != s.syncedScore.value))
  }

  // A zero score is withheld: MAL would read it as "remove the score".
  function PushScore(r: Row): Option<nat> {
    if r.score == 0 then None else Some(r.score)
  }

  // save_entry on the server: a field not sent keeps its value.
  function Save(s: Server, id: int, pair: Pair, score: Option<nat>): Server {
    s[id := Entry(pair, if score.Some? then score.value else if id in s then s[id].score else 0)]
  }

  predicate Is401(e: Error) { e == Http(401) }

  datatype Event =
    | Read(row: nat, live: Option<Entry>)
    | Wrote(row: nat, before: Server, after: Server)
    | Marked(row: nat, snapshot: Snapshot)

  datatype Status = Going | Stopped(outcome: MirrorOutcome) | StoreFailed

  // The run so far: how it stands, the three counters, the snapshot column and what was done.
  datatype Progress = Progress(status: Status, pushed: nat, failed: nat, skipped: nat,
                               snapshots: map<int, Snapshot>, log: seq<Event>)

  function Halt(e: Error): Option<MirrorOutcome> {
    if Is401(e) then Some(Unauthorized) else if e == TooMany then Some(RateLimited) else None
  }

  function PushRow(p: Progress, i: nat, r: Row, w: Weather): Progress
  {
    if p.status != Going then p
    else if w.fetchError.Some? then Refused(p, w.fetchError.value)
    else
      var live := Live(w.atFetch, r.malId);
      var p' := p.(log := p.log + [Read(i, live)]);
      if Moved(live, r.snapshot) then p'.(skipped := p.skipped + 1)
      else
        var p'' := p'.(log := p'.log + [WriteOf(i, r, w)]);
        if w.saveError.Some? then Refused(if w.landed then p'' else p', w.saveError.value)
        else if w.markFails then p''.(status := StoreFailed)
        else
          var s := Sent(r);
          p''.(pushed := p.pushed + 1, snapshots := p.snapshots[r.anilistId := s], log := p''.log + [Marked(i, s)])
  }

  // The row's write, as it reaches MAL.
  function WriteOf(i: nat, r: Row, w: Weather): Event {
    Wrote(i, w.atSave, Save(w.atSave, r.malId, r.pair, PushScore(r)))
  }

  function Refused(p: Progress, e: Error): Progress {
    if Halt(e).Some? then p.(status := Stopped(Halt(e).value)) else p.(failed := p.failed + 1)
  }

  function PushRows(p: Progress, rows: seq<Row>, ws: seq<Weather>): Progress
    requires |rows| == |ws|
  {
    if rows == [] then p
    else
      var n := |rows| - 1;
      PushRow(PushRows(p, rows[..n], ws[..n]), n, rows[n], ws[n])
  }

  // ---- Push: the program ----

  class Store {
    var snapshots: map<int, Snapshot>

    constructor ()
      ensures snapshots == map[]
    {
      snapshots := map[];
    }

    method MarkSynced(id: int, s: Snapshot, fails: bool) returns (ok: bool)
      modifies this
      ensures ok == !fails
      ensures snapshots == if fails then old(snapshots) else old(snapshots)[id := s]
    {
      if fails { return false; }
      snapshots := snapshots[id := s];
      return true;
    }
  }

  datatype PushResult = Summed(summary: Summary) | StoreError

  function ResultOf(p: Progress, dirty: nat): PushResult {
    match p.status
    case Going => Summed(Summary(Finished, dirty, p.pushed, p.failed, p.skipped))
    case Stopped(o) => Summed(Summary(o, dirty, p.pushed, p.failed, p.skipped))
    case StoreFailed => StoreError
  }

  function Begin(snapshots: map<int, Snapshot>): Progress {
    Progress(Going, 0, 0, 0, snapshots, [])
  }

  lemma PushOne(p: Progress, rows: seq<Row>, ws: seq<Weather>, i: nat)
    requires |rows| == |ws| && i < |rows|
    ensures PushRows(p, rows[..i + 1], ws[..i + 1]) == PushRow(PushRows(p, rows[..i], ws[..i]), i, rows[i], ws[i])
  {
    assert rows[..i + 1][..i] == rows[..i] && ws[..i + 1][..i] == ws[..i];
  }

  // A run that stopped early stays where it stopped.
  lemma {:induction false} StaysStopped(p: Progress, rows: seq<Row>, ws: seq<Weather>, i: nat)
    requires |rows| == |ws| && i <= |rows| && PushRows(p, rows[..i], ws[..i]).status != Going
    ensures PushRows(p, rows, ws) == PushRows(p, rows[..i], ws[..i])
    decreases |rows| - i
  {
    if i < |rows| {
      PushOne(p, rows, ws, i);
      StaysStopped(p, rows, ws, i + 1);
    } else {
      assert rows[..i] == rows && ws[..i] == ws;
    }
  }

  method PushMirror(store: Store, rows: seq<Row>, ws: seq<Weather>) returns (r: PushResult, ghost log: seq<Event>)
    requires |rows| == |ws|
    modifies store
    ensures var p := PushRows(Begin(old(store.snapshots)), rows, ws);
      r == ResultOf(p, |rows|) && store.snapshots == p.snapshots && log == p.log
  {
    var pushed, failed, skipped := 0, 0, 0;
    log := [];
    ghost var begin := Begin(store.snapshots);
    var i := 0;
    while i < |rows|
      invariant i <= |rows| && 0 <= pushed && 0 <= failed && 0 <= skipped
      invariant PushRows(begin, rows[..i], ws[..i]) == Progress(Going, pushed, failed, skipped, store.snapshots, log)
    {
      var row, w := rows[i], ws[i];
      PushOne(begin, rows, ws, i);
      i := i + 1;
      if w.fetchError.Some? {
        if Halt(w.fetchError.value).Some? {
          StaysStopped(begin, rows, ws, i);
          return Summed(Summary(Halt(w.fetchError.value).value, |rows|, pushed, failed, skipped)), log;
        }
        failed := failed + 1;
        continue;
      }
      var live := Live(w.atFetch, row.malId);
      log := log + [Read(i - 1, live)];
      if Moved(live, row.snapshot) {
        skipped := skipped + 1;
        continue;
      }
      if w.saveError.Some? {
        if w.landed { log := log + [WriteOf(i - 1, row, w)]; }
        if Halt(w.saveError.value).Some? {
          StaysStopped(begin, rows, ws, i);
          return Summed(Summary(Halt(w.saveError.value).value, |rows|, pushed, failed, skipped)), log;
        }
        failed := failed + 1;
        continue;
      }
      log := log + [WriteOf(i - 1, row, w)];
      var snapshot := Snapshot(Some(row.pair), PushScore(row));
      var ok := store.MarkSynced(row.anilistId, snapshot, w.markFails);
      if !ok {
        StaysStopped(begin, rows, ws, i);
        return StoreError, log;
      }
      log := log + [Marked(i - 1, snapshot)];
      pushed := pushed + 1;
    }
    assert rows[..i] == rows && ws[..i] == ws;
    return Summed(Summary(Finished, |rows|, pushed, failed, skipped)), log;
  }

  // ---- Push: what holds over every run ----

  lemma {:induction false} CountsAddUp(p: Progress, rows: seq<Row>, ws: seq<Weather>)
    requires |rows| == |ws| && p.status == Going && p.pushed == p.failed == p.skipped == 0
    ensures var q := PushRows(p, rows, ws);
      if q.status == Going then q.pushed + q.failed + q.skipped == |rows|
      else q.pushed + q.failed + q.skipped < |rows|
  {
    if rows != [] { CountsAddUp(p, rows[..|rows| - 1], ws[..|rows| - 1]); }
  }

  /** Every dirty row is accounted for exactly when the run was not stopped. */
  lemma AllCountedIffFinished(snapshots: map<int, Snapshot>, rows: seq<Row>, ws: seq<Weather>)
    requires |rows| == |ws|
    ensures var r := ResultOf(PushRows(Begin(snapshots), rows, ws), |rows|);
      r.Summed? ==>
        (r.summary.outcome == Finished <==> r.summary.pushed + r.summary.failed + r.summary.skipped == r.summary.dirty)
  {
    CountsAddUp(Begin(snapshots), rows, ws);
    StopReasons(Begin(snapshots), rows, ws);
  }

  lemma {:induction false} StopReasons(p: Progress, rows: seq<Row>, ws: seq<Weather>)
    requires |rows| == |ws| && p.status == Going
    ensures var q := PushRows(p, rows, ws);
      q.status.Stopped? ==> q.status.outcome == Unauthorized || q.status.outcome == RateLimited
  {
    if rows != [] { StopReasons(p, rows[..|rows| - 1], ws[..|rows| - 1]); }
  }

  // ---- Push: what stops a run, and what is counted ----

  // MAL has no entry, or shows what the snapshot believes of it, where it believes anything.
  predicate Agrees(live: Option<Entry>, s: Snapshot) {
    live.Some? ==> (s.synced.Some? ==> live.value.pair == s.synced.value)
                   && (s.syncedScore.Some? ==> live.value.score == s.syncedScore.value)
  }

  // The row is read, and found to agree.
  predicate PassesGuard(r: Row, w: Weather) {
    w.fetchError == None && Agrees(if r.malId in w.atFetch then Some(w.atFetch[r.malId]) else None, r.snapshot)
  }

  // MAL answers the row with this error, when it is read or when it is written.
  predicate MeetsError(r: Row, w: Weather, e: Error) {
    w.fetchError == Some(e) || (PassesGuard(r, w) && w.saveError == Some(e))
  }

  predicate StoreRefuses(r: Row, w: Weather) { PassesGuard(r, w) && w.saveError == None && w.markFails }

  predicate Stops(r: Row, w: Weather) {
    MeetsError(r, w, Http(401)) || MeetsError(r, w, TooMany) || StoreRefuses(r, w)
  }

  predicate Pushes(r: Row, w: Weather) { PassesGuard(r, w) && w.saveError == None && !w.markFails }

  predicate Fails(r: Row, w: Weather) {
    !Stops(r, w) && (w.fetchError.Some? || (PassesGuard(r, w) && w.saveError.Some?))
  }

  predicate Skips(r: Row, w: Weather) { w.fetchError == None && !PassesGuard(r, w) }

  // The first row that stops the run, if any.
  function FirstStop(rows: seq<Row>, ws: seq<Weather>): (k: nat)
    requires |rows| == |ws|
    ensures k <= |rows| && (k < |rows| ==> Stops(rows[k], ws[k]))
    ensures forall i :: 0 <= i < k ==> !Stops(rows[i], ws[i])
  {
    if rows == [] then 0
    else
      var n := |rows| - 1;
      var k := FirstStop(rows[..n], ws[..n]);
      if k < n || Stops(rows[n], ws[n]) then k else n + 1
  }

  function Counted(rows: seq<Row>, ws: seq<Weather>, n: nat, counts: (Row, Weather) -> bool): nat
    requires n <= |rows| == |ws|
  {
    if n == 0 then 0 else Counted(rows, ws, n - 1, counts) + if counts(rows[n - 1], ws[n - 1]) then 1 else 0
  }

  lemma {:induction false} CountedPrefix(rows: seq<Row>, ws: seq<Weather>, m: nat, n: nat,
                                         counts: (Row, Weather) -> bool)
    requires n <= m <= |rows| == |ws|
    ensures Counted(rows[..m], ws[..m], n, counts) == Counted(rows, ws, n, counts)
  {
    if n > 0 { CountedPrefix(rows, ws, m, n - 1, counts); }
  }

  // How the run stands when its first stop, if any, is at k.
  predicate StandsAt(p: Progress, rows: seq<Row>, ws: seq<Weather>, k: nat)
    requires k <= |rows| == |ws|
  {
    && p.pushed == Counted(rows, ws, k, Pushes)
    && p.failed == Counted(rows, ws, k, Fails)
    && p.skipped == Counted(rows, ws, k, Skips)
    && p.status == (if k == |rows| then Going
                    else if MeetsError(rows[k], ws[k], Http(401)) then Stopped(Unauthorized)
                    else if MeetsError(rows[k], ws[k], TooMany) then Stopped(RateLimited)
                    else StoreFailed)
  }

  lemma RowStands(p: Progress, i: nat, r: Row, w: Weather)
    requires p.status == Going
    ensures var q := PushRow(p, i, r, w);
      && q.pushed == p.pushed + (if Pushes(r, w) then 1 else 0)
      && q.failed == p.failed + (if Fails(r, w) then 1 else 0)
      && q.skipped == p.skipped + (if Skips(r, w) then 1 else 0)
      && q.status == (if !Stops(r, w) then Going
                      else if MeetsError(r, w, Http(401)) then Stopped(Unauthorized)
                      else if MeetsError(r, w, TooMany) then Stopped(RateLimited)
                      else StoreFailed)
      && (Stops(r, w) ==> !Pushes(r, w) && !Fails(r, w) && !Skips(r, w))
  {}

  lemma {:induction false} RunStands(before: map<int, Snapshot>, rows: seq<Row>, ws: seq<Weather>)
    requires |rows| == |ws|
    ensures StandsAt(PushRows(Begin(before), rows, ws), rows, ws, FirstStop(rows, ws))
  {
    if rows != [] {
      var n := |rows| - 1;
      var p, k := PushRows(Begin(before), rows[..n], ws[..n]), FirstStop(rows[..n], ws[..n]);
      RunStands(before, rows[..n], ws[..n]);
      CountedPrefix(rows, ws, n, k, Pushes);
      CountedPrefix(rows, ws, n, k, Fails);
      CountedPrefix(rows, ws, n, k, Skips);
      if k == n { RowStands(p, n, rows[n], ws[n]); }
    }
  }

  /** A run ends as unauthorized exactly when MAL answers a row it comes to with a 401, as rate limited exactly when
  with a 429, and with a store error exactly when the store refuses to note one; no row before that one stopped it.
  Else it finishes. */
  lemma EndsExactlyWhen(before: map<int, Snapshot>, rows: seq<Row>, ws: seq<Weather>)
    requires |rows| == |ws|
    ensures var r, k := ResultOf(PushRows(Begin(before), rows, ws), |rows|), FirstStop(rows, ws);
      && (r.Summed? && r.summary.outcome == Unauthorized <==> k < |rows| && MeetsError(rows[k], ws[k], Http(401)))
      && (r.Summed? && r.summary.outcome == RateLimited <==> k < |rows| && MeetsError(rows[k], ws[k], TooMany))
      && (r == StoreError <==> k < |rows| && StoreRefuses(rows[k], ws[k]))
      && (r.Summed? && r.summary.outcome == Finished <==> k == |rows|)
  {
    RunStands(before, rows, ws);
  }

  /** And it counts, up to there, each row accepted and noted as pushed, each that met any other error as failed, each
  that was found to disagree as skipped; all rows are dirty. */
  lemma CountsExactly(before: map<int, Snapshot>, rows: seq<Row>, ws: seq<Weather>)
    requires |rows| == |ws|
    ensures var r, k := ResultOf(PushRows(Begin(before), rows, ws), |rows|), FirstStop(rows, ws);
      r.Summed? ==>
        && r.summary.dirty == |rows|
        && r.summary.pushed == Counted(rows, ws, k, Pushes)
        && r.summary.failed == Counted(rows, ws, k, Fails)
        && r.summary.skipped == Counted(rows, ws, k, Skips)
  {
    RunStands(before, rows, ws);
  }

  // A write at place k of the log follows a read of the same row that its snapshot does not
  // contradict, changes that row's entry alone, and leaves a withheld score as it was.
  predicate GuardedWrite(rows: seq<Row>, log: seq<Event>, k: nat)
    requires k < |log|
  {
    log[k].Wrote? ==>
      var i := log[k].row;
      && i < |rows|
      && k > 0 && log[k - 1].Read? && log[k - 1].row == i && !Moved(log[k - 1].live, rows[i].snapshot)
      && var id, before, after := rows[i].malId, log[k].before, log[k].after;
         && after.Keys == before.Keys + {id}
         && (forall j :: j in before && j != id ==> after[j] == before[j])
         && after[id].pair == rows[i].pair
         && after[id].score == (if rows[i].score > 0 then rows[i].score
                                else if id in before then before[id].score else 0)
  }

  ghost predicate AllGuarded(rows: seq<Row>, log: seq<Event>) {
    forall k :: 0 <= k < |log| ==> GuardedWrite(rows, log, k)
  }

  lemma GuardedSnoc(rows: seq<Row>, row: Row, log: seq<Event>, more: seq<Event>)
    requires AllGuarded(rows, log)
    requires forall k :: |log| <= k < |log + more| ==> GuardedWrite(rows + [row], log + more, k)
    ensures AllGuarded(rows + [row], log + more)
  {
    forall k | 0 <= k < |log| ensures GuardedWrite(rows + [row], log + more, k) {
      assert GuardedWrite(rows, log, k);
    }
  }

  /** Whatever MAL answers and whoever edits the list meanwhile: a row is written only right after
  a read that showed no entry, or one agreeing with every part of its snapshot; the write touches
  that entry alone, and a score the row does not have is left as MAL holds it. */
  lemma {:induction false} EveryWriteGuarded(p: Progress, rows: seq<Row>, ws: seq<Weather>)
    requires |rows| == |ws| && p.log == []
    ensures AllGuarded(rows, PushRows(p, rows, ws).log)
  {
    if rows != [] {
      var n := |rows| - 1;
      var q := PushRows(p, rows[..n], ws[..n]);
      EveryWriteGuarded(p, rows[..n], ws[..n]);
      assert rows == rows[..n] + [rows[n]];
      RowGuarded(rows[..n], rows[n], q, ws[n]);
    }
  }

  lemma RowGuarded(rows: seq<Row>, row: Row, q: Progress, w: Weather)
    requires AllGuarded(rows, q.log)
    ensures AllGuarded(rows + [row], PushRow(q, |rows|, row, w).log)
  {
    var i := |rows|;
    var live := Live(w.atFetch, row.malId);
    var read := Read(i, live);
    var wrote := WriteOf(i, row, w);
    var marked := Marked(i, Snapshot(Some(row.pair), PushScore(row)));
    GuardedSnoc(rows, row, q.log, []);
    GuardedSnoc(rows, row, q.log, [read]);
    if !Moved(live, row.snapshot) {
      GuardedSnoc(rows, row, q.log, [read, wrote]);
      GuardedSnoc(rows, row, q.log, [read, wrote, marked]);
    }
    assert q.log + [] == q.log;
    assert q.log + [read] + [wrote] == q.log + [read, wrote];
    assert q.log + [read] + [wrote] + [marked] == q.log + [read, wrote, marked];
  }

  // What the store calls dirty: the mirror's snapshot differs from the row.
  predicate Dirty(r: Row) {
    || r.snapshot.synced != Some(r.pair)
    || (if r.snapshot.syncedScore.Some? then r.snapshot.syncedScore.value else 0) != r.score
  }

  // The rows are keyed by AniList id.
  predicate Keyed(rows: seq<Row>) {
    forall i, j :: 0 <= i < j < |rows| ==> rows[i].anilistId != rows[j].anilistId
  }

  function Sent(r: Row): Snapshot { Snapshot(Some(r.pair), PushScore(r)) }

  ghost predicate Accepted(log: seq<Event>, i: nat) {
    exists s :: Marked(i, s) in log
  }

  // The column so far: what was sent for an accepted row, and what it was for any other.
  ghost predicate ColumnTells(before: map<int, Snapshot>, rows: seq<Row>, p: Progress) {
    && (forall i :: 0 <= i < |rows| ==>
          Held(p.snapshots, rows[i].anilistId)
          == if Accepted(p.log, i) then Some(Sent(rows[i])) else Held(before, rows[i].anilistId))
    && (forall id :: (forall i :: 0 <= i < |rows| ==> rows[i].anilistId != id) ==>
          Held(p.snapshots, id) == Held(before, id))
    && (forall e :: e in p.log && e.Marked? ==> e.row < |rows|)
  }

  function Held(m: map<int, Snapshot>, id: int): Option<Snapshot> {
    if id in m then Some(m[id]) else None
  }

  lemma ColumnStep(before: map<int, Snapshot>, rows: seq<Row>, row: Row, all: seq<Row>, n: nat,
                   q: Progress, w: Weather, p: Progress)
    requires all == rows + [row] && n == |rows| && p == PushRow(q, n, row, w)
    requires ColumnTells(before, rows, q) && Keyed(all)
    ensures ColumnTells(before, all, p)
  {
    RowGrows(q, n, row, w);
    ColumnGrows(before, rows, row, q, p, p.pushed > q.pushed);
  }

  /** After any run, however it ended, the snapshot column holds what was sent for exactly the rows
  accepted and is untouched everywhere else: a skipped, failed or unreached row stays as dirty as it was. */
  lemma {:induction false} ColumnIsWhatWasSent(before: map<int, Snapshot>, rows: seq<Row>, ws: seq<Weather>)
    requires |rows| == |ws| && Keyed(rows)
    ensures ColumnTells(before, rows, PushRows(Begin(before), rows, ws))
  {
    if rows != [] {
      var n := |rows| - 1;
      var q := PushRows(Begin(before), rows[..n], ws[..n]);
      ColumnIsWhatWasSent(before, rows[..n], ws[..n]);
      ColumnStep(before, rows[..n], rows[n], rows, n, q, ws[n], PushRows(Begin(before), rows, ws));
    }
  }

  // One row's step grows the column and the acceptances alike.
  ghost predicate Grows(q: Progress, p: Progress, n: nat, row: Row, accepted: bool) {
    && p.snapshots == (if accepted then q.snapshots[row.anilistId := Sent(row)] else q.snapshots)
    && (forall i :: Accepted(p.log, i) <==> Accepted(q.log, i) || (i == n && accepted))
    && (forall e :: e in p.log && e.Marked? ==> e in q.log || e.row == n)
  }

  // What a row adds to the log.
  function Added(q: Progress, n: nat, row: Row, w: Weather): seq<Event> {
    var read := Read(n, Live(w.atFetch, row.malId));
    if q.status != Going || w.fetchError.Some? then []
    else if Moved(read.live, row.snapshot) || (w.saveError.Some? && !w.landed) then [read]
    else if w.saveError.Some? || w.markFails then [read, WriteOf(n, row, w)]
    else [read, WriteOf(n, row, w), Marked(n, Sent(row))]
  }

  lemma RowAdds(q: Progress, n: nat, row: Row, w: Weather)
    ensures var p, more := PushRow(q, n, row, w), Added(q, n, row, w);
      && p.log == q.log + more && (p.pushed > q.pushed <==> |more| == 3)
      && p.snapshots == (if |more| == 3 then q.snapshots[row.anilistId := Sent(row)] else q.snapshots)
  {
    assert q.log + [] == q.log;
  }

  lemma RowGrows(q: Progress, n: nat, row: Row, w: Weather)
    ensures var p := PushRow(q, n, row, w); Grows(q, p, n, row, p.pushed > q.pushed)
  {
    RowAdds(q, n, row, w);
    LogGrows(q.log, Added(q, n, row, w), n);
  }

  lemma LogGrows(log: seq<Event>, more: seq<Event>, n: nat)
    requires |more| <= 3 && forall k :: 0 <= k < |more| ==> more[k].row == n && (more[k].Marked? <==> k == 2)
    ensures forall i :: Accepted(log + more, i) <==> Accepted(log, i) || (i == n && |more| == 3)
    ensures forall e :: e in log + more && e.Marked? ==> e in log || e.row == n
  {
    forall i ensures Accepted(log + more, i) <==> Accepted(log, i) || (i == n && |more| == 3) {
      if |more| == 3 { assert more[2] == Marked(n, more[2].snapshot) && more[2] in log + more; }
      if s :| Marked(i, s) in log { assert Marked(i, s) in log + more; }
    }
  }

  lemma ColumnGrows(before: map<int, Snapshot>, rows: seq<Row>, row: Row, q: Progress, p: Progress, accepted: bool)
    requires ColumnTells(before, rows, q) && Keyed(rows + [row]) && Grows(q, p, |rows|, row, accepted)
    ensures ColumnTells(before, rows + [row], p)
  {
    var all, n := rows + [row], |rows|;
    forall i | 0 <= i < n ensures all[i].anilistId != row.anilistId { assert all[n] == row; }
    forall i | 0 <= i <= n
      ensures Held(p.snapshots, all[i].anilistId)
           == if Accepted(p.log, i) then Some(Sent(all[i])) else Held(before, all[i].anilistId)
    {
      if i == n {
        assert forall j :: 0 <= j < n ==> rows[j] == all[j];
      } else {
        assert all[i] == rows[i];
      }
    }
    forall id | forall i :: 0 <= i < |all| ==> all[i].anilistId != id
      ensures Held(p.snapshots, id) == Held(before, id)
    {
      assert all[n].anilistId != id;
      forall i | 0 <= i < n ensures rows[i].anilistId != id { assert all[i].anilistId != id; }
    }
  }

  /** A row accepted in one run is clean after it, and in a later run, whatever the library then holds
  for it, it passes the guard exactly when MAL's entry is gone or still shows what was sent: status and
  progress, and the score unless it was withheld. With no edit in between it always does. */
  lemma AcceptedRowPassesNext(before: map<int, Snapshot>, rows: seq<Row>, ws: seq<Weather>, i: nat,
                              next: Row, server: Server, live: Option<Entry>)
    requires |rows| == |ws| && Keyed(rows) && i < |rows|
    requires var p := PushRows(Begin(before), rows, ws);
      Accepted(p.log, i) && Held(p.snapshots, rows[i].anilistId) == Some(next.snapshot)
    ensures !Dirty(rows[i].(snapshot := next.snapshot))
    ensures !Moved(live, next.snapshot) <==>
      live == None || (live.value.pair == rows[i].pair && (rows[i].score == 0 || live.value.score == rows[i].score))
    ensures !Moved(Live(Save(server, rows[i].malId, rows[i].pair, PushScore(rows[i])), rows[i].malId), next.snapshot)
  {
    ColumnIsWhatWasSent(before, rows, ws);
    assert next.snapshot == Sent(rows[i]);
  }

  // Every write in the log is the row's own.
  lemma {:induction false} WritesAreOwn(p: Progress, rows: seq<Row>, ws: seq<Weather>)
    requires |rows| == |ws| && p.log == []
    ensures forall e :: e in PushRows(p, rows, ws).log && e.Wrote? ==>
      e.row < |rows| && e == WriteOf(e.row, rows[e.row], ws[e.row])
  {
    if rows != [] {
      var n := |rows| - 1;
      WritesAreOwn(p, rows[..n], ws[..n]);
    }
  }

  // A row noted was written just before.
  lemma {:induction false} AcceptedWasWritten(p: Progress, rows: seq<Row>, ws: seq<Weather>, i: nat)
    requires |rows| == |ws| && p.log == [] && Accepted(PushRows(p, rows, ws).log, i)
    ensures i < |rows| && WriteOf(i, rows[i], ws[i]) in PushRows(p, rows, ws).log
  {
    if rows != [] {
      var n := |rows| - 1;
      var q := PushRows(p, rows[..n], ws[..n]);
      var more := Added(q, n, rows[n], ws[n]);
      RowAdds(q, n, rows[n], ws[n]);
      LogGrows(q.log, more, n);
      if Accepted(q.log, i) {
        AcceptedWasWritten(p, rows[..n], ws[..n], i);
      } else {
        assert more[1] in q.log + more;
      }
    }
  }

  // ---- Push: edits on MAL since the last push ----

  // The entry a row's write leaves on MAL.
  function SentEntry(r: Row, w: Weather): Entry {
    Save(w.atSave, r.malId, r.pair, PushScore(r))[r.malId]
  }

  // MAL showed e after the last push and something else at a later write, which replaces what had changed.
  predicate ChangeLost(e: Entry, found: Option<Entry>, after: Entry) {
    && found.Some?
    && ((found.value.pair != e.pair && after.pair != found.value.pair)
        || (found.value.score != e.score && after.score != found.value.score))
  }

  // Status and progress, or the score, are not what they were and are not what the row sends; a zero score
  // is not sent.
  predicate PairDiffers(was: Pair, found: Entry, r: Row) { found.pair != was && found.pair != r.pair }

  predicate ScoreDiffers(was: nat, found: Entry, r: Row) { found.score != was && r.score > 0 && found.score != r.score }

  /** The promise that a value changed on MAL since the last push is never overwritten. A row was accepted in one run,
  which left the entry e; a later run writes it, with that snapshot still. The write replaces what had changed
  exactly when it changed between this run's read and its write, in what the mirror believes, or an entry appeared
  where the read saw none, or the score, whenever it was changed, had been withheld from the last push. */
  lemma {:induction false} ChangeLostExactlyWhen(
    before: map<int, Snapshot>, rows: seq<Row>, ws: seq<Weather>, i: nat,
    start: map<int, Snapshot>, later: seq<Row>, lws: seq<Weather>, k: nat)
    requires |rows| == |ws| && Keyed(rows) && i < |rows| && |later| == |lws|
    requires Accepted(PushRows(Begin(before), rows, ws).log, i)
    requires k < |PushRows(Begin(start), later, lws).log| && PushRows(Begin(start), later, lws).log[k].Wrote?
    requires var j := PushRows(Begin(start), later, lws).log[k].row;
      && j < |later| && later[j].malId == rows[i].malId
      && Held(PushRows(Begin(before), rows, ws).snapshots, rows[i].anilistId) == Some(later[j].snapshot)
    ensures WriteOf(i, rows[i], ws[i]) in PushRows(Begin(before), rows, ws).log
    ensures var log := PushRows(Begin(start), later, lws).log;
      var wrote, e, id := log[k], SentEntry(rows[i], ws[i]), rows[i].malId;
      var r, found := later[wrote.row], Live(wrote.before, id);
      && k > 0 && log[k - 1].Read? && log[k - 1].row == wrote.row && id in wrote.after
      && var read := log[k - 1].live;
         ChangeLost(e, found, wrote.after[id]) <==>
           && found.Some?
           && if read == None then PairDiffers(e.pair, found.value, r) || ScoreDiffers(e.score, found.value, r)
              else PairDiffers(read.value.pair, found.value, r)
                   || (rows[i].score > 0 && ScoreDiffers(read.value.score, found.value, r))
                   || (rows[i].score == 0 && ScoreDiffers(e.score, found.value, r))
  {
    var log := PushRows(Begin(start), later, lws).log;
    AcceptedWasWritten(Begin(before), rows, ws, i);
    EveryWriteGuarded(Begin(start), later, lws);
    assert GuardedWrite(later, log, k);
    AcceptedRowPassesNext(before, rows, ws, i, later[log[k].row], map[], log[k - 1].live);
  }

  /** So without any race, where the write finds what the read saw, exactly when the score was withheld from the last
  push, has changed since, and is now sent as another. */
  lemma {:induction false} LostWithoutARaceExactlyWhen(
    before: map<int, Snapshot>, rows: seq<Row>, ws: seq<Weather>, i: nat,
    start: map<int, Snapshot>, later: seq<Row>, lws: seq<Weather>, k: nat)
    requires |rows| == |ws| && Keyed(rows) && i < |rows| && |later| == |lws|
    requires Accepted(PushRows(Begin(before), rows, ws).log, i)
    requires 0 < k < |PushRows(Begin(start), later, lws).log| && PushRows(Begin(start), later, lws).log[k].Wrote?
    requires var log := PushRows(Begin(start), later, lws).log;
      var j := log[k].row;
      && j < |later| && later[j].malId == rows[i].malId
      && Held(PushRows(Begin(before), rows, ws).snapshots, rows[i].anilistId) == Some(later[j].snapshot)
      && log[k - 1].Read? && log[k - 1].live == Live(log[k].before, rows[i].malId)
    ensures var wrote := PushRows(Begin(start), later, lws).log[k];
      var e, found := SentEntry(rows[i], ws[i]), Live(wrote.before, rows[i].malId);
      && rows[i].malId in wrote.after
      && (ChangeLost(e, found, wrote.after[rows[i].malId]) <==>
            rows[i].score == 0 && found.Some? && ScoreDiffers(e.score, found.value, later[wrote.row]))
  {
    ChangeLostExactlyWhen(before, rows, ws, i, start, later, lws, k);
  }

  /** Watching 3 was believed and read, and then edited to completed 12 on MAL: Watching 4 is written over it
  and counted as pushed. */
  lemma EditOverwritten()
    ensures var r := Row(1, 1, Pair(Watching, 4), 0, Snapshot(Some(Pair(Watching, 3)), None));
      var w := Weather(map[1 := Entry(Pair(Watching, 3), 0)], None,
                       map[1 := Entry(Pair(Completed, 12), 0)], None, true, false);
      var p := PushRow(Begin(map[]), 0, r, w);
      && p.pushed == 1 && Moved(Live(w.atSave, 1), r.snapshot)
      && p.log[1] == Wrote(0, w.atSave, map[1 := Entry(Pair(Watching, 4), 0)])
  {
  }

  // The weather in which nothing fails and nobody edits.
  function Calm(s: Server): Weather { Weather(s, None, s, None, true, false) }

  /** Watching 3 is pushed without a score, 9 is given on MAL, and later the row is scored 5: the next push writes 5
  over 9 and counts it as pushed, though nobody edited between its read and its write. */
  lemma WithheldScoreOverwritten()
    ensures var r := Row(1, 1, Pair(Watching, 3), 0, Snapshot(None, None));
      var p := PushRow(Begin(map[]), 0, r, Calm(map[]));
      && Accepted(p.log, 0) && p.snapshots == map[1 := Sent(r)]
      && SentEntry(r, Calm(map[])) == Entry(Pair(Watching, 3), 0)
    ensures var r := Row(1, 1, Pair(Watching, 3), 5, Snapshot(Some(Pair(Watching, 3)), None));
      var rated := map[1 := Entry(Pair(Watching, 3), 9)];
      var p := PushRow(Begin(map[]), 0, r, Calm(rated));
      && Dirty(r) && p.pushed == 1 && p.log[0] == Read(0, Some(Entry(Pair(Watching, 3), 9)))
      && p.log[1] == Wrote(0, rated, map[1 := Entry(Pair(Watching, 3), 5)])
      && ChangeLost(Entry(Pair(Watching, 3), 0), Live(rated, 1), Entry(Pair(Watching, 3), 5))
  {
    var r := Row(1, 1, Pair(Watching, 3), 0, Snapshot(None, None));
    var p := PushRow(Begin(map[]), 0, r, Calm(map[]));
    assert p.log[2] == Marked(0, Sent(r));
  }

  // ---- Push: rows written and not noted ----

  // The row was written on MAL, but the reply was lost or the store refused its snapshot.
  ghost predicate WrittenUnmarked(log: seq<Event>, i: nat) {
    && (exists e :: e in log && e.Wrote? && e.row == i)
    && !Accepted(log, i)
  }

  // The row's write put on MAL what its snapshot believes, or it believes nothing.
  predicate Believes(s: Snapshot, sent: Entry) {
    (s.synced.Some? ==> s.synced.value == sent.pair) && (s.syncedScore.Some? ==> s.syncedScore.value == sent.score)
  }

  // The run comes to row j and reads there what it finds.
  predicate ReadsAt(p: Progress, rows: seq<Row>, ws: seq<Weather>, j: nat, live: Option<Entry>)
    requires |rows| == |ws| && j < |rows|
  {
    && PushRows(p, rows[..j], ws[..j]).status == Going
    && ws[j].fetchError == None && Live(ws[j].atFetch, rows[j].malId) == live
  }

  predicate SkippedAt(p: Progress, rows: seq<Row>, ws: seq<Weather>, j: nat)
    requires |rows| == |ws| && j < |rows|
  {
    PushRows(p, rows[..j + 1], ws[..j + 1]).skipped == PushRows(p, rows[..j], ws[..j]).skipped + 1
  }

  ghost predicate Acted(log: seq<Event>, j: nat) {
    exists e :: e in log && !e.Read? && e.row == j
  }

  // No later row's step speaks of row j.
  lemma {:induction false} ActedOnlyThere(p: Progress, rows: seq<Row>, ws: seq<Weather>, j: nat)
    requires |rows| == |ws| && j < |rows|
    ensures Acted(PushRows(p, rows, ws).log, j) <==> Acted(PushRows(p, rows[..j + 1], ws[..j + 1]).log, j)
  {
    var n := |rows| - 1;
    if j < n {
      ActedOnlyThere(p, rows[..n], ws[..n], j);
      assert rows[..n][..j + 1] == rows[..j + 1] && ws[..n][..j + 1] == ws[..j + 1];
      RowActsAlone(PushRows(p, rows[..n], ws[..n]), n, rows[n], ws[n], j);
    } else {
      assert rows[..j + 1] == rows && ws[..j + 1] == ws;
    }
  }

  lemma RowActsAlone(q: Progress, n: nat, r: Row, w: Weather, j: nat)
    requires j != n
    ensures Acted(PushRow(q, n, r, w).log, j) <==> Acted(q.log, j)
  {
    var log := PushRow(q, n, r, w).log;
    assert forall e :: e in log ==> e in q.log || e.row == n;
    assert forall e :: e in q.log ==> e in log;
  }

  lemma {:induction false} RowsBefore(p: Progress, rows: seq<Row>, ws: seq<Weather>)
    requires |rows| == |ws| && p.log == []
    ensures forall e :: e in PushRows(p, rows, ws).log ==> e.row < |rows|
  {
    if rows != [] {
      var n := |rows| - 1;
      RowsBefore(p, rows[..n], ws[..n]);
    }
  }

  // Where the run reads what was sent, it skips the row exactly when its snapshot believes something else, and
  // then does nothing to it.
  lemma SkipsExactlyWhen(p: Progress, rows: seq<Row>, ws: seq<Weather>, j: nat, sent: Entry)
    requires |rows| == |ws| && j < |rows| && p.log == [] && ReadsAt(p, rows, ws, j, Some(sent))
    ensures SkippedAt(p, rows, ws, j) <==> !Believes(rows[j].snapshot, sent)
    ensures SkippedAt(p, rows, ws, j) ==> !Acted(PushRows(p, rows, ws).log, j)
  {
    var q := PushRows(p, rows[..j], ws[..j]);
    PushOne(p, rows, ws, j);
    RowsBefore(p, rows[..j], ws[..j]);
    ActedOnlyThere(p, rows, ws, j);
    if Moved(Some(sent), rows[j].snapshot) {
      assert PushRow(q, j, rows[j], ws[j]).log == q.log + [Read(j, Some(sent))];
    }
  }

  /** A row written on MAL and not noted keeps its old snapshot. In any later run that finds row, snapshot and entry
  as they were left, it is skipped exactly when the old snapshot believed something else than what was sent: the
  mirror takes its own write for someone else's. Then nothing is done to it and its snapshot is the same after
  that run too, so it is skipped in the next as well. */
  lemma {:induction false} UnmarkedRowSkippedExactlyWhen(
    before: map<int, Snapshot>, rows: seq<Row>, ws: seq<Weather>, i: nat,
    start: map<int, Snapshot>, later: seq<Row>, lws: seq<Weather>, j: nat)
    requires |rows| == |ws| && Keyed(rows) && WrittenUnmarked(PushRows(Begin(before), rows, ws).log, i)
    requires i < |rows| && Held(before, rows[i].anilistId) == Some(rows[i].snapshot)
    requires |later| == |lws| && Keyed(later) && j < |later| && later[j].(snapshot := rows[i].snapshot) == rows[i]
    requires Held(start, rows[i].anilistId) == Some(later[j].snapshot)
          == Held(PushRows(Begin(before), rows, ws).snapshots, rows[i].anilistId)
    requires ReadsAt(Begin(start), later, lws, j, Some(SentEntry(rows[i], ws[i])))
    ensures WriteOf(i, rows[i], ws[i]) in PushRows(Begin(before), rows, ws).log
    ensures SkippedAt(Begin(start), later, lws, j) <==> !Believes(rows[i].snapshot, SentEntry(rows[i], ws[i]))
    ensures SkippedAt(Begin(start), later, lws, j) ==>
      var q := PushRows(Begin(start), later, lws);
      !Acted(q.log, j) && Held(q.snapshots, rows[i].anilistId) == Some(rows[i].snapshot)
  {
    WritesAreOwn(Begin(before), rows, ws);
    ColumnIsWhatWasSent(before, rows, ws);
    SkipsExactlyWhen(Begin(start), later, lws, j, SentEntry(rows[i], ws[i]));
    ColumnIsWhatWasSent(start, later, lws);
  }

  lemma OnceWritten(log: seq<Event>, row: nat, e: Event)
    requires |log| == 2 && log[0].Read? && log[1] == e && e.Wrote? && e.row == row
    ensures WrittenUnmarked(log, row)
  {
  }

  /** Progress 3 was believed, 4 was written, and the store refused to note it: the row is dirty and its own write
  contradicts it. */
  lemma OwnWriteTakenForAnEdit()
    ensures var r := Row(1, 1, Pair(Watching, 4), 0, Snapshot(Some(Pair(Watching, 3)), None));
      var p := PushRow(Begin(map[]), 0, r, Weather(map[], None, map[], None, true, true));
      p.status == StoreFailed && WrittenUnmarked(p.log, 0) && Dirty(r) && Moved(Live(p.log[1].after, 1), r.snapshot)
  {
    var r := Row(1, 1, Pair(Watching, 4), 0, Snapshot(Some(Pair(Watching, 3)), None));
    var p := PushRow(Begin(map[]), 0, r, Weather(map[], None, map[], None, true, true));
    OnceWritten(p.log, 0, p.log[1]);
  }

  /** So it is when the write took effect and its reply was lost. */
  lemma LostReplyTakenForAnEdit()
    ensures var r := Row(1, 1, Pair(Watching, 4), 0, Snapshot(Some(Pair(Watching, 3)), None));
      var p := PushRow(Begin(map[]), 0, r, Weather(map[], None, map[], Some(OtherError), true, false));
      p.failed == 1 && WrittenUnmarked(p.log, 0) && Dirty(r) && Moved(Live(p.log[1].after, 1), r.snapshot)
  {
    var r := Row(1, 1, Pair(Watching, 4), 0, Snapshot(Some(Pair(Watching, 3)), None));
    var p := PushRow(Begin(map[]), 0, r, Weather(map[], None, map[], Some(OtherError), true, false));
    OnceWritten(p.log, 0, p.log[1]);
  }

  // ---- Pull: the token ----

  // A stored sign-in: usable or not, past its date or not, and what it authenticates as.
  datatype Auth = Auth(token: Option<string>, expiresAt: int)

  // is_expired: 0 is undated.
  predicate Expired(a: Auth, now: int) { a.expiresAt != 0 && a.expiresAt <= now }

  datatype Refresh = Rolled(auth: Auth) | RefusedRoll | Unreachable

  // What the pull reports: the outcome, whether the list was missed, and the renewed sign-in.
  datatype Pulled = Pulled(outcome: MirrorOutcome, failed: bool, rolled: Option<Auth>) | PullStoreError

  // One request to MAL during a pull.
  datatype Request = Renew(auth: Auth) | Fetch(token: string)

  // What the world answers: whether there is a refresher, its renewal, the errors (if any) of a
  // first and a second list fetch, and whether the store takes the result.
  datatype Answers = Answers(refresher: bool, renewal: Refresh, first: Option<Error>, second: Option<Error>,
                             reconcileFails: bool)

  predicate Usable(a: Auth) { a.token.Some? }

  predicate Adopts(r: Refresh) { r.Rolled? && Usable(r.auth) }

  // Renewed before the fetch, being past its date; or after it, being met with 401.
  predicate RenewsFirst(auth: Auth, now: int, a: Answers) { a.refresher && Expired(auth, now) }

  predicate RenewsLate(auth: Auth, now: int, a: Answers) {
    a.refresher && !Expired(auth, now) && a.first.Some? && Is401(a.first.value)
  }

  // The requests of a pull with a usable sign-in.
  function Requests(auth: Auth, now: int, a: Answers): seq<Request>
    requires Usable(auth)
  {
    var fetch := Fetch(auth.token.value);
    var again := if Adopts(a.renewal) then [Renew(auth), Fetch(a.renewal.auth.token.value)] else [Renew(auth)];
    if RenewsFirst(auth, now, a) then again
    else if RenewsLate(auth, now, a) then [fetch] + again
    else [fetch]
  }

  // How it ends: without a list when the renewal fails, else by the last fetch.
  function PullResult(auth: Auth, now: int, a: Answers): Pulled
    requires Usable(auth)
  {
    var renews := RenewsFirst(auth, now, a) || RenewsLate(auth, now, a);
    if renews && !Adopts(a.renewal) then
      Pulled(if a.renewal == Unreachable then Finished else Unauthorized, a.renewal == Unreachable, None)
    else
      var back := if renews then Some(a.renewal.auth) else None;
      var error := if RenewsLate(auth, now, a) then a.second else a.first;
      match error
      case Some(e) =>
        if Is401(e) then Pulled(Unauthorized, false, back)
        else if e == TooMany then Pulled(RateLimited, false, back)
        else Pulled(Finished, true, back)
      case None => if a.reconcileFails then PullStoreError else Pulled(Finished, false, back)
  }

  method PullMirror(auth: Auth, enabled: bool, now: int, a: Answers) returns (r: Pulled, ghost asked: seq<Request>)
    ensures r == if enabled && Usable(auth) then PullResult(auth, now, a) else Pulled(Disabled, false, None)
    ensures asked == if enabled && Usable(auth) then Requests(auth, now, a) else []
  {
    asked := [];
    if !enabled || auth.token.None? { return Pulled(Disabled, false, None), asked; }
    var current, rolled := auth, false;
    if a.refresher && Expired(current, now) {
      asked := asked + [Renew(current)];
      var stop := Roll(a.renewal);
      if stop.Some? { return stop.value, asked; }
      current, rolled := a.renewal.auth, true;
    }
    asked := asked + [Fetch(current.token.value)];
    var error := a.first;
    if error.Some? && Is401(error.value) && a.refresher && !rolled {
      asked := asked + [Renew(current)];
      var stop := Roll(a.renewal);
      if stop.Some? { return stop.value, asked; }
      current, rolled := a.renewal.auth, true;
      asked := asked + [Fetch(current.token.value)];
      error := a.second;
    }
    var back := if rolled then Some(current) else None;
    if error.Some? {
      if Is401(error.value) { return Pulled(Unauthorized, false, back), asked; }
      if error.value == TooMany { return Pulled(RateLimited, false, back), asked; }
      return Pulled(Finished, true, back), asked;
    }
    if a.reconcileFails { return PullStoreError, asked; }
    return Pulled(Finished, false, back), asked;
  }

  // The roll lambda: what to stop with, or nothing when the renewed pair is adopted.
  method Roll(r: Refresh) returns (stop: Option<Pulled>)
    ensures stop == if Adopts(r) then None
                    else Some(Pulled(if r == Unreachable then Finished else Unauthorized, r == Unreachable, None))
  {
    if r.Rolled? && r.auth.token.Some? { return None; }
    if r == Unreachable { return Some(Pulled(Finished, true, None)); }
    return Some(Pulled(Unauthorized, false, None));
  }

  // The renewal the pull asks for, before its fetch or after a 401, and what it takes for renewed.
  predicate AsksEarly(auth: Auth, now: int, a: Answers) { a.refresher && auth.expiresAt != 0 && auth.expiresAt <= now }

  predicate AsksLate(auth: Auth, now: int, a: Answers) {
    a.refresher && !(auth.expiresAt != 0 && auth.expiresAt <= now) && a.first == Some(Http(401))
  }

  predicate GetsToken(r: Refresh) { r.Rolled? && r.auth.token.Some? }

  /** How a pull ends: without a list when the renewal asked for gives no token, as finished and failed if MAL could not
  be reached, else as unauthorized; otherwise by its last fetch, with the renewed sign-in if there is one. */
  lemma PullEndsExactly(auth: Auth, now: int, a: Answers)
    requires auth.token.Some?
    ensures var r := PullResult(auth, now, a);
      var asks := AsksEarly(auth, now, a) || AsksLate(auth, now, a);
      var barred := asks && !GetsToken(a.renewal);
      var error := if AsksLate(auth, now, a) then a.second else a.first;
      && (r == PullStoreError <==> !barred && error == None && a.reconcileFails)
      && (r.Pulled? ==>
            && (r.outcome == Unauthorized <==> if barred then a.renewal != Unreachable else error == Some(Http(401)))
            && (r.outcome == RateLimited <==> !barred && error == Some(TooMany))
            && (r.outcome == Finished <==> if barred then a.renewal == Unreachable
                                           else error != Some(Http(401)) && error != Some(TooMany))
            && (r.failed <==> r.outcome == Finished && (barred || error.Some?))
            && r.rolled == if asks && !barred then Some(a.renewal.auth) else None)
  {}

  /** And what it asks of MAL, in order: a renewal first if the sign-in is past its date, else after a fetch that met a
  401, if there is anyone to renew it; a fetch with the stored token unless that came first; one with the renewed
  token if it got one. */
  lemma PullAsksExactly(auth: Auth, now: int, a: Answers)
    requires auth.token.Some?
    ensures var asked := Requests(auth, now, a);
      var early, late := AsksEarly(auth, now, a), AsksLate(auth, now, a);
      && (early <==> asked[0] == Renew(auth)) && (!early ==> asked[0] == Fetch(auth.token.value))
      && (late ==> |asked| >= 2 && asked[1] == Renew(auth))
      && (!early && !late ==> |asked| == 1)
      && (early || late ==>
            var n := if early then 1 else 2;
            if GetsToken(a.renewal) then |asked| == n + 1 && asked[n] == Fetch(a.renewal.auth.token.value)
            else |asked| == n)
  {}

  /** The stored sign-in is renewed at most once, and never with a renewed one; a fetch after the
  renewal uses the renewed token, one before it the stored one; and a token that was refused is
  never tried again. */
  lemma RenewedAtMostOnce(auth: Auth, now: int, a: Answers)
    requires Usable(auth)
    ensures var asked := Requests(auth, now, a);
      && (forall j, k :: 0 <= j < k < |asked| ==> !(asked[j].Renew? && asked[k].Renew?))
      && (forall k :: 0 <= k < |asked| && asked[k].Renew? ==> asked[k].auth == auth)
      && (forall k :: 0 <= k < |asked| && asked[k].Fetch? ==>
            if k == 0 then asked[k].token == auth.token.value
            else asked[k - 1] == Renew(auth) && Adopts(a.renewal) && asked[k].token == a.renewal.auth.token.value)
      && (forall j, k :: 0 <= j < k < |asked| && asked[j].Fetch? && asked[k].Fetch? ==>
            a.first.Some? && Is401(a.first.value))
  {}

  // Whether a renewed sign-in was adopted.
  predicate Renewed(auth: Auth, now: int, a: Answers) {
    (RenewsFirst(auth, now, a) || RenewsLate(auth, now, a)) && Adopts(a.renewal)
  }

  /** The promise "every return carries the renewed pair when there is one" holds exactly when the
  store does not refuse a list that was fetched: that error is returned bare, and the pair with
  which MAL has replaced the stored one is lost. */
  lemma RenewedPairHandedBackExactlyWhen(auth: Auth, now: int, a: Answers)
    requires Usable(auth) && Renewed(auth, now, a)
    ensures var r := PullResult(auth, now, a);
      var fetched := (if RenewsLate(auth, now, a) then a.second else a.first) == None;
      (r.Pulled? && r.rolled == Some(a.renewal.auth)) <==> !(fetched && a.reconcileFails)
  {}

  lemma RenewedPairLost()
    ensures var auth, renewed := Auth(Some("old"), 100), Auth(Some("new"), 900);
      var a := Answers(true, Rolled(renewed), None, None, true);
      Renewed(auth, 200, a) && PullResult(auth, 200, a) == PullStoreError
  {}
}
