/** download_to_file (src/download.cpp): a resumable transfer into `<dest>.part`, published by
fsync and rename. An attempt runs against an arbitrary server answer and arbitrary disk faults;
every state the two files pass through is logged, so that a crash is just a log cut short. */
module Download {
  import opened Numerals

  type Bytes = seq<bv8>

  // The two files of one destination.
  datatype Files = Files(part: Option<Bytes>, dest: Option<Bytes>)

  // A file system call that took effect, or a progress tick, and the files at that moment.
  datatype Event =
    | Changed(files: Files)
    | Ticked(files: Files, bytes: nat, total: Option<nat>)

  datatype World = World(files: Files, log: seq<Event>)

  // One write(2): a count (possibly short), EINTR, or a failure.
  datatype WriteResult = Wrote(n: nat) | Interrupted | Failed

  // The bytes of the body that a 206 says it carries, from lo up to hi: its Content-Range, which the
  // program never reads.
  datatype Range = Range(lo: nat, hi: nat)

  // What the transport hands over: the status, the Content-Length, the range, the body in libcurl's
  // chunks, and whether the transfer ended well.
  datatype Answer = Answer(status: nat, length: Option<nat>, range: Range, chunks: seq<Bytes>, finished: bool)

  // Everything outside the program's control during one attempt; `writes` says how the first
  // write calls go, and every later one succeeds in full.
  datatype Env = Env(answer: Answer, cancelled: bool, statFails: bool, openFails: bool,
                     writes: seq<WriteResult>, syncFails: bool, renameFails: bool, removeFails: bool)

  datatype Outcome = Done | IoError | Cancelled | FetchError

  predicate Accepted(status: nat) { 200 <= status <= 299 }

  // ---- The specification of one attempt ----

  function Put(w: World, f: Files): World {
    World(f, w.log + [Changed(f)])
  }

  function PutPart(w: World, content: Bytes): World {
    Put(w, w.files.(part := Some(content)))
  }

  // write(2) until data is out, EINTR retried.
  function WriteAll(w: World, data: Bytes, writes: seq<WriteResult>): (World, bool, seq<WriteResult>)
    requires w.files.part.Some?
    decreases |writes|
  {
    if data == [] then (w, true, writes)
    else if writes == [] then (PutPart(w, w.files.part.value + data), true, [])
    else
      match writes[0]
      case Interrupted => WriteAll(w, data, writes[1..])
      case Failed => (w, false, writes[1..])
      case Wrote(n) =>
        var m := if n < |data| then n else |data|;
        WriteAll(PutPart(w, w.files.part.value + data[..m]), data[m..], writes[1..])
  }

  lemma {:induction false} WriteAllKeepsPart(w: World, data: Bytes, writes: seq<WriteResult>)
    requires w.files.part.Some?
    ensures WriteAll(w, data, writes).0.files.part.Some?
    decreases |writes|
  {
    if data != [] && writes != [] {
      match writes[0]
      case Interrupted => WriteAllKeepsPart(w, data, writes[1..]);
      case Failed =>
      case Wrote(n) =>
        var m := if n < |data| then n else |data|;
        WriteAllKeepsPart(PutPart(w, w.files.part.value + data[..m]), data[m..], writes[1..]);
    }
  }

  // The sink over chunks, the file being open: false when a write failed.
  function Sink(w: World, chunks: seq<Bytes>, written: nat, total: Option<nat>, writes: seq<WriteResult>)
    : (World, bool)
    requires w.files.part.Some?
    decreases |chunks|
  {
    if chunks == [] then (w, true)
    else
      WriteAllKeepsPart(w, chunks[0], writes);
      var (w', ok, writes') := WriteAll(w, chunks[0], writes);
      if !ok then (w', false)
      else
        var now := written + |chunks[0]|;
        var w'' := World(w'.files, w'.log + [Ticked(w'.files, now, total)]);
        Sink(w'', chunks[1..], now, total, writes')
  }

  function Offset(f: Files, env: Env): nat {
    if f.part.None? || env.statFails then 0 else |f.part.value|
  }

  predicate Resumes(f: Files, env: Env) {
    env.answer.status == 206 && Offset(f, env) > 0
  }

  // The file as the sink finds it after opening: the resumed prefix, or empty.
  function AfterOpen(w: World, env: Env): World {
    if Resumes(w.files, env) then w else PutPart(w, [])
  }

  // The bytes counted at the start, and the size announced.
  function Base(f: Files, env: Env): nat {
    if Resumes(f, env) then Offset(f, env) else 0
  }

  function Total(f: Files, env: Env): Option<nat> {
    if env.answer.length.None? then None else Some(env.answer.length.value + Base(f, env))
  }

  function Sunk(w: World, env: Env): (World, bool) {
    Sink(AfterOpen(w, env), env.answer.chunks, Base(w.files, env), Total(w.files, env), env.writes)
  }

  // The transfer: the world after it, whether any byte reached the sink, and whether it is free
  // of I/O errors.
  function Transfer(w: World, env: Env): (World, bool, bool)
  {
    var a := env.answer;
    if !Accepted(a.status) || a.chunks == [] then (w, false, true)
    else if env.openFails then (w, false, false)
    else
      var (w', ok) := Sunk(w, env);
      (w', true, ok)
  }

  function Publish(w: World, env: Env): (World, Outcome)
  {
    if w.files.part.None? || env.renameFails then (w, IoError)
    else (Put(w, Files(None, w.files.part)), Done)
  }

  function Attempt(w: World, env: Env): (World, Outcome)
  {
    var (w', began, ok) := Transfer(w, env);
    if !ok then (w', IoError) else Ending(w', Offset(w.files, env), began, env)
  }

  // After a transfer without I/O errors: refused, given up, or published.
  function Ending(w: World, offset: nat, began: bool, env: Env): (World, Outcome)
  {
    var status := env.answer.status;
    if env.cancelled then (w, Cancelled)
    else if !env.answer.finished || !Accepted(status) then
      if offset > 0 && env.answer.finished && status == 416 && !env.removeFails
      then (Put(w, w.files.(part := None)), FetchError)
      else (w, FetchError)
    else if !began && status != 206 then
      if env.openFails then (w, IoError)
      else
        var w' := PutPart(w, []);
        if env.syncFails then (w', IoError) else Publish(w', env)
    else if began && env.syncFails then (w, IoError)
    else Publish(w, env)
  }

  // ---- The program ----

  class Downloader {
    var part: Option<Bytes>
    var dest: Option<Bytes>
    ghost var log: seq<Event>

    constructor (part: Option<Bytes>, dest: Option<Bytes>)
      ensures Now() == World(Files(part, dest), [])
    {
      this.part := part;
      this.dest := dest;
      log := [];
    }

    ghost function Now(): World
      reads this
    {
      World(Files(part, dest), log)
    }

    method SetPart(content: Bytes)
      modifies this
      ensures Now() == PutPart(old(Now()), content)
    {
      part := Some(content);
      log := log + [Changed(Files(part, dest))];
    }

    // The inner loop of the sink: write until the chunk is out.
    method WriteChunk(data: Bytes, writes: seq<WriteResult>)
      returns (ok: bool, rest: seq<WriteResult>)
      requires part.Some?
      modifies this
      ensures part.Some?
      ensures (Now(), ok, rest) == WriteAll(old(Now()), data, writes)
    {
      var done: nat := 0;
      rest := writes;
      while done < |data|
        invariant done <= |data| && part.Some?
        invariant WriteAll(Now(), data[done..], rest) == WriteAll(old(Now()), data, writes)
        decreases |rest|, |data| - done
      {
        if rest == [] {
          SetPart(part.value + data[done..]);
          done := |data|;
        } else {
          var r := rest[0];
          rest := rest[1..];
          match r {
            case Interrupted =>
            case Failed => return false, rest;
            case Wrote(n) =>
              var m := if n < |data| - done then n else |data| - done;
              assert data[done..][..m] == data[done..done + m] && data[done..][m..] == data[done + m..];
              SetPart(part.value + data[done..done + m]);
              done := done + m;
          }
        }
      }
      return true, rest;
    }

    // download_to_file. `began` is the program's fd >= 0.
    method DownloadToFile(env: Env) returns (outcome: Outcome)
      modifies this
      ensures (Now(), outcome) == Attempt(old(Now()), env)
    {
      var offset := if part.None? || env.statFails then 0 else |part.value|;
      var a := env.answer;
      var began, ok := Fetch(env, offset);
      if !ok { return IoError; }
      if env.cancelled { return Cancelled; }
      if !a.finished || !Accepted(a.status) {
        if offset > 0 && a.finished && a.status == 416 && !env.removeFails {
          part := None;
          log := log + [Changed(Files(part, dest))];
        }
        return FetchError;
      }
      if !began && a.status != 206 {
        if env.openFails { return IoError; }
        SetPart([]);
        began := true;
      }
      if began && env.syncFails { return IoError; }
      if part.None? || env.renameFails { return IoError; }
      part, dest := None, part;
      log := log + [Changed(Files(part, dest))];
      return Done;
    }

    // fetch_to_sink with the program's sink: opens the file on the first chunk.
    method Fetch(env: Env, offset: nat) returns (began: bool, ok: bool)
      requires offset == Offset(Files(part, dest), env)
      modifies this
      ensures (Now(), began, ok) == Transfer(old(Now()), env)
    {
      var a := env.answer;
      if !Accepted(a.status) || a.chunks == [] { return false, true; }
      if env.openFails { return false, false; }
      var resume := a.status == 206 && offset > 0;
      if !resume { SetPart([]); }
      var written: nat := if resume then offset else 0;
      var total := if a.length.None? then None else Some(a.length.value + if resume then offset else 0);
      var writes := env.writes;
      var i: nat := 0;
      ghost var start := Now();
      ghost var base := written;
      while i < |a.chunks|
        invariant i <= |a.chunks| && part.Some?
        invariant Sink(start, a.chunks, base, total, env.writes) == Sink(Now(), a.chunks[i..], written, total, writes)
      {
        var done: bool;
        done, writes := WriteChunk(a.chunks[i], writes);
        if !done { return true, false; }
        assert a.chunks[i..][1..] == a.chunks[i + 1..];
        written := written + |a.chunks[i]|;
        log := log + [Ticked(Files(part, dest), written, total)];
        i := i + 1;
      }
      return true, true;
    }
  }

  // ---- A server with a fixed body ----

  function Flat(chunks: seq<Bytes>): Bytes {
    if chunks == [] then [] else chunks[0] + Flat(chunks[1..])
  }

  // What a server of body B may answer when asked from offset on (0: no Range was sent), per sections
  // 15.3.7 and 15.5.17 of RFC 9110: a 206 carries a part of what was asked for, any other 2xx all of
  // B; a transfer that breaks off has carried a prefix. Refusals are unconstrained.
  predicate Serves(B: Bytes, offset: nat, a: Answer) {
    Accepted(a.status) ==>
      && (a.status == 206 ==> 0 < offset <= a.range.lo <= a.range.hi <= |B|)
      && Carries(a, if a.status == 206 then B[a.range.lo..a.range.hi] else B)
  }

  predicate Carries(a: Answer, whole: Bytes) {
    && Flat(a.chunks) <= whole
    && (a.finished ==> Flat(a.chunks) == whole)
    && (a.length.Some? ==> a.length.value == |whole|)
  }

  // An answer that brings a file of size offset up to B, or makes it anew.
  predicate Delivers(B: Bytes, offset: nat, a: Answer) {
    Accepted(a.status) ==>
      && (a.status == 206 ==> 0 < offset <= |B|)
      && Carries(a, if a.status == 206 then B[offset..] else B)
  }

  // The part file, if any, is a prefix of B; dest is what it was, or exactly B.
  predicate Safe(B: Bytes, dest: Option<Bytes>, f: Files) {
    (f.part.Some? ==> f.part.value <= B) && (f.dest == dest || f.dest == Some(B))
  }

  // A tick reports the size of the part file and, when a length was sent, the size of B.
  predicate SafeEvent(B: Bytes, dest: Option<Bytes>, e: Event) {
    && Safe(B, dest, e.files)
    && (e.Ticked? ==> e.files.part.Some? && e.bytes == |e.files.part.value|
                      && (e.total.Some? ==> e.total.value == |B|))
  }

  ghost predicate SafeWorld(B: Bytes, dest: Option<Bytes>, w: World) {
    Safe(B, dest, w.files) && forall e :: e in w.log ==> SafeEvent(B, dest, e)
  }

  lemma {:induction false} WriteAllSafe(B: Bytes, dest: Option<Bytes>, w: World, data: Bytes, writes: seq<WriteResult>)
    requires SafeWorld(B, dest, w) && w.files.part.Some? && w.files.part.value + data <= B
    ensures var (w', ok, _) := WriteAll(w, data, writes);
      && SafeWorld(B, dest, w') && w'.files.part.Some? && w'.files.dest == w.files.dest
      && (ok ==> w'.files.part.value == w.files.part.value + data)
    decreases |writes|
  {
    var p := w.files.part.value;
    if data != [] && writes != [] {
      match writes[0]
      case Interrupted => WriteAllSafe(B, dest, w, data, writes[1..]);
      case Failed =>
      case Wrote(n) =>
        var m := if n < |data| then n else |data|;
        assert p + data == (p + data[..m]) + data[m..];
        WriteAllSafe(B, dest, PutPart(w, p + data[..m]), data[m..], writes[1..]);
    } else if data == [] {
      assert p + data == p;
    }
  }

  lemma {:induction false} SinkSafe(B: Bytes, dest: Option<Bytes>, w: World, chunks: seq<Bytes>,
                                    written: nat, total: Option<nat>, writes: seq<WriteResult>)
    requires SafeWorld(B, dest, w) && w.files.part.Some? && w.files.part.value + Flat(chunks) <= B
    requires written == |w.files.part.value| && (total.Some? ==> total.value == |B|)
    ensures var (w', ok) := Sink(w, chunks, written, total, writes);
      && SafeWorld(B, dest, w') && w'.files.part.Some? && w'.files.dest == w.files.dest
      && (ok ==> w'.files.part.value == w.files.part.value + Flat(chunks))
    decreases |chunks|
  {
    var p := w.files.part.value;
    if chunks == [] {
      assert p + [] == p;
    } else {
      assert p + Flat(chunks) == (p + chunks[0]) + Flat(chunks[1..]);
      WriteAllSafe(B, dest, w, chunks[0], writes);
      var (w', ok, writes') := WriteAll(w, chunks[0], writes);
      if ok {
        var now := written + |chunks[0]|;
        SinkSafe(B, dest, World(w'.files, w'.log + [Ticked(w'.files, now, total)]), chunks[1..], now, total, writes');
      }
    }
  }

  lemma OpenSafe(B: Bytes, dest: Option<Bytes>, w: World, env: Env)
    requires SafeWorld(B, dest, w) && Delivers(B, Offset(w.files, env), env.answer)
    requires Accepted(env.answer.status)
    ensures var w' := AfterOpen(w, env);
      && SafeWorld(B, dest, w') && w'.files.part.Some?
      && w'.files.part.value + Flat(env.answer.chunks) <= B
      && (env.answer.finished ==> w'.files.part.value + Flat(env.answer.chunks) == B)
      && |w'.files.part.value| == Base(w.files, env)
  {
    var flat := Flat(env.answer.chunks);
    if Resumes(w.files, env) {
      PrefixJoin(B, w.files.part.value, flat);
    } else {
      PrefixJoin(B, [], flat);
      assert B[0..] == B;
    }
  }

  lemma PrefixJoin(B: Bytes, p: Bytes, t: Bytes)
    requires p <= B && t <= B[|p|..]
    ensures p + t <= B
    ensures t == B[|p|..] ==> p + t == B
  {
    assert p == B[..|p|] && t == B[|p|..][..|t|];
  }

  lemma TotalIsBody(B: Bytes, f: Files, env: Env)
    requires Delivers(B, Offset(f, env), env.answer) && Accepted(env.answer.status)
    ensures Total(f, env).Some? ==> Total(f, env).value == |B|
  {}

  lemma SunkSafe(B: Bytes, dest: Option<Bytes>, w: World, env: Env)
    requires SafeWorld(B, dest, w) && Delivers(B, Offset(w.files, env), env.answer) && Accepted(env.answer.status)
    ensures var (w', ok) := Sunk(w, env);
      && SafeWorld(B, dest, w') && w'.files.dest == w.files.dest
      && (ok && env.answer.finished ==> w'.files.part == Some(B))
  {
    OpenSafe(B, dest, w, env);
    TotalIsBody(B, w.files, env);
    SinkSafe(B, dest, AfterOpen(w, env), env.answer.chunks, Base(w.files, env), Total(w.files, env), env.writes);
  }

  // After the transfer the part file still is a prefix, and the whole body when it ended well.
  lemma TransferSafe(B: Bytes, dest: Option<Bytes>, w: World, env: Env)
    requires SafeWorld(B, dest, w) && Delivers(B, Offset(w.files, env), env.answer)
    ensures var (w', began, ok) := Transfer(w, env);
      && SafeWorld(B, dest, w') && w'.files.dest == w.files.dest
      && (began && ok && env.answer.finished ==> w'.files.part == Some(B))
      && (!began ==> w' == w)
      && (began ==> env.answer.chunks != [])
  {
    if Accepted(env.answer.status) && env.answer.chunks != [] && !env.openFails {
      SunkSafe(B, dest, w, env);
    }
  }

  // A good answer without a body: the part file already is all of B, or B is empty.
  lemma BodilessIsWhole(B: Bytes, dest: Option<Bytes>, w: World, env: Env)
    requires SafeWorld(B, dest, w) && Delivers(B, Offset(w.files, env), env.answer)
    requires Accepted(env.answer.status) && env.answer.finished && env.answer.chunks == []
    ensures if env.answer.status == 206 then w.files.part == Some(B) else B == []
  {
    if env.answer.status == 206 {
      var p := w.files.part.value;
      assert |B[|p|..]| == 0;
      assert p == B[..|p|] == B;
    }
  }

  lemma PutSafe(B: Bytes, dest: Option<Bytes>, w: World, f: Files)
    requires SafeWorld(B, dest, w) && Safe(B, dest, f)
    ensures SafeWorld(B, dest, Put(w, f))
  {}

  lemma PublishSafe(B: Bytes, dest: Option<Bytes>, w: World, env: Env)
    requires SafeWorld(B, dest, w) && w.files.part == Some(B)
    ensures var (w', outcome) := Publish(w, env);
      && SafeWorld(B, dest, w')
      && (outcome == Done ==> w'.files == Files(None, Some(B)))
      && (outcome != Done ==> w'.files.dest == w.files.dest)
  {
    PutSafe(B, dest, w, Files(None, Some(B)));
  }

  lemma EndingSafe(B: Bytes, dest: Option<Bytes>, w: World, offset: nat, began: bool, env: Env)
    requires SafeWorld(B, dest, w)
    requires env.answer.finished && Accepted(env.answer.status) ==>
      if began || env.answer.status == 206 then w.files.part == Some(B) else B == []
    ensures var (w', outcome) := Ending(w, offset, began, env);
      && SafeWorld(B, dest, w')
      && (outcome == Done ==> w'.files == Files(None, Some(B)))
      && (outcome != Done ==> w'.files.dest == w.files.dest)
  {
    PutSafe(B, dest, w, w.files.(part := None));
    if env.answer.finished && Accepted(env.answer.status) {
      if began || env.answer.status == 206 {
        PublishSafe(B, dest, w, env);
      } else {
        PutSafe(B, dest, w, w.files.(part := Some([])));
        PublishSafe(B, dest, PutPart(w, []), env);
      }
    }
  }

  lemma DeliveredSafe(B: Bytes, dest: Option<Bytes>, w: World, env: Env)
    requires SafeWorld(B, dest, w) && Delivers(B, Offset(w.files, env), env.answer)
    ensures var (w', outcome) := Attempt(w, env);
      && SafeWorld(B, dest, w')
      && (outcome == Done ==> w'.files == Files(None, Some(B)))
      && (outcome != Done ==> w'.files.dest == w.files.dest)
  {
    TransferSafe(B, dest, w, env);
    var (w', began, ok) := Transfer(w, env);
    if ok {
      if !began && env.answer.finished && Accepted(env.answer.status) { BodilessIsWhole(B, dest, w, env); }
      EndingSafe(B, dest, w', Offset(w.files, env), began, env);
    }
  }

  // ---- What an attempt makes ----

  // What the attempt brings the part file up to: all of B, or the old part and what the 206 carries.
  function Target(B: Bytes, f: Files, env: Env): Bytes
    requires Serves(B, Offset(f, env), env.answer)
  {
    var a := env.answer;
    if a.status == 206 then f.part.value + B[a.range.lo..a.range.hi] else B
  }

  lemma ServedIsDelivered(B: Bytes, f: Files, env: Env)
    requires Serves(B, Offset(f, env), env.answer)
    ensures Delivers(Target(B, f, env), Offset(f, env), env.answer)
  {
    if env.answer.status == 206 {
      var p, t := f.part.value, B[env.answer.range.lo..env.answer.range.hi];
      assert (p + t)[|p|..] == t;
    }
  }

  predicate PartOf(B: Bytes, f: Files) {
    f.part.Some? ==> f.part.value <= B
  }

  /** One attempt against a server of body B, whatever range a 206 carries and whatever the transport and
  the disk do: every state the files pass through has a prefix of the target for a part file, progress is
  that file's size and the total the target's, `dest` changes only on Done, and then it is the target. */
  lemma AttemptSafe(B: Bytes, f: Files, env: Env)
    requires Serves(B, Offset(f, env), env.answer) && (env.answer.status != 206 ==> PartOf(B, f))
    ensures var (w, outcome) := Attempt(World(f, []), env);
      var T := Target(B, f, env);
      && SafeWorld(T, f.dest, w)
      && (outcome == Done ==> w.files == Files(None, Some(T)))
      && (outcome != Done ==> w.files.dest == f.dest)
  {
    ServedIsDelivered(B, f, env);
    DeliveredSafe(Target(B, f, env), f.dest, World(f, []), env);
  }

  // What can be read off a 206: it begins where the request did, and ends where the body does.
  predicate BeginsThere(offset: nat, a: Answer) { a.status == 206 ==> a.range.lo == offset }

  predicate EndsThere(B: Bytes, a: Answer) { a.status == 206 ==> a.range.hi == |B| }

  // What such an answer reaches up to.
  function Reached(B: Bytes, a: Answer): Bytes
    requires a.status == 206 ==> a.range.hi <= |B|
  {
    if a.status == 206 then B[..a.range.hi] else B
  }

  /** The target is the body exactly when the part file is a prefix of it and the 206 begins at its end and
  ends at the body's. */
  lemma TargetIsBodyExactlyWhen(B: Bytes, f: Files, env: Env)
    requires Serves(B, Offset(f, env), env.answer)
    ensures Target(B, f, env) == B <==>
      (env.answer.status == 206 ==>
         f.part.value <= B && BeginsThere(|f.part.value|, env.answer) && EndsThere(B, env.answer))
  {
    if env.answer.status == 206 { SpliceIsBody(B, f.part.value, env.answer.range.lo, env.answer.range.hi); }
  }

  lemma SpliceIsBody(B: Bytes, p: Bytes, lo: nat, hi: nat)
    requires |p| <= lo <= hi <= |B|
    ensures p + B[lo..hi] == B <==> p <= B && lo == |p| && hi == |B|
  {
    var t := p + B[lo..hi];
    assert |t| == |p| + (hi - lo) && t[..|p|] == p;
    if lo == |p| && hi == |B| { assert p <= B ==> B == B[..|p|] + B[|p|..] && B[|p|..] == B[lo..hi]; }
  }

  // A continuation from the part's own end reaches as far as its range.
  lemma TargetReached(B: Bytes, f: Files, env: Env)
    requires Serves(B, Offset(f, env), env.answer) && PartOf(B, f) && BeginsThere(Offset(f, env), env.answer)
    ensures Target(B, f, env) == Reached(B, env.answer) <= B
  {
    if env.answer.status == 206 {
      var p, hi := f.part.value, env.answer.range.hi;
      assert B[..hi] == B[..|p|] + B[|p|..hi];
    }
  }

  /** Beginning there is needed: what a 206 of lo..hi, asked for from the offset, makes of a prefix is a prefix of
  every body exactly when lo is the offset, or nothing is carried. */
  lemma PrefixOfEveryBodyExactlyWhen(offset: nat, lo: nat, hi: nat)
    requires offset <= lo <= hi
    ensures (forall B: Bytes :: hi <= |B| ==> B[..offset] + B[lo..hi] <= B) <==> lo == offset || lo == hi
  {
    if lo == offset || lo == hi {
      forall B: Bytes | hi <= |B| ensures B[..offset] + B[lo..hi] <= B { PrefixKept(B, offset, lo, hi); }
    } else {
      var B: Bytes := seq(hi, i => if i == lo then 1 else 0);
      assert (B[..offset] + B[lo..hi])[offset] == B[lo] != B[offset];
    }
  }

  lemma PrefixKept(B: Bytes, offset: nat, lo: nat, hi: nat)
    requires offset <= lo <= hi <= |B| && (lo == offset || lo == hi)
    ensures B[..offset] + B[lo..hi] <= B
  {
    assert B[..hi] == B[..lo] + B[lo..hi];
  }

  // ---- Runs of attempts, with crashes ----

  // One attempt, left to its end or killed after its first n events.
  datatype Try = Whole(env: Env) | Killed(env: Env, n: nat)

  function After(f: Files, t: Try): Files {
    var w := Attempt(World(f, []), t.env).0;
    if t.Whole? || t.n > |w.log| then w.files
    else if t.n == 0 then f
    else w.log[t.n - 1].files
  }

  function Run(f: Files, tries: seq<Try>): Files {
    if tries == [] then f else After(Run(f, tries[..|tries| - 1]), tries[|tries| - 1])
  }

  ghost predicate ServedBy(B: Bytes, f: Files, tries: seq<Try>) {
    forall i :: 0 <= i < |tries| ==>
      Serves(B, Offset(Run(f, tries[..i]), tries[i].env), tries[i].env.answer)
  }

  // The files while one attempt begins where it was asked to, when it is over and wherever it may be killed.
  lemma EventsSafe(B: Bytes, f: Files, env: Env)
    requires PartOf(B, f) && Serves(B, Offset(f, env), env.answer) && BeginsThere(Offset(f, env), env.answer)
    ensures var w, T := Attempt(World(f, []), env).0, Reached(B, env.answer);
      T <= B && Safe(T, f.dest, w.files) && forall i :: 0 <= i < |w.log| ==> Safe(T, f.dest, w.log[i].files)
  {
    TargetReached(B, f, env);
    AttemptSafe(B, f, env);
    var w := Attempt(World(f, []), env).0;
    forall i | 0 <= i < |w.log| ensures Safe(Reached(B, env.answer), f.dest, w.log[i].files) {
      assert w.log[i] in w.log;
    }
  }

  // Every 206 begins where it was asked to.
  ghost predicate AllBegin(f: Files, tries: seq<Try>) {
    forall i :: 0 <= i < |tries| ==> BeginsThere(Offset(Run(f, tries[..i]), tries[i].env), tries[i].env.answer)
  }

  lemma ServedBefore(B: Bytes, f: Files, tries: seq<Try>, n: nat)
    requires ServedBy(B, f, tries) && n < |tries|
    ensures ServedBy(B, f, tries[..n])
    ensures Serves(B, Offset(Run(f, tries[..n]), tries[n].env), tries[n].env.answer)
  {
    forall i | 0 <= i < n
      ensures Serves(B, Offset(Run(f, tries[..n][..i]), tries[..n][i].env), tries[..n][i].env.answer)
    {
      assert tries[..n][..i] == tries[..i];
    }
  }

  lemma BeginBefore(f: Files, tries: seq<Try>, n: nat)
    requires AllBegin(f, tries) && n < |tries|
    ensures AllBegin(f, tries[..n])
  {
    forall i | 0 <= i < n
      ensures BeginsThere(Offset(Run(f, tries[..n][..i]), tries[..n][i].env), tries[..n][i].env.answer)
    {
      assert tries[..n][..i] == tries[..i];
    }
  }

  // dest is what the answer t publishes.
  predicate PublishedBy(B: Bytes, dest: Option<Bytes>, a: Answer) {
    (a.status == 206 ==> a.range.hi <= |B|) && dest == Some(Reached(B, a))
  }

  /** Over any run of attempts, finished, failed or killed at any event, whose 206 answers begin where they were
  asked to: the part file is absent or a prefix of the body, and the published file is what it was before or
  what one of the answers reached. */
  lemma {:induction false} RunSafe(B: Bytes, f: Files, tries: seq<Try>)
    requires PartOf(B, f) && ServedBy(B, f, tries) && AllBegin(f, tries)
    ensures PartOf(B, Run(f, tries))
    ensures Run(f, tries).dest == f.dest
         || exists i :: 0 <= i < |tries| && PublishedBy(B, Run(f, tries).dest, tries[i].env.answer)
  {
    if tries != [] {
      var n := |tries| - 1;
      ServedBefore(B, f, tries, n);
      BeginBefore(f, tries, n);
      RunSafe(B, f, tries[..n]);
      var g := Run(f, tries[..n]);
      EventsSafe(B, g, tries[n].env);
      if Run(f, tries).dest == g.dest && g.dest != f.dest {
        var i :| 0 <= i < n && PublishedBy(B, g.dest, tries[..n][i].env.answer);
        assert PublishedBy(B, Run(f, tries).dest, tries[i].env.answer);
      }
    }
  }

  /** So it is the body itself if every 206 also ends where the body does. */
  lemma RunPublishesBody(B: Bytes, f: Files, tries: seq<Try>)
    requires PartOf(B, f) && ServedBy(B, f, tries) && AllBegin(f, tries)
    requires forall i :: 0 <= i < |tries| ==> EndsThere(B, tries[i].env.answer)
    ensures PartOf(B, Run(f, tries)) && (Run(f, tries).dest == f.dest || Run(f, tries).dest == Some(B))
  {
    RunSafe(B, f, tries);
    if i :| 0 <= i < |tries| && PublishedBy(B, Run(f, tries).dest, tries[i].env.answer) {
      assert EndsThere(B, tries[i].env.answer);
      assert B[..|B|] == B;
    }
  }

  /** And only then: an attempt of such a run that is left to its end and publishes, publishes the body exactly
  when its answer ends where the body does. */
  lemma RunPublishesBodyExactlyWhen(B: Bytes, f: Files, tries: seq<Try>, n: nat)
    requires PartOf(B, f) && ServedBy(B, f, tries) && AllBegin(f, tries) && n < |tries|
    requires Attempt(World(Run(f, tries[..n]), []), tries[n].env).1 == Done
    ensures After(Run(f, tries[..n]), Whole(tries[n].env)).dest == Some(B) <==> EndsThere(B, tries[n].env.answer)
  {
    ServedBefore(B, f, tries, n);
    BeginBefore(f, tries, n);
    RunSafe(B, f, tries[..n]);
    PublishedIsBodyExactlyWhen(B, Run(f, tries[..n]), tries[n].env);
  }

  // ---- Progress ----

  // Nothing goes wrong, and the server answers in full: a whole body, the rest of it when some is
  // missing, or a 416 when the offset is at or past the end.
  predicate Fair(B: Bytes, offset: nat, env: Env) {
    && !env.cancelled && !env.statFails && !env.openFails && env.writes == []
    && !env.syncFails && !env.renameFails && !env.removeFails
    && Serves(B, offset, env.answer) && BeginsThere(offset, env.answer) && EndsThere(B, env.answer)
    && env.answer.finished
    && (Accepted(env.answer.status) || (env.answer.status == 416 && offset > 0 && offset >= |B|))
  }

  lemma {:induction false} CalmSinkSucceeds(w: World, chunks: seq<Bytes>, written: nat, total: Option<nat>)
    requires w.files.part.Some?
    ensures Sink(w, chunks, written, total, []).1
    ensures Sink(w, chunks, written, total, []).0.files.part.Some?
    decreases |chunks|
  {
    if chunks != [] {
      var w' := WriteAll(w, chunks[0], []).0;
      var now := written + |chunks[0]|;
      CalmSinkSucceeds(World(w'.files, w'.log + [Ticked(w'.files, now, total)]), chunks[1..], now, total);
    }
  }

  lemma FairAttempt(B: Bytes, w: World, env: Env)
    requires Fair(B, Offset(w.files, env), env)
    ensures var (w', outcome) := Attempt(w, env);
      if env.answer.status == 416 then outcome == FetchError && w'.files.part == None
      else outcome == Done
  {
    var a := env.answer;
    if Accepted(a.status) && a.chunks != [] {
      CalmSinkSucceeds(AfterOpen(w, env), a.chunks, Base(w.files, env), Total(w.files, env));
    }
  }

  lemma FairIsDelivered(B: Bytes, offset: nat, env: Env)
    requires Fair(B, offset, env)
    ensures Delivers(B, offset, env.answer)
  {
    if env.answer.status == 206 { assert B[offset..|B|] == B[offset..]; }
  }

  /** From whatever state earlier attempts left, two fair attempts publish the body: the first may
  only fail by finding its offset past the end, and then it has dropped the part file. */
  lemma TwoAttemptsSuffice(B: Bytes, f: Files, env1: Env, env2: Env)
    requires Safe(B, f.dest, f)
    requires Fair(B, Offset(f, env1), env1)
    requires Fair(B, Offset(After(f, Whole(env1)), env2), env2)
    ensures Attempt(World(f, []), env1).1 == Done || Attempt(World(After(f, Whole(env1)), []), env2).1 == Done
    ensures After(f, Whole(env1)).dest == Some(B) || After(After(f, Whole(env1)), Whole(env2)).dest == Some(B)
  {
    FairAttempt(B, World(f, []), env1);
    FairIsDelivered(B, Offset(f, env1), env1);
    DeliveredSafe(B, f.dest, World(f, []), env1);
    var g := After(f, Whole(env1));
    FairAttempt(B, World(g, []), env2);
    FairIsDelivered(B, Offset(g, env2), env2);
    DeliveredSafe(B, f.dest, World(g, []), env2);
  }

  // The part file of one world continues that of another.
  predicate Continues(v: World, w: World) {
    v.files.part.Some? && w.files.part.Some? && v.files.part.value <= w.files.part.value
  }

  lemma {:induction false} WriteAllContinues(w: World, data: Bytes, writes: seq<WriteResult>)
    requires w.files.part.Some?
    ensures Continues(w, WriteAll(w, data, writes).0)
    decreases |writes|
  {
    if data != [] && writes != [] {
      match writes[0]
      case Interrupted => WriteAllContinues(w, data, writes[1..]);
      case Failed =>
      case Wrote(n) =>
        var m := if n < |data| then n else |data|;
        WriteAllContinues(PutPart(w, w.files.part.value + data[..m]), data[m..], writes[1..]);
    }
  }

  lemma {:induction false} SinkContinues(w: World, chunks: seq<Bytes>, written: nat, total: Option<nat>,
                                         writes: seq<WriteResult>)
    requires w.files.part.Some?
    ensures Continues(w, Sink(w, chunks, written, total, writes).0)
    decreases |chunks|
  {
    if chunks != [] {
      WriteAllContinues(w, chunks[0], writes);
      var (w', ok, writes') := WriteAll(w, chunks[0], writes);
      if ok {
        var now := written + |chunks[0]|;
        SinkContinues(World(w'.files, w'.log + [Ticked(w'.files, now, total)]), chunks[1..], now, total, writes');
      }
    }
  }

  /** An attempt that does not publish gives up none of the bytes it set out from: only a full answer
  to the ranged request, or a 416, discards them. True of any server and any faults. */
  lemma KeepsWhatItHas(w: World, env: Env)
    requires Offset(w.files, env) > 0 && Attempt(w, env).1 != Done
    ensures !Continues(w, Attempt(w, env).0) ==>
      (Accepted(env.answer.status) && env.answer.status != 206) || env.answer.status == 416
  {
    var a := env.answer;
    if a.status == 206 && a.chunks != [] && !env.openFails {
      SinkContinues(w, a.chunks, Base(w.files, env), Total(w.files, env), env.writes);
    }
  }

  // ---- What every attempt ends in ----

  // The size already there that the request asks to go on from, and whether the answer goes on from it.
  function Asked(f: Files, env: Env): nat {
    if f.part.Some? && !env.statFails then |f.part.value| else 0
  }

  predicate GoesOn(f: Files, env: Env) { env.answer.status == 206 && Asked(f, env) > 0 }

  // A good status with a body, which has the sink open the file.
  predicate HasBody(env: Env) { 200 <= env.answer.status <= 299 && env.answer.chunks != [] }

  // The write calls meet a failure while some of the chunks, of which `left` bytes of a first one, are unwritten.
  predicate WriteFails(left: nat, chunks: seq<Bytes>, writes: seq<WriteResult>)
    decreases |writes|, |chunks|
  {
    if left == 0 then chunks != [] && WriteFails(|chunks[0]|, chunks[1..], writes)
    else
      && writes != []
      && match writes[0]
         case Interrupted => WriteFails(left, chunks, writes[1..])
         case Failed => true
         case Wrote(n) => WriteFails(if n < left then left - n else 0, chunks, writes[1..])
  }

  // How many of those bytes are written before that, or in all.
  function Written(left: nat, chunks: seq<Bytes>, writes: seq<WriteResult>): nat
    decreases |writes|, |chunks|
  {
    if left == 0 then if chunks == [] then 0 else Written(|chunks[0]|, chunks[1..], writes)
    else if writes == [] then left + |Flat(chunks)|
    else
      match writes[0]
      case Interrupted => Written(left, chunks, writes[1..])
      case Failed => 0
      case Wrote(n) =>
        if n < left then n + Written(left - n, chunks, writes[1..]) else left + Written(0, chunks, writes[1..])
  }

  predicate SinkFails(env: Env) {
    HasBody(env) && (env.openFails || WriteFails(0, env.answer.chunks, env.writes))
  }

  lemma {:induction false} NoFailureNoStop(left: nat, chunks: seq<Bytes>, writes: seq<WriteResult>)
    requires Failed !in writes
    ensures !WriteFails(left, chunks, writes)
    decreases |writes|, |chunks|
  {
    if left == 0 {
      if chunks != [] { NoFailureNoStop(|chunks[0]|, chunks[1..], writes); }
    } else if writes != [] {
      match writes[0]
      case Interrupted => NoFailureNoStop(left, chunks, writes[1..]);
      case Failed =>
      case Wrote(n) => NoFailureNoStop(if n < left then left - n else 0, chunks, writes[1..]);
    }
  }

  lemma {:induction false} NoFailureWritesAll(left: nat, chunks: seq<Bytes>, writes: seq<WriteResult>)
    requires !WriteFails(left, chunks, writes)
    ensures Written(left, chunks, writes) == left + |Flat(chunks)|
    decreases |writes|, |chunks|
  {
    if left == 0 {
      if chunks != [] { NoFailureWritesAll(|chunks[0]|, chunks[1..], writes); }
    } else if writes != [] {
      match writes[0]
      case Interrupted => NoFailureWritesAll(left, chunks, writes[1..]);
      case Failed =>
      case Wrote(n) => NoFailureWritesAll(if n < left then left - n else 0, chunks, writes[1..]);
    }
  }

  // The write calls one chunk takes, left for those after it.
  lemma {:induction false} ChunkWrites(w: World, data: Bytes, writes: seq<WriteResult>, chunks: seq<Bytes>)
    requires w.files.part.Some?
    ensures var (w', ok, writes') := WriteAll(w, data, writes);
      && w'.files.part.Some? && w'.files.dest == w.files.dest
      && WriteFails(|data|, chunks, writes) == (!ok || WriteFails(0, chunks, writes'))
      && (if ok then Written(|data|, chunks, writes) == |data| + Written(0, chunks, writes')
          else Written(|data|, chunks, writes) < |data|)
      && Stores(w.files.part.value, data, if ok then |data| else Written(|data|, chunks, writes), w'.files)
    decreases |writes|
  {
    var p := w.files.part.value;
    if data == [] {
      assert p + data == p;
    } else if writes == [] {
      assert data[..|data|] == data;
      NoFailureNoStop(|data|, chunks, []);
      NoFailureNoStop(0, chunks, []);
      NoFailureWritesAll(0, chunks, []);
    } else {
      match writes[0]
      case Interrupted => ChunkWrites(w, data, writes[1..], chunks);
      case Failed =>
        assert data[..0] == [] && p + [] == p;
      case Wrote(n) =>
        var m := if n < |data| then n else |data|;
        var next := PutPart(w, p + data[..m]);
        ChunkWrites(next, data[m..], writes[1..], chunks);
        var (last, ok, writes') := WriteAll(next, data[m..], writes[1..]);
        assert data == data[..m] + data[m..];
        StoresAfter(p, data[..m], data[m..],
                    if ok then |data| - m else Written(|data| - m, chunks, writes[1..]), last.files);
    }
  }

  // The progress reports in a log.
  function Ticks(log: seq<Event>): seq<(nat, Option<nat>)> {
    if log == [] then []
    else
      var before, e := Ticks(log[..|log| - 1]), log[|log| - 1];
      if e.Ticked? then before + [(e.bytes, e.total)] else before
  }

  // One for each of these chunks: the bytes up to its end, counted from the size resumed from.
  function TicksOf(base: nat, chunks: seq<Bytes>, total: Option<nat>): seq<(nat, Option<nat>)>
    decreases |chunks|
  {
    if chunks == [] then []
    else [(base + |chunks[0]|, total)] + TicksOf(base + |chunks[0]|, chunks[1..], total)
  }

  lemma TicksSnoc(log: seq<Event>, e: Event)
    ensures Ticks(log + [e]) == Ticks(log) + if e.Ticked? then [(e.bytes, e.total)] else []
  {
    assert (log + [e])[..|log|] == log;
  }

  lemma {:induction false} WritesTickNot(w: World, data: Bytes, writes: seq<WriteResult>)
    requires w.files.part.Some?
    ensures Ticks(WriteAll(w, data, writes).0.log) == Ticks(w.log)
    decreases |writes|
  {
    if data != [] {
      if writes == [] {
        TicksSnoc(w.log, Changed(w.files.(part := Some(w.files.part.value + data))));
      } else {
        match writes[0]
        case Interrupted => WritesTickNot(w, data, writes[1..]);
        case Failed =>
        case Wrote(n) =>
          var m := if n < |data| then n else |data|;
          TicksSnoc(w.log, Changed(w.files.(part := Some(w.files.part.value + data[..m]))));
          WritesTickNot(PutPart(w, w.files.part.value + data[..m]), data[m..], writes[1..]);
      }
    }
  }

  // The first n bytes of the body have been stored, after what the file was begun from.
  predicate Stores(begun: Bytes, body: Bytes, n: nat, f: Files) {
    n <= |body| && f.part == Some(begun + body[..n])
  }

  lemma StoresAfter(p: Bytes, data: Bytes, rest: Bytes, n: nat, f: Files)
    requires Stores(p + data, rest, n, f)
    ensures Stores(p, data + rest, |data| + n, f)
  {
    assert (data + rest)[..|data| + n] == data + rest[..n];
    assert (p + data) + rest[..n] == p + (data + rest[..n]);
  }

  lemma StoresWithin(p: Bytes, data: Bytes, rest: Bytes, n: nat, f: Files)
    requires Stores(p, data, n, f)
    ensures Stores(p, data + rest, n, f)
  {
    assert (data + rest)[..n] == data[..n];
  }

  // The sink fails exactly when a write it needs does.
  lemma {:induction false} SinkStores(w: World, chunks: seq<Bytes>, written: nat, total: Option<nat>,
                                      writes: seq<WriteResult>)
    requires w.files.part.Some?
    ensures var (w', ok) := Sink(w, chunks, written, total, writes);
      && ok == !WriteFails(0, chunks, writes) && w'.files.dest == w.files.dest
      && (ok ==> Written(0, chunks, writes) == |Flat(chunks)|)
      && Stores(w.files.part.value, Flat(chunks), Written(0, chunks, writes), w'.files)
    decreases |chunks|
  {
    var p := w.files.part.value;
    if chunks == [] {
      assert p + Flat(chunks)[..0] == p;
      return;
    }
    ChunkWrites(w, chunks[0], writes, chunks[1..]);
    var (w', ok, writes') := WriteAll(w, chunks[0], writes);
    if !ok {
      StoresWithin(p, chunks[0], Flat(chunks[1..]), Written(0, chunks, writes), w'.files);
      return;
    }
    var now := written + |chunks[0]|;
    var w'' := World(w'.files, w'.log + [Ticked(w'.files, now, total)]);
    SinkStores(w'', chunks[1..], now, total, writes');
    assert chunks[0][..|chunks[0]|] == chunks[0];
    StoresAfter(p, chunks[0], Flat(chunks[1..]), Written(0, chunks[1..], writes'),
                Sink(w'', chunks[1..], now, total, writes').0.files);
  }

  // How many whole chunks the first n bytes hold.
  function WholeChunks(chunks: seq<Bytes>, n: nat): (k: nat)
    ensures k <= |chunks|
  {
    if chunks == [] || n < |chunks[0]| then 0 else 1 + WholeChunks(chunks[1..], n - |chunks[0]|)
  }

  lemma {:induction false} AllChunks(chunks: seq<Bytes>)
    ensures WholeChunks(chunks, |Flat(chunks)|) == |chunks|
  {
    if chunks != [] { AllChunks(chunks[1..]); }
  }

  // The chunks stored whole.
  function StoredWhole(chunks: seq<Bytes>, writes: seq<WriteResult>): seq<Bytes> {
    chunks[..WholeChunks(chunks, Written(0, chunks, writes))]
  }

  // Each chunk stored whole has been reported.
  lemma {:induction false} SinkTicks(w: World, chunks: seq<Bytes>, written: nat, total: Option<nat>,
                                     writes: seq<WriteResult>)
    requires w.files.part.Some?
    ensures Ticks(Sink(w, chunks, written, total, writes).0.log)
         == Ticks(w.log) + TicksOf(written, StoredWhole(chunks, writes), total)
    decreases |chunks|
  {
    if chunks == [] { return; }
    WritesTickNot(w, chunks[0], writes);
    WriteAllKeepsPart(w, chunks[0], writes);
    var (w', ok, writes') := WriteAll(w, chunks[0], writes);
    var now := written + |chunks[0]|;
    FirstStored(w, chunks, writes);
    if ok {
      var tick := Ticked(w'.files, now, total);
      TicksSnoc(w'.log, tick);
      SinkTicks(World(w'.files, w'.log + [tick]), chunks[1..], now, total, writes');
      TicksCons(written, chunks[0], StoredWhole(chunks[1..], writes'), total);
      TicksRegrouped(Ticks(w.log), (now, total), TicksOf(now, StoredWhole(chunks[1..], writes'), total));
    }
  }

  lemma FirstStored(w: World, chunks: seq<Bytes>, writes: seq<WriteResult>)
    requires w.files.part.Some? && chunks != []
    ensures var (w', ok, writes') := WriteAll(w, chunks[0], writes);
      StoredWhole(chunks, writes) == if ok then [chunks[0]] + StoredWhole(chunks[1..], writes') else []
  {
    ChunkWrites(w, chunks[0], writes, chunks[1..]);
    var (w', ok, writes') := WriteAll(w, chunks[0], writes);
    if ok {
      var k := WholeChunks(chunks[1..], Written(0, chunks[1..], writes'));
      assert chunks[..k + 1] == [chunks[0]] + chunks[1..][..k];
    }
  }

  lemma TicksCons(written: nat, chunk: Bytes, rest: seq<Bytes>, total: Option<nat>)
    ensures TicksOf(written, [chunk] + rest, total)
         == [(written + |chunk|, total)] + TicksOf(written + |chunk|, rest, total)
  {
    assert ([chunk] + rest)[1..] == rest;
  }

  lemma TicksRegrouped<T>(a: seq<T>, t: T, b: seq<T>)
    ensures (a + [t]) + b == a + ([t] + b)
  {
  }

  // Publishing fails: the file is to be made or opened and cannot be, cannot be synced, or cannot be renamed, or there
  // is none.
  predicate PublishFails(f: Files, env: Env) {
    var opens := env.answer.chunks != [] || env.answer.status != 206;
    || (env.answer.chunks == [] && opens && env.openFails)
    || (opens && env.syncFails) || env.renameFails || (!opens && f.part == None)
  }

  // What the part file is begun from: itself when the answer goes on from it, else nothing.
  function BegunFrom(f: Files, env: Env): Bytes { if GoesOn(f, env) then f.part.value else [] }

  function AnnouncedTotal(f: Files, env: Env): Option<nat> {
    if env.answer.length.Some? then Some(env.answer.length.value + |BegunFrom(f, env)|) else None
  }

  function Reported(env: Env): seq<Bytes> {
    if HasBody(env) && !env.openFails then StoredWhole(env.answer.chunks, env.writes) else []
  }

  lemma BodyReceived(w: World, env: Env)
    requires HasBody(env) && !env.openFails
    ensures var (w', began, ok) := Transfer(w, env);
      var a, begun := env.answer, BegunFrom(w.files, env);
      && began && ok == !SinkFails(env) && w'.files.dest == w.files.dest
      && Stores(begun, Flat(a.chunks), Written(0, a.chunks, env.writes), w'.files)
      && (ok ==> w'.files.part == Some(begun + Flat(a.chunks)))
      && Ticks(w'.log) == Ticks(w.log) + TicksOf(|begun|, Reported(env), AnnouncedTotal(w.files, env))
  {
    TicksSnoc(w.log, Changed(w.files.(part := Some([]))));
    SinkStores(AfterOpen(w, env), env.answer.chunks, Base(w.files, env), Total(w.files, env), env.writes);
    assert Flat(env.answer.chunks)[..|Flat(env.answer.chunks)|] == Flat(env.answer.chunks);
    SinkTicks(AfterOpen(w, env), env.answer.chunks, Base(w.files, env), Total(w.files, env), env.writes);
  }

  lemma NothingReceived(w: World, env: Env)
    requires !HasBody(env) || env.openFails
    ensures Transfer(w, env) == (w, false, !SinkFails(env))
  {}

  predicate Good(env: Env) { env.answer.finished && 200 <= env.answer.status <= 299 }

  /** How every attempt ends, whatever the world and whatever happens: an I/O error when the sink fails; else Cancelled
  exactly when the flag is set; else a fetch error exactly when the transfer did not finish or the status is not
  2xx; else an I/O error exactly when publishing fails; else Done. Only Done touches `dest`. */
  lemma AttemptEnds(w: World, env: Env)
    ensures var (w', o) := Attempt(w, env);
      && (o == Cancelled <==> !SinkFails(env) && env.cancelled)
      && (o == FetchError <==> !SinkFails(env) && !env.cancelled && !Good(env))
      && (o == IoError <==> SinkFails(env) || (!env.cancelled && Good(env) && PublishFails(w.files, env)))
      && (o == Done <==> !SinkFails(env) && !env.cancelled && Good(env) && !PublishFails(w.files, env))
      && (o != Done ==> w'.files.dest == w.files.dest)
  {
    if HasBody(env) && !env.openFails { BodyReceived(w, env); } else { NothingReceived(w, env); }
  }

  // A good answer without a body has the file made or emptied.
  predicate Makes(env: Env) { !HasBody(env) && Good(env) && env.answer.status != 206 && !env.openFails }

  // The part file as it stands when the sink has not failed.
  function Stored(f: Files, env: Env): Option<Bytes> {
    if HasBody(env) then Some(BegunFrom(f, env) + Flat(env.answer.chunks)) else f.part
  }

  /** And what files it leaves: the part file as it was, grown by what was stored, emptied for a good answer without a
  body, dropped after a 416 to a request that went on, or moved to `dest`. */
  lemma AttemptLeaves(w: World, env: Env)
    ensures var (w', o) := Attempt(w, env);
      var a, begun := env.answer, BegunFrom(w.files, env);
      if o == Done then w'.files == Files(None, if Makes(env) then Some([]) else Stored(w.files, env))
      else if HasBody(env) && env.openFails then w'.files == w.files
      else if SinkFails(env) then
        Stores(begun, Flat(a.chunks), Written(0, a.chunks, env.writes), w'.files)
      else if a.status == 416 && a.finished && Asked(w.files, env) > 0 && !env.cancelled && !env.removeFails then
        w'.files.part == None
      else w'.files.part == if Makes(env) && !env.cancelled then Some([]) else Stored(w.files, env)
  {
    if HasBody(env) && !env.openFails { BodyReceived(w, env); } else { NothingReceived(w, env); }
  }

  /** Progress: one report for each chunk stored whole, of the size reached, and of the announced length added to the
  size resumed from if a length was announced. All are, unless the sink fails. */
  lemma AttemptReports(w: World, env: Env)
    ensures Ticks(Attempt(w, env).0.log)
         == Ticks(w.log) + TicksOf(|BegunFrom(w.files, env)|, Reported(env), AnnouncedTotal(w.files, env))
    ensures HasBody(env) && !SinkFails(env) ==> Reported(env) == env.answer.chunks
  {
    if HasBody(env) && !env.openFails { BodyReceived(w, env); } else { NothingReceived(w, env); }
    EndingTicksNot(Transfer(w, env).0, Offset(w.files, env), Transfer(w, env).1, env);
    if HasBody(env) && !SinkFails(env) { AllReported(env); }
  }

  lemma AllReported(env: Env)
    requires HasBody(env) && !SinkFails(env)
    ensures Reported(env) == env.answer.chunks
  {
    NoFailureWritesAll(0, env.answer.chunks, env.writes);
    AllChunks(env.answer.chunks);
  }

  lemma EndingTicksNot(w: World, offset: nat, began: bool, env: Env)
    ensures Ticks(Ending(w, offset, began, env).0.log) == Ticks(w.log)
  {
    var emptied := PutPart(w, []);
    TicksSnoc(w.log, Changed(w.files.(part := None)));
    TicksSnoc(w.log, Changed(w.files.(part := Some([]))));
    TicksSnoc(w.log, Changed(Files(None, w.files.part)));
    TicksSnoc(emptied.log, Changed(Files(None, emptied.files.part)));
  }

  // ---- What is published ----

  /** Whatever part file an attempt finds, of this body or another, what it publishes is the server's present
  body exactly when the answer was not a continuation, or the part file is a prefix of that body and the
  answer begins at its end and ends at the body's: the program checks no entity tag, no date and no
  Content-Range. */
  lemma PublishedIsBodyExactlyWhen(B: Bytes, f: Files, env: Env)
    requires Serves(B, Offset(f, env), env.answer) && Attempt(World(f, []), env).1 == Done
    ensures After(f, Whole(env)).dest == Some(B) <==>
      (env.answer.status == 206 ==>
         f.part.value <= B && BeginsThere(|f.part.value|, env.answer) && EndsThere(B, env.answer))
  {
    PublishesTarget(B, f, env);
    TargetIsBodyExactlyWhen(B, f, env);
  }

  lemma PublishesTarget(B: Bytes, f: Files, env: Env)
    requires Serves(B, Offset(f, env), env.answer) && Attempt(World(f, []), env).1 == Done
    ensures After(f, Whole(env)).dest == Some(Target(B, f, env))
  {
    if env.answer.status == 206 {
      AttemptSafe(B, f, env);
    } else {
      FreshStart(f, env);
      AttemptSafe(B, Files(None, f.dest), env);
    }
  }

  // A full answer does not depend on the old part file.
  lemma FreshStart(f: Files, env: Env)
    requires env.answer.status != 206 && Attempt(World(f, []), env).1 == Done
    ensures Attempt(World(f, []), env) == Attempt(World(Files(None, f.dest), []), env)
  {
    var w, v := World(f, []), World(Files(None, f.dest), []);
    assert PutPart(w, []) == PutPart(v, []);
    assert env.answer.chunks != [] ==> Transfer(w, env) == Transfer(v, env);
  }

  // A 206 sent in one chunk, and nothing goes wrong.
  function Continuation(lo: nat, rest: Bytes): Env {
    Env(Answer(206, Some(|rest|), Range(lo, lo + |rest|), [rest], true), false, false, false, [], false, false, false)
  }

  /** Any range past the part file is appended to it and published. */
  lemma ContinuationDone(B: Bytes, f: Files, lo: nat, hi: nat)
    requires f.part.Some? && 0 < |f.part.value| <= lo < hi <= |B|
    ensures var env := Continuation(lo, B[lo..hi]);
      && Serves(B, Offset(f, env), env.answer)
      && Attempt(World(f, []), env).1 == Done
      && After(f, Whole(env)).dest == Some(f.part.value + B[lo..hi])
  {
    var rest := B[lo..hi];
    var env := Continuation(lo, rest);
    assert Flat(env.answer.chunks) == rest + Flat([]) == rest;
    CalmAttempt(World(f, []), env);
    PublishesTarget(B, f, env);
  }

  lemma CalmAttempt(w: World, env: Env)
    requires Accepted(env.answer.status) && env.answer.chunks != [] && env.answer.finished && env.writes == []
    requires !env.cancelled && !env.openFails && !env.syncFails && !env.renameFails
    ensures Attempt(w, env).1 == Done
  {
    CalmSinkSucceeds(AfterOpen(w, env), env.answer.chunks, Base(w.files, env), Total(w.files, env));
  }

  /** A part file [1] begun before the body became [2, 3]: the answer continues it, and [1, 3] is published. */
  lemma ChangedBodySpliced()
    ensures var f, env := Files(Some([1]), None), Continuation(1, [3]);
      && Serves([2, 3], Offset(f, env), env.answer)
      && Attempt(World(f, []), env).1 == Done
      && After(f, Whole(env)).dest == Some([1, 3])
  {
    var f := Files(Some([1]), None);
    var B: Bytes := [2, 3];
    ContinuationDone(B, f, 1, 2);
    assert B[1..2] == [3];
    assert [1 as bv8] + B[1..2] == [1, 3];
  }

  /** A part file [1] of the body [1, 2, 3] itself: a 206 that carries only [2] ends well, and [1, 2] is
  published. */
  lemma ShortRangePublished()
    ensures var f, env := Files(Some([1]), None), Continuation(1, [2]);
      && Serves([1, 2, 3], Offset(f, env), env.answer)
      && Attempt(World(f, []), env).1 == Done
      && After(f, Whole(env)).dest == Some([1, 2])
  {
    var f := Files(Some([1]), None);
    var B: Bytes := [1, 2, 3];
    ContinuationDone(B, f, 1, 2);
    assert B[1..2] == [2];
    assert [1 as bv8] + B[1..2] == [1, 2];
  }
}
