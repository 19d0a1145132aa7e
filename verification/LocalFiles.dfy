/** Where a downloaded episode lands and how it is found again (src/download.cpp). */
module LocalFiles {
  import opened Numerals
  import opened Text

  // ---- Names ----

  function Unslashed(s: string): string {
    seq(|s|, i requires 0 <= i < |s| => if s[i] == '/' || s[i] == '\\' then '_' else s[i])
  }

  // safe_episode_component, on the label after strip_controls.
  function Component(stripped: string): string {
    var s := Unslashed(stripped);
    if s == "" || s == "." || s == ".." then "ep" else s
  }

  /** Always one path component: not empty, not the directory itself or its parent, no separator. */
  lemma ComponentIsOne(stripped: string)
    ensures var c := Component(stripped);
      c != "" && c != "." && c != ".." && '/' !in c && '\\' !in c
  {
    var c := Component(stripped);
    if c == "ep" {
      assert forall i :: 0 <= i < |c| ==> c[i] == 'e' || c[i] == 'p';
    }
  }

  // What is written as an underscore, or is one.
  predicate Underscored(c: char) { c == '/' || c == '\\' || c == '_' }

  // What is written as ep, or is that.
  predicate Bare(s: string) { s == "" || s == "." || s == ".." || s == "ep" }

  predicate SameButSlashes(a: string, b: string) {
    |a| == |b| && forall i :: 0 <= i < |a| ==> a[i] == b[i] || (Underscored(a[i]) && Underscored(b[i]))
  }

  lemma UnslashedAlike(a: string, b: string)
    ensures Unslashed(a) == Unslashed(b) <==> SameButSlashes(a, b)
  {
    if Unslashed(a) == Unslashed(b) {
      assert |Unslashed(a)| == |a| && |Unslashed(b)| == |b|;
      forall i | 0 <= i < |a| ensures a[i] == b[i] || (Underscored(a[i]) && Underscored(b[i])) {
        assert Unslashed(a)[i] == Unslashed(b)[i];
      }
    }
  }

  lemma UnslashedBare(s: string)
    ensures Bare(Unslashed(s)) <==> Bare(s)
  {
    var u := Unslashed(s);
    assert |u| == |s|;
    if Bare(u) {
      forall i | 0 <= i < |s| ensures u[i] == s[i] { assert u[i] == '.' || u[i] == 'e' || u[i] == 'p'; }
      assert u == s;
    }
    if Bare(s) { assert u == s; }
  }

  /** Two labels share a file name exactly when they differ at most in where one has a slash, a backslash or an
  underscore and the other another of them, or each is empty, a dot, two dots or ep. */
  lemma SameComponentExactlyWhen(a: string, b: string)
    ensures Component(a) == Component(b) <==> SameButSlashes(a, b) || (Bare(a) && Bare(b))
  {
    UnslashedAlike(a, b);
    UnslashedBare(a);
    UnslashedBare(b);
  }

  lemma SlashSharesAFile()
    ensures Component("a/b") == Component("a_b")
  {
    SameComponentExactlyWhen("a/b", "a_b");
  }

  /** A label that is one component already, and no other, is its own. */
  lemma ComponentKeeps(stripped: string)
    ensures Component(stripped) == stripped <==>
      stripped != "" && stripped != "." && stripped != ".." && '/' !in stripped && '\\' !in stripped
  {
    ComponentIsOne(stripped);
    if '/' !in stripped && '\\' !in stripped { assert Unslashed(stripped) == stripped; }
  }

  function RFind(s: string, c: char, n: nat): (r: Option<nat>)
    requires n <= |s|
    ensures r.Some? ==> r.value < n && s[r.value] == c
  {
    if n == 0 then None else if s[n - 1] == c then Some(n - 1) else RFind(s, c, n - 1)
  }

  function PathEnd(url: string, i: nat): (end: nat)
    requires i <= |url|
    ensures i <= end <= |url|
    decreases |url| - i
  {
    if i == |url| || url[i] == '?' || url[i] == '#' then i else PathEnd(url, i + 1)
  }

  predicate Alnum(c: char) { 'a' <= c <= 'z' || '0' <= c <= '9' }

  // dest_extension; `hls` is classify_link's answer.
  function Extension(url: string, hls: bool): string {
    var path := url[..PathEnd(url, 0)];
    var dot, slash := RFind(path, '.', |path|), RFind(path, '/', |path|);
    if hls || dot == None || (slash.Some? && dot.value < slash.value) then "mp4"
    else
      var ext := Lower(path[dot.value + 1..]);
      if ext == "" || |ext| > 5 || exists i :: 0 <= i < |ext| && !Alnum(ext[i]) then "mp4" else ext
  }

  lemma ExtensionSane(url: string, hls: bool)
    ensures var e := Extension(url, hls); 1 <= |e| <= 5 && forall i :: 0 <= i < |e| ==> Alnum(e[i])
  {
  }

  // A direct link with this extension: before its first ? or #, one to five ASCII letters or digits after its
  // last dot, in any letter case, and no slash among them.
  ghost predicate Shows(url: string, before: string, tail: string, rest: string, ext: string) {
    && url == (before + "." + tail) + rest && '?' !in before && '#' !in before
    && (rest != "" ==> rest[0] == '?' || rest[0] == '#')
    && 1 <= |tail| <= 5 && (forall i :: 0 <= i < |tail| ==> Plain(tail[i])) && Folds(tail, ext)
    && forall i :: 0 <= i < |ext| ==> !('A' <= ext[i] <= 'Z')
  }

  predicate Plain(c: char) { 'a' <= c <= 'z' || 'A' <= c <= 'Z' || '0' <= c <= '9' }

  lemma {:induction false} PathEndIs(url: string, i: nat, end: nat)
    requires i <= end <= |url| && (end < |url| ==> url[end] == '?' || url[end] == '#')
    requires forall k :: i <= k < end ==> url[k] != '?' && url[k] != '#'
    ensures PathEnd(url, i) == end
    decreases end - i
  {
    if i < end { PathEndIs(url, i + 1, end); }
  }

  lemma {:induction false} PathEndFirst(url: string, i: nat)
    requires i <= |url|
    ensures var end := PathEnd(url, i);
      && (end < |url| ==> url[end] == '?' || url[end] == '#')
      && forall k :: i <= k < end ==> url[k] != '?' && url[k] != '#'
    decreases |url| - i
  {
    if i < |url| && url[i] != '?' && url[i] != '#' { PathEndFirst(url, i + 1); }
  }

  lemma LowerPlain(tail: string)
    ensures (forall i :: 0 <= i < |tail| ==> Plain(tail[i])) <==> forall i :: 0 <= i < |tail| ==> Alnum(Lower(tail)[i])
  {
    assert forall i :: 0 <= i < |tail| ==> Lower(tail)[i] == LowerChar(tail[i]);
  }

  lemma ShownExtension(url: string, before: string, tail: string, rest: string, ext: string)
    requires Shows(url, before, tail, rest, ext)
    ensures Extension(url, false) == ext
  {
    var path := before + "." + tail;
    var n := |path|;
    forall k | 0 <= k < n ensures url[k] != '?' && url[k] != '#' {
      assert url[k] == path[k];
      if k > |before| { assert path[k] == tail[k - |before| - 1]; }
    }
    PathEndIs(url, 0, n);
    assert url[..n] == path;
    forall k | |before| < k < n ensures path[k] != '.' && path[k] != '/' { assert path[k] == tail[k - |before| - 1]; }
    RFindIs(path, '.', |before|, n);
    assert path[|before| + 1..] == tail;
    FoldsIs(tail, ext);
    LowerPlain(tail);
  }

  ghost predicate ShowsExtension(url: string, ext: string) {
    exists before, tail, rest :: Shows(url, before, tail, rest, ext)
  }

  lemma PathBefore(url: string)
    ensures var end := PathEnd(url, 0);
      && '?' !in url[..end] && '#' !in url[..end] && url == url[..end] + url[end..]
      && (url[end..] != "" ==> url[end..][0] == '?' || url[end..][0] == '#')
  {
    PathEndFirst(url, 0);
  }

  lemma PathShows(url: string, path: string, rest: string, dot: nat, ext: string)
    requires url == path + rest && '?' !in path && '#' !in path && (rest != "" ==> rest[0] == '?' || rest[0] == '#')
    requires dot < |path| && path[dot] == '.' && ext == Lower(path[dot + 1..])
    requires 1 <= |ext| <= 5 && forall i :: 0 <= i < |ext| ==> Alnum(ext[i])
    ensures ShowsExtension(url, ext)
  {
    var before, tail := path[..dot], path[dot + 1..];
    assert path == before + "." + tail;
    LowerPlain(tail);
    FoldsIs(tail, ext);
    assert Shows(url, before, tail, rest, ext);
  }

  lemma ExtensionOfPath(url: string, path: string, ext: string)
    requires path == url[..PathEnd(url, 0)] && ext == Extension(url, false) && ext != "mp4"
    ensures var dot := RFind(path, '.', |path|);
      dot.Some? && ext == Lower(path[dot.value + 1..])
  {
  }

  lemma ExtensionShown(url: string, path: string, rest: string, ext: string)
    requires path == url[..PathEnd(url, 0)] && rest == url[PathEnd(url, 0)..]
    requires ext == Extension(url, false) && ext != "mp4"
    ensures ShowsExtension(url, ext)
  {
    PathBefore(url);
    ExtensionOfPath(url, path, ext);
    ExtensionSane(url, false);
    PathShows(url, path, rest, RFind(path, '.', |path|).value, ext);
  }

  lemma ShownIsExtension(url: string, ext: string)
    requires ShowsExtension(url, ext)
    ensures Extension(url, false) == ext
  {
    var before, tail, rest :| Shows(url, before, tail, rest, ext);
    ShownExtension(url, before, tail, rest, ext);
  }

  /** The extension is the one the link shows, in lower case; mp4 where it shows none, or is HLS. */
  lemma ExtensionExactly(url: string, hls: bool, ext: string)
    ensures Extension(url, hls) == ext <==>
      if !hls && exists e :: ShowsExtension(url, e) then ShowsExtension(url, ext) else ext == "mp4"
  {
    if !hls {
      forall e | ShowsExtension(url, e) ensures Extension(url, false) == e { ShownIsExtension(url, e); }
      var shown := Extension(url, false);
      if shown != "mp4" { ExtensionShown(url, url[..PathEnd(url, 0)], url[PathEnd(url, 0)..], shown); }
    }
  }

  function FileName(stem: string, ext: string): string { stem + "." + ext }

  // ---- The scan ----

  datatype DirEntry = DirEntry(name: string, regular: bool)

  predicate Matches(name: string, stem: string) {
    && |name| > |stem| + 1
    && name[..|stem|] == stem && name[|stem|] == '.'
    && name[|stem| + 1..] != "part" && '.' !in name[|stem| + 1..]
  }

  predicate Answers(e: DirEntry, stem: string) { e.regular && Matches(e.name, stem) }

  /** A file is found for a label exactly when it was written for that label's component, and its
  extension is not the one kept for transfers in flight: labels with dots in them are told apart. */
  lemma FoundExactlyFor(a: string, b: string, ext: string)
    requires ext != "" && '.' !in ext
    ensures Matches(FileName(a, ext), b) <==> a == b && ext != "part"
  {
    var name := FileName(a, ext);
    assert name[..|a|] == a && name[|a|] == '.' && name[|a| + 1..] == ext;
    if |b| < |a| {
      assert name[|b| + 1..][|a| - |b| - 1] == '.';
    } else if |a| < |b| < |name| {
      assert name[|b|] == ext[|b| - |a| - 1];
    }
  }

  ghost predicate NamedFor(name: string, stem: string) {
    exists ext :: ext != "" && '.' !in ext && ext != "part" && name == stem + ("." + ext)
  }

  /** An entry answers exactly when it is a regular file of such a name. */
  lemma AnswersExactlyWhen(e: DirEntry, stem: string)
    ensures Answers(e, stem) <==> e.regular && NamedFor(e.name, stem)
  {
    if Matches(e.name, stem) {
      var ext := e.name[|stem| + 1..];
      assert e.name == stem + ("." + ext);
    }
    if NamedFor(e.name, stem) {
      var ext :| ext != "" && '.' !in ext && ext != "part" && e.name == stem + ("." + ext);
      FoundExactlyFor(stem, stem, ext);
      assert e.name == FileName(stem, ext);
    }
  }

  /** A transfer in flight, or one that was killed, is found for no label. */
  lemma InFlightNeverFound(name: string, stem: string)
    ensures !Matches(name + ".part", stem)
  {
    FoundExactlyFor(name, stem, "part");
    assert name + ".part" == FileName(name, "part");
  }

  // What can be read off a link: it is no HLS one, and before its first ? or # it ends in .part, in any
  // letter case.
  predicate PartLink(url: string, hls: bool) {
    var path := url[..PathEnd(url, 0)];
    !hls && |path| >= 5 && Lower(path[|path| - 5..]) == ".part"
  }

  lemma {:induction false} RFindIs(s: string, c: char, at: nat, n: nat)
    requires at < n <= |s| && s[at] == c && forall k :: at < k < n ==> s[k] != c
    ensures RFind(s, c, n) == Some(at)
  {
    if at < n - 1 { RFindIs(s, c, at, n - 1); }
  }

  lemma {:induction false} RFindLast(s: string, c: char, n: nat)
    requires n <= |s|
    ensures RFind(s, c, n).Some? ==> forall k :: RFind(s, c, n).value < k < n ==> s[k] != c
  {
    if n > 0 && s[n - 1] != c { RFindLast(s, c, n - 1); }
  }

  lemma PartTail(path: string)
    requires |path| >= 5
    ensures Lower(path[|path| - 5..]) == ".part" <==>
      path[|path| - 5] == '.' && Lower(path[|path| - 4..]) == "part"
  {
    var t := path[|path| - 5..];
    assert t == [path[|path| - 5]] + path[|path| - 4..];
    assert Lower(t) == [LowerChar(path[|path| - 5])] + Lower(path[|path| - 4..]);
    assert ".part" == ['.'] + "part";
    assert Lower(t)[1..] == Lower(path[|path| - 4..]) && ".part"[1..] == "part";
  }

  // The last four characters of such a path: no dot and no slash.
  lemma PartLetters(t: string)
    requires Lower(t) == "part"
    ensures |t| == 4 && '.' !in t && '/' !in t
  {
    assert |Lower(t)| == 4;
    forall k | 0 <= k < |t| ensures t[k] != '.' && t[k] != '/' { assert Lower(t)[k] == LowerChar(t[k]); }
  }

  lemma PartPathHasPart(path: string)
    requires |path| >= 5 && path[|path| - 5] == '.' && Lower(path[|path| - 4..]) == "part"
    ensures RFind(path, '.', |path|) == Some(|path| - 5)
    ensures var slash := RFind(path, '/', |path|); slash.Some? ==> slash.value < |path| - 5
  {
    var n := |path|;
    PartLetters(path[n - 4..]);
    forall k | n - 5 < k < n ensures path[k] != '.' && path[k] != '/' { assert path[k] == path[n - 4..][k - (n - 4)]; }
    RFindIs(path, '.', n - 5, n);
  }

  lemma PartLinkHasPart(url: string, hls: bool)
    requires PartLink(url, hls)
    ensures Extension(url, hls) == "part"
  {
    var path := url[..PathEnd(url, 0)];
    var n := |path|;
    PartTail(path);
    PartPathHasPart(path);
    assert path[n - 5 + 1..] == path[n - 4..];
    assert forall i :: 0 <= i < |"part"| ==> Alnum("part"[i]);
  }

  lemma PartHasPartLink(url: string, hls: bool)
    requires Extension(url, hls) == "part"
    ensures PartLink(url, hls)
  {
    var path := url[..PathEnd(url, 0)];
    assert "mp4"[0] != "part"[0];
    var t := path[RFind(path, '.', |path|).value + 1..];
    PartLetters(t);
    assert t == path[|path| - 4..];
    PartTail(path);
  }

  /** The extension is part exactly for such a link. */
  lemma PartExtensionExactlyWhen(url: string, hls: bool)
    ensures Extension(url, hls) == "part" <==> PartLink(url, hls)
  {
    if PartLink(url, hls) { PartLinkHasPart(url, hls); }
    if Extension(url, hls) == "part" { PartHasPartLink(url, hls); }
  }

  /** What a finished download wrote is found again, and for its own component only, exactly when its
  link does not end in .part: the extension rule lets that one through, and the scan keeps it for
  transfers in flight. */
  lemma DownloadFoundExactlyWhen(stripped: string, other: string, url: string, hls: bool)
    ensures Matches(FileName(Component(stripped), Extension(url, hls)), Component(other)) <==>
      Component(stripped) == Component(other) && !PartLink(url, hls)
  {
    ExtensionSane(url, hls);
    PartExtensionExactlyWhen(url, hls);
    var e := Extension(url, hls);
    assert forall i :: 0 <= i < |e| ==> e[i] != '.';
    FoundExactlyFor(Component(stripped), Component(other), e);
  }

  lemma {:induction false} NoQuery(url: string, i: nat)
    requires i <= |url| && '?' !in url && '#' !in url
    ensures PathEnd(url, i) == |url|
    decreases |url| - i
  {
    if i < |url| { NoQuery(url, i + 1); }
  }

  lemma DotPartIsLower()
    ensures Lower(".part") == ".part"
  {
    var s := ".part";
    assert s[0] == '.' && s[1] == 'p' && s[2] == 'a' && s[3] == 'r' && s[4] == 't';
    forall i | 0 <= i < 5 ensures LowerChar(s[i]) == s[i] {
      assert i == 0 || i == 1 || i == 2 || i == 3 || i == 4;
    }
  }

  /** A link whose download is not found again. */
  lemma PartDownloadLost()
    ensures var url := "https://h/v.part";
      && PartLink(url, false)
      && forall other :: !Matches(FileName(Component("1"), Extension(url, false)), Component(other))
  {
    var url := "https://h/v.part";
    NoQuery(url, 0);
    assert url[..16] == url;
    assert url == "https://h/v" + ".part";
    assert url[11..] == ".part";
    DotPartIsLower();
    forall other ensures !Matches(FileName(Component("1"), Extension(url, false)), Component(other)) {
      DownloadFoundExactlyWhen("1", other, url, false);
    }
  }

  // ---- The order of strings ----

  predicate Before(a: string, b: string) {
    b != [] && (a == [] || a[0] < b[0] || (a[0] == b[0] && Before(a[1..], b[1..])))
  }

  // The first place where they differ, one of them perhaps at its end.
  predicate PartsAt(a: string, b: string, k: nat) {
    k <= |a| && k < |b| && a[..k] == b[..k] && (k == |a| || a[k] < b[k])
  }

  /** The order of the characters' codes, the shorter first. */
  lemma {:induction false} BeforeExactlyWhen(a: string, b: string)
    ensures Before(a, b) <==> exists k: nat :: PartsAt(a, b, k)
  {
    if a != [] && b != [] && a[0] == b[0] {
      BeforeExactlyWhen(a[1..], b[1..]);
      if k: nat :| PartsAt(a[1..], b[1..], k) { PartsLater(a, b, k + 1); }
      if k: nat :| PartsAt(a, b, k) {
        assert k > 0;
        PartsLater(a, b, k);
      }
    } else if Before(a, b) {
      assert PartsAt(a, b, 0);
    } else if k: nat :| PartsAt(a, b, k) {
      if k > 0 { PartsHead(a, b, k); }
    }
  }

  lemma PartsHead(a: string, b: string, k: nat)
    requires PartsAt(a, b, k) && k > 0
    ensures a[0] == b[0]
  {
    assert a[..k][0] == a[0] && b[..k][0] == b[0];
  }

  lemma PartsLater(a: string, b: string, k: nat)
    requires a != [] && b != [] && a[0] == b[0] && k > 0
    ensures PartsAt(a, b, k) <==> PartsAt(a[1..], b[1..], k - 1)
  {
    if k <= |a| && k < |b| {
      assert a[..k] == [a[0]] + a[1..][..k - 1] && b[..k] == [b[0]] + b[1..][..k - 1];
      assert a[..k][1..] == a[1..][..k - 1] && b[..k][1..] == b[1..][..k - 1];
    }
  }

  lemma {:induction false} BeforeTotal(a: string, b: string)
    ensures Before(a, b) || Before(b, a) || a == b
    ensures !(Before(a, b) && Before(b, a)) && !Before(a, a)
  {
    if a != [] && b != [] {
      BeforeTotal(a[1..], b[1..]);
      assert a == [a[0]] + a[1..] && b == [b[0]] + b[1..];
    } else if a != [] {
      BeforeTotal(a[1..], a[1..]);
    }
  }

  lemma {:induction false} BeforeTransitive(a: string, b: string, c: string)
    requires Before(a, b) && Before(b, c)
    ensures Before(a, c)
  {
    if a != [] && b[0] == a[0] && c[0] == b[0] { BeforeTransitive(a[1..], b[1..], c[1..]); }
  }

  lemma {:induction false} BeforeUnder(dir: string, a: string, b: string)
    ensures Before(dir + a, dir + b) <==> Before(a, b)
  {
    if dir == [] {
      assert [] + a == a && [] + b == b;
    } else {
      BeforeUnder(dir[1..], a, b);
      assert (dir + a)[1..] == dir[1..] + a && (dir + b)[1..] == dir[1..] + b;
    }
  }

  // The smallest name among the first n entries that answer.
  predicate Smallest(es: seq<DirEntry>, n: nat, stem: string, best: Option<string>)
    requires n <= |es|
  {
    if best == None then forall i :: 0 <= i < n ==> !Answers(es[i], stem)
    else
      && (exists i :: 0 <= i < n && Answers(es[i], stem) && es[i].name == best.value)
      && forall i :: 0 <= i < n && Answers(es[i], stem) ==> !Before(es[i].name, best.value)
  }

  /** find_local_episode, on an opened directory: the smallest path that answers, in whatever order the
  entries come. */
  method FindLocalEpisode(dir: string, es: seq<DirEntry>, stem: string) returns (best: Option<string>)
    ensures best == None ==> Smallest(es, |es|, stem, None)
    ensures best.Some? ==> exists name :: best.value == dir + "/" + name && Smallest(es, |es|, stem, Some(name))
  {
    var name: Option<string> := None;
    best := None;
    for i := 0 to |es|
      invariant best == if name == None then None else Some(dir + "/" + name.value)
      invariant Smallest(es, i, stem, name)
    {
      if !Matches(es[i].name, stem) || !es[i].regular { continue; }
      var path := dir + "/" + es[i].name;
      if name.Some? {
        BeforeUnder(dir + "/", es[i].name, name.value);
        Replaces(es, i, stem, name.value);
      }
      BeforeTotal(es[i].name, es[i].name);
      if best == None || Before(path, best.value) {
        best, name := Some(path), Some(es[i].name);
      }
    }
  }

  lemma Replaces(es: seq<DirEntry>, n: nat, stem: string, best: string)
    requires n < |es| && Smallest(es, n, stem, Some(best)) && Answers(es[n], stem)
    ensures Smallest(es, n + 1, stem, Some(if Before(es[n].name, best) then es[n].name else best))
  {
    var x := es[n].name;
    if Before(x, best) {
      BeforeTotal(x, x);
      forall i | 0 <= i < n && Answers(es[i], stem) ensures !Before(es[i].name, x) {
        if Before(es[i].name, x) { BeforeTransitive(es[i].name, x, best); }
      }
    }
  }

  /** The answer does not depend on the order of the directory. */
  lemma OrderDoesNotMatter(es: seq<DirEntry>, fs: seq<DirEntry>, stem: string, a: Option<string>, b: Option<string>)
    requires forall e :: e in es <==> e in fs
    requires Smallest(es, |es|, stem, a) && Smallest(fs, |fs|, stem, b)
    ensures a == b
  {
    if a.Some? {
      var i :| 0 <= i < |es| && Answers(es[i], stem) && es[i].name == a.value;
      assert es[i] in fs;
    }
    if b.Some? {
      var j :| 0 <= j < |fs| && Answers(fs[j], stem) && fs[j].name == b.value;
      assert fs[j] in es;
    }
    if a.Some? && b.Some? { BeforeTotal(a.value, b.value); }
  }
}
