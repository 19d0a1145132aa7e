/** merge_path (src/download.cpp): one show's download tree moved onto another's, entry by entry
where both exist, down to a depth, with any file system call free to fail. The calls change one disk;
what they make of the two places is a function of what was there. */
module MergeTree {
  import opened Numerals

  type Name = string
  type Path = seq<Name>

  datatype Tree = File(content: seq<bv8>) | Dir(entries: map<Name, Tree>)

  // Which calls fail, by the path they are about: lstat or rename, opendir, rmdir.
  datatype Faults = Faults(stuck: set<Path>, unreadable: set<Path>, unremovable: set<Path>)

  // The two trees after merging `from` onto `to`, both at path `at` of their shows.
  datatype Pair = Pair(from: Option<Tree>, to: Option<Tree>)

  predicate Descends(from: Tree, to: Option<Tree>, depth: nat) {
    to.Some? && depth > 0 && to.value.Dir? && from.Dir?
  }

  function Merge(from: Tree, to: Option<Tree>, depth: nat, f: Faults, at: Path): Pair
    decreases depth, 1
  {
    if at in f.stuck then Pair(Some(from), to)
    else if to.None? then Pair(None, Some(from))
    else if !Descends(from, to, depth) then Pair(Some(from), to)
    else
      var part := Parts(from.entries, to.value.entries, depth - 1, f, at,
                        if at in f.unreadable then {} else from.entries.Keys);
      Swept(Remaining(from.entries, part), Gained(to.value.entries, part), at !in f.unremovable)
  }

  function Entry(d: map<Name, Tree>, n: Name): Option<Tree> {
    if n in d then Some(d[n]) else None
  }

  // What becomes of the entries called names, each merged onto its counterpart.
  function Parts(xs: map<Name, Tree>, ys: map<Name, Tree>, depth: nat, f: Faults, at: Path, names: set<Name>)
    : map<Name, Pair>
    requires names <= xs.Keys
    decreases depth, 2
  {
    map n | n in names :: Merge(xs[n], Entry(ys, n), depth, f, at + [n])
  }

  // The two directories when those entries were visited.
  function Visited(xs: map<Name, Tree>, ys: map<Name, Tree>, depth: nat, f: Faults, at: Path, names: set<Name>): Pair
    requires names <= xs.Keys
    decreases depth, 3
  {
    var part := Parts(xs, ys, depth, f, at, names);
    Pair(Some(Dir(Remaining(xs, part))), Some(Dir(Gained(ys, part))))
  }

  // The two directories after their entries were visited: an emptied one is removed if it can be.
  function Swept(left: map<Name, Tree>, right: map<Name, Tree>, removable: bool): Pair {
    Pair(if left == map[] && removable then None else Some(Dir(left)), Some(Dir(right)))
  }

  // What a directory keeps, given what became of the entries that were visited.
  function Remaining(entries: map<Name, Tree>, part: map<Name, Pair>): map<Name, Tree> {
    map n | n in entries && (n in part ==> part[n].from.Some?) ::
      if n in part then part[n].from.value else entries[n]
  }

  function Gained(entries: map<Name, Tree>, part: map<Name, Pair>): map<Name, Tree> {
    map n | n in entries.Keys + part.Keys && (n in part ==> part[n].to.Some?) ::
      if n in part then part[n].to.value else entries[n]
  }

  // ---- One disk ----

  function Lookup(t: Option<Tree>, p: Path): Option<Tree>
    decreases |p|
  {
    if t.None? || p == [] then t
    else if t.value.File? then None
    else Lookup(Entry(t.value.entries, p[0]), p[1..])
  }

  predicate DirAt(t: Option<Tree>, p: Path) {
    Lookup(t, p).Some? && Lookup(t, p).value.Dir?
  }

  // A directory's entries with one set, or taken away.
  function With(entries: map<Name, Tree>, n: Name, x: Option<Tree>): map<Name, Tree> {
    if x.Some? then entries[n := x.value] else entries - {n}
  }

  // The tree with x put at path p, or p taken away; nothing happens where p's directory is missing.
  function Put(t: Tree, p: Path, x: Option<Tree>): Tree
    requires p != []
    decreases |p|
  {
    if t.File? then t
    else if |p| == 1 then Dir(With(t.entries, p[0], x))
    else if p[0] in t.entries then Dir(t.entries[p[0] := Put(t.entries[p[0]], p[1..], x)])
    else t
  }

  // Neither path lies within the other.
  predicate Diverge(p: Path, q: Path)
    decreases |p|
  {
    p != [] && q != [] && (p[0] != q[0] || Diverge(p[1..], q[1..]))
  }

  // p's directory is there.
  predicate HasParent(t: Tree, p: Path) {
    p != [] && DirAt(Some(t), p[..|p| - 1])
  }

  lemma {:induction false} LookupPut(t: Tree, p: Path, x: Option<Tree>)
    requires HasParent(t, p)
    ensures Lookup(Some(Put(t, p, x)), p) == x
    decreases |p|
  {
    if |p| > 1 {
      ParentDown(t, p);
      LookupPut(t.entries[p[0]], p[1..], x);
    } else {
      assert p[..0] == [] && p[1..] == [];
    }
  }

  lemma ParentDown(t: Tree, p: Path)
    requires HasParent(t, p) && |p| > 1
    ensures t.Dir? && p[0] in t.entries && HasParent(t.entries[p[0]], p[1..])
  {
    var d := p[..|p| - 1];
    assert d[0] == p[0] && d[1..] == p[1..][..|p| - 2];
    assert Lookup(Entry(t.entries, d[0]), d[1..]).Some?;
  }

  lemma {:induction false} LookupPutOther(t: Tree, p: Path, x: Option<Tree>, q: Path)
    requires Diverge(p, q)
    ensures Lookup(Some(Put(t, p, x)), q) == Lookup(Some(t), q)
    decreases |p|
  {
    if t.Dir? && p[0] == q[0] && |p| > 1 && p[0] in t.entries {
      LookupPutOther(t.entries[p[0]], p[1..], x, q[1..]);
    }
  }

  lemma {:induction false} PutPut(t: Tree, p: Path, x: Option<Tree>, y: Option<Tree>)
    requires p != []
    ensures Put(Put(t, p, x), p, y) == Put(t, p, y)
    decreases |p|
  {
    if t.Dir? && |p| > 1 && p[0] in t.entries {
      PutPut(t.entries[p[0]], p[1..], x, y);
    }
  }

  // What a directory's entry becomes when x is put at a path below it.
  function Below(entry: Option<Tree>, p: Path, x: Option<Tree>): Option<Tree>
    requires p != []
  {
    if |p| == 1 then x else if entry.Some? then Some(Put(entry.value, p[1..], x)) else None
  }

  lemma PutStep(t: Tree, p: Path, x: Option<Tree>)
    requires t.Dir? && p != []
    ensures Put(t, p, x) == Dir(With(t.entries, p[0], Below(Entry(t.entries, p[0]), p, x)))
  {
    if |p| > 1 && p[0] !in t.entries { assert t.entries - {p[0]} == t.entries; }
  }

  lemma WithCommutes(es: map<Name, Tree>, m: Name, x: Option<Tree>, n: Name, y: Option<Tree>)
    requires m != n
    ensures With(With(es, m, x), n, y) == With(With(es, n, y), m, x)
    ensures Entry(With(es, m, x), n) == Entry(es, n)
  {
  }

  lemma PutApart(t: Tree, p: Path, x: Option<Tree>, q: Path, y: Option<Tree>)
    requires t.Dir? && p != [] && q != [] && p[0] != q[0]
    ensures Put(Put(t, p, x), q, y) == Put(Put(t, q, y), p, x)
  {
    var a, b := Below(Entry(t.entries, p[0]), p, x), Below(Entry(t.entries, q[0]), q, y);
    PutStep(t, p, x);
    PutStep(t, q, y);
    WithCommutes(t.entries, p[0], a, q[0], b);
    WithCommutes(t.entries, q[0], b, p[0], a);
    PutStep(Put(t, p, x), q, y);
    PutStep(Put(t, q, y), p, x);
  }

  lemma {:induction false} PutCommutes(t: Tree, p: Path, x: Option<Tree>, q: Path, y: Option<Tree>)
    requires Diverge(p, q)
    ensures Put(Put(t, p, x), q, y) == Put(Put(t, q, y), p, x)
    decreases |p|
  {
    if t.Dir? && p[0] != q[0] {
      PutApart(t, p, x, q, y);
    } else if t.Dir? && p[0] in t.entries {
      PutCommutes(t.entries[p[0]], p[1..], x, q[1..], y);
    }
  }

  lemma {:induction false} PutSame(t: Tree, p: Path)
    requires HasParent(t, p)
    ensures Put(t, p, Lookup(Some(t), p)) == t
    decreases |p|
  {
    if |p| > 1 {
      ParentDown(t, p);
      PutSame(t.entries[p[0]], p[1..]);
    } else {
      assert p[..0] == [] && p[1..] == [];
    }
  }

  lemma {:induction false} PutChild(t: Tree, p: Path, n: Name, x: Option<Tree>)
    requires p != [] && DirAt(Some(t), p)
    ensures Put(t, p + [n], x) == Put(t, p, Some(Dir(With(Lookup(Some(t), p).value.entries, n, x))))
    decreases |p|
  {
    var q := p + [n];
    assert q[1..] == p[1..] + [n];
    if |p| > 1 {
      assert Lookup(Entry(t.entries, p[0]), p[1..]).Some?;
      PutChild(t.entries[p[0]], p[1..], n, x);
    } else {
      assert p[1..] == [];
      assert q[1..] == [n];
    }
  }

  lemma {:induction false} DivergeSnoc(p: Path, q: Path, n: Name)
    requires Diverge(p, q)
    ensures Diverge(p + [n], q + [n]) && Diverge(p + [n], q) && Diverge(q, p)
    decreases |p|
  {
    if p[0] == q[0] {
      DivergeSnoc(p[1..], q[1..], n);
      assert (p + [n])[1..] == p[1..] + [n] && (q + [n])[1..] == q[1..] + [n];
    }
  }

  // The disk when both paths have become what the pair says.
  function Placed(t: Tree, from: Path, to: Path, r: Pair): Tree
    requires from != [] && to != []
  {
    Put(Put(t, from, r.from), to, r.to)
  }

  lemma {:induction false} ParentKept(t: Tree, p: Path, x: Option<Tree>, q: Path)
    requires Diverge(p, q) && HasParent(t, q)
    ensures HasParent(Put(t, p, x), q)
    decreases |p|
  {
    if |q| > 1 {
      ParentDown(t, q);
      if p[0] == q[0] { ParentKept(t.entries[p[0]], p[1..], x, q[1..]); }
      ParentUp(Put(t, p, x), q);
    } else {
      assert q[..0] == [];
    }
  }

  lemma ParentUp(t: Tree, p: Path)
    requires |p| > 1 && t.Dir? && p[0] in t.entries && HasParent(t.entries[p[0]], p[1..])
    ensures HasParent(t, p)
  {
    var d := p[..|p| - 1];
    assert d[0] == p[0] && d[1..] == p[1..][..|p| - 2];
  }

  // Two places on one disk: apart, and each with a directory to be in.
  predicate Places(t: Tree, from: Path, to: Path) {
    Diverge(from, to) && HasParent(t, from) && HasParent(t, to)
  }

  lemma PlacedAt(t: Tree, from: Path, to: Path, r: Pair)
    requires Places(t, from, to)
    ensures Lookup(Some(Placed(t, from, to, r)), from) == r.from
    ensures Lookup(Some(Placed(t, from, to, r)), to) == r.to
    ensures Places(Placed(t, from, to, r), from, to)
  {
    var u := Put(t, from, r.from);
    DivergeSnoc(from, to, "");
    ParentKept(t, from, r.from, to);
    LookupPut(t, from, r.from);
    LookupPut(u, to, r.to);
    LookupPutOther(u, to, r.to, from);
    ParentSelf(t, from, r.from);
    ParentSelf(u, to, r.to);
    ParentKept(u, to, r.to, from);
  }

  lemma {:induction false} ParentSelf(t: Tree, p: Path, x: Option<Tree>)
    requires HasParent(t, p)
    ensures HasParent(Put(t, p, x), p)
    decreases |p|
  {
    if |p| > 1 {
      ParentDown(t, p);
      ParentSelf(t.entries[p[0]], p[1..], x);
      ParentUp(Put(t, p, x), p);
    } else {
      assert p[..0] == [];
    }
  }

  lemma NothingPlaced(t: Tree, from: Path, to: Path)
    requires Places(t, from, to)
    ensures Placed(t, from, to, Pair(Lookup(Some(t), from), Lookup(Some(t), to))) == t
  {
    PutSame(t, from);
    PutSame(t, to);
  }

  lemma PlacedAgain(t: Tree, from: Path, to: Path, r: Pair, x: Option<Tree>)
    requires Diverge(from, to)
    ensures Put(Placed(t, from, to, r), from, x) == Placed(t, from, to, Pair(x, r.to))
    ensures Put(Placed(t, from, to, r), to, x) == Placed(t, from, to, Pair(r.from, x))
  {
    DivergeSnoc(from, to, "");
    var u := Put(t, from, r.from);
    PutCommutes(u, to, r.to, from, x);
    PutPut(t, from, r.from, x);
    PutPut(u, to, r.to, x);
  }

  // What becomes of the children called n becomes of the directories.
  lemma PlacedChildren(t: Tree, from: Path, to: Path, left: map<Name, Tree>, right: map<Name, Tree>, n: Name, r: Pair)
    requires Places(t, from, to)
    ensures var u := Placed(t, from, to, Pair(Some(Dir(left)), Some(Dir(right))));
      Placed(u, from + [n], to + [n], r)
      == Placed(t, from, to, Pair(Some(Dir(With(left, n, r.from))), Some(Dir(With(right, n, r.to)))))
  {
    var both := Pair(Some(Dir(left)), Some(Dir(right)));
    var u := Placed(t, from, to, both);
    var left' := Some(Dir(With(left, n, r.from)));
    PlacedAt(t, from, to, both);
    PutChild(u, from, n, r.from);
    PlacedAgain(t, from, to, both, left');
    var half := Pair(left', Some(Dir(right)));
    PlacedAt(t, from, to, half);
    PutChild(Placed(t, from, to, half), to, n, r.to);
    PlacedAgain(t, from, to, half, Some(Dir(With(right, n, r.to))));
  }

  // A child's place, and what is there.
  lemma {:induction false} LookupChild(t: Tree, p: Path, n: Name)
    requires DirAt(Some(t), p)
    ensures Lookup(Some(t), p + [n]) == Entry(Lookup(Some(t), p).value.entries, n)
    ensures HasParent(t, p + [n])
    decreases |p|
  {
    assert (p + [n])[..|p|] == p;
    if p != [] {
      assert Lookup(Entry(t.entries, p[0]), p[1..]).Some?;
      LookupChild(t.entries[p[0]], p[1..], n);
      assert (p + [n])[1..] == p[1..] + [n];
    } else {
      assert [n][1..] == [];
    }
  }

  // The two places a child may have, and what is there.
  lemma ChildPlaces(t: Tree, from: Path, to: Path, left: map<Name, Tree>, right: map<Name, Tree>, n: Name)
    requires Places(t, from, to)
    ensures var u := Placed(t, from, to, Pair(Some(Dir(left)), Some(Dir(right))));
      && Places(u, from + [n], to + [n])
      && Lookup(Some(u), from + [n]) == Entry(left, n) && Lookup(Some(u), to + [n]) == Entry(right, n)
  {
    var u := Placed(t, from, to, Pair(Some(Dir(left)), Some(Dir(right))));
    PlacedAt(t, from, to, Pair(Some(Dir(left)), Some(Dir(right))));
    LookupChild(u, from, n);
    LookupChild(u, to, n);
    DivergeSnoc(from, to, n);
  }

  // After the loop: what the old directory still holds, and what removing it leaves.
  lemma Sweep(t: Tree, from: Path, to: Path, left: map<Name, Tree>, right: map<Name, Tree>, removable: bool)
    requires Places(t, from, to)
    ensures var u := Placed(t, from, to, Pair(Some(Dir(left)), Some(Dir(right))));
      && Lookup(Some(u), from) == Some(Dir(left))
      && (if left == map[] && removable then Put(u, from, None) else u)
         == Placed(t, from, to, Swept(left, right, removable))
  {
    PlacedAt(t, from, to, Pair(Some(Dir(left)), Some(Dir(right))));
    PlacedAgain(t, from, to, Pair(Some(Dir(left)), Some(Dir(right))), None);
  }

  lemma {:induction false} SiblingPlaces(t: Tree, base: Path, m: Name, n: Name)
    requires m != n && Lookup(Some(t), base + [m]).Some?
    ensures Places(t, base + [m], base + [n])
    decreases |base|
  {
    var from, to := base + [m], base + [n];
    if base != [] {
      assert from[1..] == base[1..] + [m] && to[1..] == base[1..] + [n];
      assert Lookup(Entry(t.entries, base[0]), from[1..]).Some?;
      SiblingPlaces(t.entries[base[0]], base[1..], m, n);
      ParentUp(t, from);
      ParentUp(t, to);
    } else {
      assert from[..0] == [] && to[..0] == [];
    }
  }

  // The program's file system calls and its recursion, on one disk.
  class Disk {
    var root: Tree

    constructor (root: Tree)
      ensures this.root == root
    {
      this.root := root;
    }

    function At(p: Path): Option<Tree>
      reads this
    {
      Lookup(Some(root), p)
    }

    method Rename(from: Path, to: Path)
      requires from != [] && to != [] && At(from).Some?
      modifies this
      ensures root == Placed(old(root), from, to, Pair(None, old(At(from))))
    {
      var moved := At(from);
      root := Put(Put(root, from, None), to, moved);
    }

    // It fails, harmlessly, while anything is left.
    method Rmdir(p: Path, fails: bool)
      requires p != [] && DirAt(Some(root), p)
      modifies this
      ensures root == if old(At(p)).value.entries == map[] && !fails then Put(old(root), p, None) else old(root)
    {
      if At(p).value.entries == map[] && !fails {
        root := Put(root, p, None);
      }
    }

    /** merge_path: the two places on the disk become what the specification says, and nothing else
    on it changes. */
    method MergePath(from: Path, to: Path, depth: nat, f: Faults, at: Path)
      requires Places(root, from, to) && At(from).Some?
      modifies this
      ensures root == Placed(old(root), from, to, Merge(old(At(from)).value, old(At(to)), depth, f, at))
      decreases depth, 1
    {
      if at in f.stuck {
        NothingPlaced(root, from, to);
        return;
      }
      if At(to).None? {
        Rename(from, to);
        return;
      }
      if depth == 0 || !At(to).value.Dir? || !At(from).value.Dir? {
        NothingPlaced(root, from, to);
        return;
      }
      var names := if at in f.unreadable then {} else At(from).value.entries.Keys;
      ghost var t, x, y := root, At(from).value, At(to).value;
      MergeEntries(from, to, depth - 1, f, at, names);
      Finished(t, from, to, x, y, depth, f, at, names, root);
      Rmdir(from, at in f.unremovable);
    }

    // The loop over the names read, in whatever order readdir gave them.
    method MergeEntries(from: Path, to: Path, depth: nat, f: Faults, at: Path, names: set<Name>)
      requires Places(root, from, to) && DirAt(Some(root), from) && DirAt(Some(root), to)
      requires names <= At(from).value.entries.Keys
      modifies this
      ensures root == Placed(old(root), from, to,
                             Visited(old(At(from)).value.entries, old(At(to)).value.entries, depth, f, at, names))
      decreases depth, 2
    {
      ghost var t := root;
      ghost var xs, ys := At(from).value.entries, At(to).value.entries;
      NothingPlaced(root, from, to);
      ghost var left, right := xs, ys;
      var todo := names;
      while todo != {}
        invariant todo <= names
        invariant left == Remaining(xs, Parts(xs, ys, depth, f, at, names - todo))
        invariant right == Gained(ys, Parts(xs, ys, depth, f, at, names - todo))
        invariant root == Placed(t, from, to, Pair(Some(Dir(left)), Some(Dir(right))))
        decreases |todo|
      {
        var n :| n in todo;
        ChildPlaces(t, from, to, left, right, n);
        Unvisited(xs, ys, depth, f, at, names - todo, n);
        MergePath(from + [n], to + [n], depth, f, at + [n]);
        ghost var p := Merge(xs[n], Entry(ys, n), depth, f, at + [n]);
        PlacedChildren(t, from, to, left, right, n, p);
        PartsMore(xs, ys, depth, f, at, names - todo, n, names - (todo - {n}));
        left, right := With(left, n, p.from), With(right, n, p.to);
        todo := todo - {n};
      }
      assert names - {} == names;
    }

    /** move_show_downloads: the old show's directory, two levels deep, moved onto the new show's. */
    method MoveShowDownloads(base: Path, oldId: Name, newId: Name, f: Faults)
      modifies this
      ensures root == if oldId == newId || old(At(base + [oldId])).None? then old(root)
                      else Placed(old(root), base + [oldId], base + [newId],
                                  Merge(old(At(base + [oldId])).value, old(At(base + [newId])), 2, f, []))
    {
      if oldId == newId { return; }
      // Nothing to move: every call on the old path fails.
      if At(base + [oldId]).None? { return; }
      SiblingPlaces(root, base, oldId, newId);
      MergePath(base + [oldId], base + [newId], 2, f, []);
    }
  }

  // After the loop the directory emptied is removed, and that is the merge.
  lemma Finished(t: Tree, from: Path, to: Path, x: Tree, y: Tree, depth: nat, f: Faults, at: Path, names: set<Name>,
                 u: Tree)
    requires Places(t, from, to) && x.Dir? && y.Dir? && depth > 0 && at !in f.stuck
    requires names == if at in f.unreadable then {} else x.entries.Keys
    requires u == Placed(t, from, to, Visited(x.entries, y.entries, depth - 1, f, at, names))
    ensures from != [] && DirAt(Some(u), from)
    ensures (if Lookup(Some(u), from).value.entries == map[] && at !in f.unremovable then Put(u, from, None) else u)
         == Placed(t, from, to, Merge(x, Some(y), depth, f, at))
  {
    var part := Parts(x.entries, y.entries, depth - 1, f, at, names);
    Sweep(t, from, to, Remaining(x.entries, part), Gained(y.entries, part), at !in f.unremovable);
  }

  lemma PartsWith(xs: map<Name, Tree>, ys: map<Name, Tree>, depth: nat, f: Faults, at: Path, done: set<Name>, n: Name)
    requires done <= xs.Keys && n in xs
    ensures Parts(xs, ys, depth, f, at, done + {n})
         == Parts(xs, ys, depth, f, at, done)[n := Merge(xs[n], Entry(ys, n), depth, f, at + [n])]
  {}

  // One more name visited.
  lemma PartsMore(xs: map<Name, Tree>, ys: map<Name, Tree>, depth: nat, f: Faults, at: Path, done: set<Name>, n: Name,
                  more: set<Name>)
    requires done <= xs.Keys && n in xs && more == done + {n}
    ensures var p := Merge(xs[n], Entry(ys, n), depth, f, at + [n]);
      && Remaining(xs, Parts(xs, ys, depth, f, at, more))
         == With(Remaining(xs, Parts(xs, ys, depth, f, at, done)), n, p.from)
      && Gained(ys, Parts(xs, ys, depth, f, at, more)) == With(Gained(ys, Parts(xs, ys, depth, f, at, done)), n, p.to)
  {
    var p := Merge(xs[n], Entry(ys, n), depth, f, at + [n]);
    PartsWith(xs, ys, depth, f, at, done, n);
    OneMoreVisited(xs, Parts(xs, ys, depth, f, at, done), n, p);
    OneMoreGained(ys, Parts(xs, ys, depth, f, at, done), n, p);
  }

  // A name not visited yet is what it was, on both sides.
  lemma Unvisited(xs: map<Name, Tree>, ys: map<Name, Tree>, depth: nat, f: Faults, at: Path, done: set<Name>, n: Name)
    requires done <= xs.Keys && n in xs && n !in done
    ensures Entry(Remaining(xs, Parts(xs, ys, depth, f, at, done)), n) == Some(xs[n])
    ensures Entry(Gained(ys, Parts(xs, ys, depth, f, at, done)), n) == Entry(ys, n)
  {}

  lemma OneMoreVisited(xs: map<Name, Tree>, part: map<Name, Pair>, n: Name, p: Pair)
    requires n in xs
    ensures Remaining(xs, part[n := p]) == With(Remaining(xs, part), n, p.from)
  {}

  lemma OneMoreGained(ys: map<Name, Tree>, part: map<Name, Pair>, n: Name, p: Pair)
    ensures Gained(ys, part[n := p]) == With(Gained(ys, part), n, p.to)
  {}

  // ---- What merging keeps ----

  // Whether the node at p moves: some free spot is met on the way to it.
  predicate Moves(from: Tree, to: Option<Tree>, depth: nat, f: Faults, at: Path, p: Path)
    decreases |p|
  {
    if at in f.stuck then false
    else if to.None? then true
    else
      && Descends(from, to, depth) && at !in f.unreadable
      && p != [] && p[0] in from.entries
      && Moves(from.entries[p[0]], Entry(to.value.entries, p[0]), depth - 1, f, at + [p[0]], p[1..])
  }

  // One level down: what becomes of the entry called n.
  lemma MergeEntry(from: Tree, to: Option<Tree>, depth: nat, f: Faults, at: Path, n: Name)
    requires at !in f.stuck && Descends(from, to, depth)
    ensures var r := Merge(from, to, depth, f, at);
      && r.to.Some? && r.to.value.Dir? && (r.from.Some? ==> r.from.value.Dir?)
      && (if n in from.entries && at !in f.unreadable
          then var m := Merge(from.entries[n], Entry(to.value.entries, n), depth - 1, f, at + [n]);
               Entry(r.to.value.entries, n) == m.to
               && (if r.from.Some? then Entry(r.from.value.entries, n) == m.from else m.from == None)
          else Entry(r.to.value.entries, n) == Entry(to.value.entries, n)
               && (if r.from.Some? then Entry(r.from.value.entries, n) == Entry(from.entries, n)
                   else n !in from.entries))
  {
    var names := if at in f.unreadable then {} else from.entries.Keys;
    var part := Parts(from.entries, to.value.entries, depth - 1, f, at, names);
    assert n in part <==> n in from.entries && at !in f.unreadable;
    var left := Remaining(from.entries, part);
    assert Merge(from, to, depth, f, at) == Swept(left, Gained(to.value.entries, part), at !in f.unremovable);
    assert left == map[] ==> n !in left;
  }

  /** Conservation, for every path and every pattern of failures: a file of the old tree is
  afterwards at the same place under exactly one of the two trees with the same content, in the
  new one just when it moves; a file of the new tree never changes; and neither tree holds a file
  that was not there before. */
  lemma {:induction false} MergeConserves(from: Tree, to: Option<Tree>, depth: nat, f: Faults, at: Path, p: Path)
    ensures var r := Merge(from, to, depth, f, at);
      var src, dst := Lookup(Some(from), p), Lookup(to, p);
      var moves := Moves(from, to, depth, f, at, p);
      && (src.Some? && src.value.File? ==>
            if moves then Lookup(r.to, p) == src && Lookup(r.from, p) == None
            else Lookup(r.from, p) == src && Lookup(r.to, p) == dst)
      && (dst.Some? && dst.value.File? ==> Lookup(r.to, p) == dst && !moves)
      && (Lookup(r.to, p).Some? && Lookup(r.to, p).value.File? ==>
            Lookup(r.to, p) == dst || (moves && Lookup(r.to, p) == src))
      && (Lookup(r.from, p).Some? && Lookup(r.from, p).value.File? ==> !moves && Lookup(r.from, p) == src)
    decreases |p|
  {
    if at !in f.stuck && Descends(from, to, depth) && p != [] {
      var n := p[0];
      MergeEntry(from, to, depth, f, at, n);
      if n in from.entries && at !in f.unreadable {
        MergeConserves(from.entries[n], Entry(to.value.entries, n), depth - 1, f, at + [n], p[1..]);
      }
    }
  }

  lemma {:induction false} LookupBelow(t: Option<Tree>, a: Path, p: Path)
    ensures Lookup(t, a + p) == Lookup(Lookup(t, a), p)
    decreases |a|
  {
    if a == [] {
      assert a + p == p;
    } else if t.Some? && t.value.Dir? {
      LookupBelow(Entry(t.value.entries, a[0]), a[1..], p);
      assert (a + p)[1..] == a[1..] + p;
    }
  }

  predicate IsFile(t: Option<Tree>) { t.Some? && t.value.File? }

  /** On the disk: a file of the old directory is afterwards at its old or at its new path, not at both,
  with its content; a file of the new directory stays as it was; and everything outside the two
  directories does. */
  lemma DiskConserves(t: Tree, from: Path, to: Path, depth: nat, f: Faults, p: Path, q: Path)
    requires Places(t, from, to) && Lookup(Some(t), from).Some?
    ensures var x, y := Lookup(Some(t), from).value, Lookup(Some(t), to);
      var u := Placed(t, from, to, Merge(x, y, depth, f, []));
      var src, dst := Lookup(Some(t), from + p), Lookup(Some(t), to + p);
      && (IsFile(src) ==>
            if Moves(x, y, depth, f, [], p) then Lookup(Some(u), to + p) == src && Lookup(Some(u), from + p) == None
            else Lookup(Some(u), from + p) == src && Lookup(Some(u), to + p) == dst)
      && (IsFile(dst) ==> Lookup(Some(u), to + p) == dst)
      && (Diverge(from, q) && Diverge(to, q) ==> Lookup(Some(u), q) == Lookup(Some(t), q))
  {
    var x, y := Lookup(Some(t), from).value, Lookup(Some(t), to);
    var r := Merge(x, y, depth, f, []);
    var u := Placed(t, from, to, r);
    PlacedAt(t, from, to, r);
    MergeConserves(x, y, depth, f, [], p);
    LookupBelow(Some(t), from, p);
    LookupBelow(Some(t), to, p);
    LookupBelow(Some(u), from, p);
    LookupBelow(Some(u), to, p);
    if Diverge(from, q) && Diverge(to, q) {
      LookupPutOther(t, from, r.from, q);
      LookupPutOther(Put(t, from, r.from), to, r.to, q);
    }
  }

  // ---- What moves, and what goes ----

  // The new tree has nothing at the first k names of p, and up to there both are directories.
  predicate FreeSpot(from: Tree, to: Option<Tree>, p: Path, k: nat)
    requires k <= |p|
  {
    && Lookup(to, p[..k]) == None
    && forall j :: 0 <= j < k ==> DirAt(Some(from), p[..j]) && DirAt(to, p[..j])
  }

  lemma LookupCons(t: Option<Tree>, p: Path, k: nat)
    requires t.Some? && t.value.Dir? && 0 < k <= |p|
    ensures Lookup(t, p[..k]) == Lookup(Entry(t.value.entries, p[0]), p[1..][..k - 1])
  {
    assert p[..k][1..] == p[1..][..k - 1];
  }

  lemma FreeSpotDown(from: Tree, to: Option<Tree>, p: Path, k: nat)
    requires 0 < k <= |p| && to.Some? && to.value.Dir? && from.Dir? && p[0] in from.entries
    ensures FreeSpot(from, to, p, k)
       <==> FreeSpot(from.entries[p[0]], Entry(to.value.entries, p[0]), p[1..], k - 1)
  {
    var x, y, q := from.entries[p[0]], Entry(to.value.entries, p[0]), p[1..];
    LookupCons(to, p, k);
    forall j | 0 < j <= k
      ensures DirAt(Some(from), p[..j]) <==> DirAt(Some(x), q[..j - 1])
      ensures DirAt(to, p[..j]) <==> DirAt(y, q[..j - 1])
    {
      LookupCons(Some(from), p, j);
      LookupCons(to, p, j);
    }
    if FreeSpot(from, to, p, k) {
      forall j | 0 <= j < k - 1 ensures DirAt(Some(x), q[..j]) && DirAt(y, q[..j]) {
        assert DirAt(Some(from), p[..j + 1]) && DirAt(to, p[..j + 1]);
      }
    }
    if FreeSpot(x, y, q, k - 1) {
      forall j | 0 <= j < k ensures DirAt(Some(from), p[..j]) && DirAt(to, p[..j]) {
        if j > 0 { assert DirAt(Some(x), q[..j - 1]) && DirAt(y, q[..j - 1]); }
      }
    }
  }

  // The way to the first k names of p: nothing fails on it, and to go down a directory is read.
  predicate Open(f: Faults, at: Path, p: Path, k: nat)
    requires k <= |p|
  {
    && (forall j :: 0 <= j <= k ==> at + p[..j] !in f.stuck)
    && (forall j :: 0 <= j < k ==> at + p[..j] !in f.unreadable)
  }

  lemma OpenDown(f: Faults, at: Path, p: Path, k: nat)
    requires 0 < k <= |p|
    ensures Open(f, at, p, k) <==>
      at !in f.stuck && at !in f.unreadable && Open(f, at + [p[0]], p[1..], k - 1)
  {
    assert at + p[..0] == at;
    forall j | 0 < j <= k ensures at + p[..j] == (at + [p[0]]) + p[1..][..j - 1] {
      assert p[..j] == [p[0]] + p[1..][..j - 1];
    }
    if Open(f, at, p, k) {
      forall j | 0 <= j <= k - 1
        ensures (at + [p[0]]) + p[1..][..j] !in f.stuck
        ensures j < k - 1 ==> (at + [p[0]]) + p[1..][..j] !in f.unreadable
      {
        assert at + p[..j + 1] == (at + [p[0]]) + p[1..][..j];
      }
    }
  }

  // The node at p moves with the first k names of p, within the depth.
  predicate MovesWith(from: Tree, to: Option<Tree>, depth: nat, f: Faults, at: Path, p: Path, k: nat) {
    k <= |p| && k <= depth && FreeSpot(from, to, p, k) && Open(f, at, p, k)
  }

  lemma MovesWithDown(from: Tree, to: Option<Tree>, depth: nat, f: Faults, at: Path, p: Path, k: nat)
    requires Descends(from, to, depth) && p != [] && p[0] in from.entries && k > 0
    ensures MovesWith(from, to, depth, f, at, p, k) <==>
      && at !in f.stuck && at !in f.unreadable
      && MovesWith(from.entries[p[0]], Entry(to.value.entries, p[0]), depth - 1, f, at + [p[0]], p[1..], k - 1)
  {
    if k <= |p| {
      FreeSpotDown(from, to, p, k);
      OpenDown(f, at, p, k);
    }
  }

  // Whether with none of its names.
  lemma MovesAtOnce(from: Tree, to: Option<Tree>, depth: nat, f: Faults, at: Path, p: Path)
    ensures MovesWith(from, to, depth, f, at, p, 0) <==> to == None && at !in f.stuck
  {
    assert at + p[..0] == at;
  }

  lemma DownOnlyThroughDirectories(from: Tree, to: Option<Tree>, depth: nat, f: Faults, at: Path, p: Path, k: nat)
    requires MovesWith(from, to, depth, f, at, p, k) && k > 0
    ensures to.Some? && to.value.Dir? && from.Dir? && depth > 0
    ensures at !in f.stuck && at !in f.unreadable
  {
    assert DirAt(Some(from), p[..0]) && DirAt(to, p[..0]);
    assert at + p[..0] == at;
  }

  /** What moves, whatever fails: a node moves exactly when its path reaches, within the depth, a spot the new
  tree leaves free, through directories both trees have, with no failure on the way. Else it stays behind. */
  lemma {:induction false} MovesExactlyWhen(from: Tree, to: Option<Tree>, depth: nat, f: Faults, at: Path, p: Path)
    requires Lookup(Some(from), p).Some?
    ensures Moves(from, to, depth, f, at, p) <==> exists k :: MovesWith(from, to, depth, f, at, p, k)
    decreases |p|
  {
    MovesAtOnce(from, to, depth, f, at, p);
    if k: nat :| MovesWith(from, to, depth, f, at, p, k) && k > 0 {
      DownOnlyThroughDirectories(from, to, depth, f, at, p, k);
    }
    if Descends(from, to, depth) && p != [] && at !in f.stuck && at !in f.unreadable {
      MovesExactlyBelow(from, to, depth, f, at, p);
    }
  }

  lemma {:induction false} MovesExactlyBelow(from: Tree, to: Option<Tree>, depth: nat, f: Faults, at: Path, p: Path)
    requires Lookup(Some(from), p).Some?
    requires Descends(from, to, depth) && p != [] && at !in f.stuck && at !in f.unreadable
    ensures Moves(from, to, depth, f, at, p) <==> exists k :: MovesWith(from, to, depth, f, at, p, k)
    decreases |p|, 0
  {
    var x, y := from.entries[p[0]], Entry(to.value.entries, p[0]);
    var depth', at', q := depth - 1, at + [p[0]], p[1..];
    MovesExactlyWhen(x, y, depth', f, at', q);
    MovesAtOnce(from, to, depth, f, at, p);
    if k: nat :| MovesWith(x, y, depth', f, at', q, k) {
      MovesWithDown(from, to, depth, f, at, p, k + 1);
    }
    if k: nat :| MovesWith(from, to, depth, f, at, p, k) {
      MovesWithDown(from, to, depth, f, at, p, k);
    }
  }

  predicate IsDir(t: Option<Tree>) { t.Some? && t.value.Dir? }

  /** What moves does so whole, a directory with all that is in it; where nothing moves to, the new tree has what
  it had, and the old one nothing new. */
  lemma {:induction false} MovesWhole(from: Tree, to: Option<Tree>, depth: nat, f: Faults, at: Path, p: Path)
    ensures var r := Merge(from, to, depth, f, at);
      var src, dst := Lookup(Some(from), p), Lookup(to, p);
      && (if src.Some? && Moves(from, to, depth, f, at, p) then Lookup(r.to, p) == src && Lookup(r.from, p) == None
          else (Lookup(r.to, p) == None <==> dst == None) && (IsDir(Lookup(r.to, p)) <==> IsDir(dst)))
      && (IsDir(src) ==> Lookup(r.from, p) == None || IsDir(Lookup(r.from, p)))
      && (src == None ==> Lookup(r.from, p) == None)
    decreases |p|
  {
    if at !in f.stuck && Descends(from, to, depth) {
      MergeEntry(from, to, depth, f, at, if p == [] then "" else p[0]);
      if p != [] && p[0] in from.entries && at !in f.unreadable {
        MovesWhole(from.entries[p[0]], Entry(to.value.entries, p[0]), depth - 1, f, at + [p[0]], p[1..]);
      }
    }
  }

  // At p both trees have a directory the merge goes into, with no failure on the way.
  predicate Shared(from: Tree, to: Option<Tree>, depth: nat, f: Faults, at: Path, p: Path) {
    && |p| < depth && Open(f, at, p, |p|)
    && forall j :: 0 <= j <= |p| ==> DirAt(Some(from), p[..j]) && DirAt(to, p[..j])
  }

  lemma SharedDown(from: Tree, to: Option<Tree>, depth: nat, f: Faults, at: Path, p: Path)
    requires Descends(from, to, depth) && p != [] && p[0] in from.entries
    ensures Shared(from, to, depth, f, at, p) <==>
      && at !in f.stuck && at !in f.unreadable
      && Shared(from.entries[p[0]], Entry(to.value.entries, p[0]), depth - 1, f, at + [p[0]], p[1..])
  {
    var x, y, q := from.entries[p[0]], Entry(to.value.entries, p[0]), p[1..];
    OpenDown(f, at, p, |p|);
    forall j | 0 < j <= |p|
      ensures DirAt(Some(from), p[..j]) <==> DirAt(Some(x), q[..j - 1])
      ensures DirAt(to, p[..j]) <==> DirAt(y, q[..j - 1])
    {
      LookupCons(Some(from), p, j);
      LookupCons(to, p, j);
    }
    if Shared(from, to, depth, f, at, p) {
      forall j | 0 <= j <= |q| ensures DirAt(Some(x), q[..j]) && DirAt(y, q[..j]) {
        assert DirAt(Some(from), p[..j + 1]) && DirAt(to, p[..j + 1]);
      }
    }
  }

  lemma SweptExactlyWhen(from: Tree, to: Option<Tree>, depth: nat, f: Faults, at: Path)
    requires at !in f.stuck && Descends(from, to, depth)
    ensures var left := Merge(from, to, depth, f, at).from;
      left == None <==> at !in f.unremovable && forall n :: n in from.entries ==> Lookup(left, [n]) == None
  {
    var names := if at in f.unreadable then {} else from.entries.Keys;
    var part := Parts(from.entries, to.value.entries, depth - 1, f, at, names);
    var left := Remaining(from.entries, part);
    assert Merge(from, to, depth, f, at) == Swept(left, Gained(to.value.entries, part), at !in f.unremovable);
    if left != map[] {
      var n :| n in left;
      assert [n][1..] == [];
      assert Lookup(Some(Dir(left)), [n]) == Some(left[n]);
    }
  }

  // No name of the directory at p is left in it.
  predicate Emptied(was: Option<Tree>, now: Option<Tree>, p: Path) {
    IsDir(Lookup(was, p)) && forall n :: n in Lookup(was, p).value.entries ==> Lookup(now, p + [n]) == None
  }

  /** What goes: a node that moves, and a directory the merge goes into, can remove, and leaves nothing in.
  Nothing else does. */
  lemma {:induction false} GoesExactlyWhen(from: Tree, to: Option<Tree>, depth: nat, f: Faults, at: Path, p: Path)
    requires Lookup(Some(from), p).Some?
    ensures var left := Merge(from, to, depth, f, at).from;
      Lookup(left, p) == None <==>
        || Moves(from, to, depth, f, at, p)
        || (Shared(from, to, depth, f, at, p) && at + p !in f.unremovable && Emptied(Some(from), left, p))
    decreases |p|
  {
    var left := Merge(from, to, depth, f, at).from;
    assert at + p[..0] == at;
    if Shared(from, to, depth, f, at, p) { assert DirAt(Some(from), p[..0]) && DirAt(to, p[..0]); }
    if at !in f.stuck && Descends(from, to, depth) {
      if p == [] {
        SweptExactlyWhen(from, to, depth, f, at);
        assert at + p == at && forall n: Name :: p + [n] == [n];
      } else {
        GoesBelow(from, to, depth, f, at, p);
      }
    }
  }

  lemma {:induction false} GoesBelow(from: Tree, to: Option<Tree>, depth: nat, f: Faults, at: Path, p: Path)
    requires Lookup(Some(from), p).Some? && p != [] && at !in f.stuck && Descends(from, to, depth)
    ensures var left := Merge(from, to, depth, f, at).from;
      Lookup(left, p) == None <==>
        || Moves(from, to, depth, f, at, p)
        || (Shared(from, to, depth, f, at, p) && at + p !in f.unremovable && Emptied(Some(from), left, p))
    decreases |p|, 0
  {
    var x, y, q := from.entries[p[0]], Entry(to.value.entries, p[0]), p[1..];
    SharedDown(from, to, depth, f, at, p);
    MergeEntry(from, to, depth, f, at, p[0]);
    if at !in f.unreadable {
      GoesExactlyWhen(x, y, depth - 1, f, at + [p[0]], q);
      assert at + p == (at + [p[0]]) + q;
      EmptiedDown(from, Merge(from, to, depth, f, at).from, Merge(x, y, depth - 1, f, at + [p[0]]).from, p);
    }
  }

  lemma EmptiedDown(from: Tree, left: Option<Tree>, below: Option<Tree>, p: Path)
    requires from.Dir? && p != [] && p[0] in from.entries && (left.Some? ==> left.value.Dir?)
    requires below == if left.Some? then Entry(left.value.entries, p[0]) else None
    ensures Lookup(left, p) == Lookup(below, p[1..])
    ensures Emptied(Some(from), left, p) <==> Emptied(Some(from.entries[p[0]]), below, p[1..])
  {
    forall n: Name ensures Lookup(left, p + [n]) == Lookup(below, p[1..] + [n]) {
      assert (p + [n])[0] == p[0] && (p + [n])[1..] == p[1..] + [n];
    }
  }

  const NO_FAULTS := Faults({}, {}, {})

  /** With no failures one merge does all there is to do: merging what stayed behind again moves
  nothing more. */
  lemma {:induction false} MergeOnceIsEnough(from: Tree, to: Option<Tree>, depth: nat, at: Path)
    ensures var r := Merge(from, to, depth, NO_FAULTS, at);
      r.from.Some? ==> Merge(r.from.value, r.to, depth, NO_FAULTS, at) == r
    decreases depth
  {
    if Descends(from, to, depth) {
      var xs, ys := from.entries, to.value.entries;
      var part := Parts(xs, ys, depth - 1, NO_FAULTS, at, xs.Keys);
      var left, right := Remaining(xs, part), Gained(ys, part);
      var again := Parts(left, right, depth - 1, NO_FAULTS, at, left.Keys);
      forall n | n in left
        ensures again[n] == part[n]
      {
        MergeOnceIsEnough(xs[n], Entry(ys, n), depth - 1, at + [n]);
      }
      assert Remaining(left, again) == left;
      assert Gained(right, again) == right;
    }
  }
}
