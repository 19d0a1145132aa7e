/** Splitting a text at a separator, as the program's hand-written scanners do it. */
module Text {
  // The pieces of s from `start` on, when the scan has reached i and met no separator since `start`.
  function Pieces(s: string, sep: char, start: nat, i: nat): (r: seq<string>)
    requires start <= i <= |s|
    ensures r != []
    decreases |s| - i
  {
    if i == |s| then [s[start..i]]
    else if s[i] == sep then [s[start..i]] + Pieces(s, sep, i + 1, i + 1)
    else Pieces(s, sep, start, i + 1)
  }

  function Split(s: string, sep: char): (r: seq<string>)
    ensures r != []
  {
    Pieces(s, sep, 0, 0)
  }

  function Join(pieces: seq<string>, sep: char): string {
    if pieces == [] then ""
    else if |pieces| == 1 then pieces[0]
    else pieces[0] + [sep] + Join(pieces[1..], sep)
  }

  predicate NoneHas(pieces: seq<string>, sep: char) {
    forall k :: 0 <= k < |pieces| ==> sep !in pieces[k]
  }

  lemma JoinCons(piece: string, rest: seq<string>, sep: char)
    requires rest != []
    ensures Join([piece] + rest, sep) == piece + [sep] + Join(rest, sep)
  {
    assert ([piece] + rest)[1..] == rest;
  }

  lemma {:induction false} JoinPieces(s: string, sep: char, start: nat, i: nat)
    requires start <= i <= |s| && sep !in s[start..i]
    ensures Join(Pieces(s, sep, start, i), sep) == s[start..]
    ensures NoneHas(Pieces(s, sep, start, i), sep)
    decreases |s| - i
  {
    if i == |s| {
    } else if s[i] == sep {
      JoinPieces(s, sep, i + 1, i + 1);
      JoinCons(s[start..i], Pieces(s, sep, i + 1, i + 1), sep);
      assert s[start..] == s[start..i] + [sep] + s[i + 1..];
    } else {
      assert s[start..i + 1] == s[start..i] + [s[i]];
      JoinPieces(s, sep, start, i + 1);
    }
  }

  /** Splitting loses nothing, and leaves no separator inside a piece. */
  lemma JoinSplit(s: string, sep: char)
    ensures Join(Split(s, sep), sep) == s
    ensures NoneHas(Split(s, sep), sep)
  {
    JoinPieces(s, sep, 0, 0);
    assert s[0..] == s;
  }

  lemma {:induction false} PiecesOfOne(s: string, sep: char, start: nat, i: nat)
    requires start <= i <= |s| && sep !in s[i..]
    ensures Pieces(s, sep, start, i) == [s[start..]]
    decreases |s| - i
  {
    if i < |s| {
      assert s[i] in s[i..];
      PiecesOfOne(s, sep, start, i + 1);
    } else {
      assert s[start..i] == s[start..];
    }
  }

  lemma {:induction false} PiecesUpTo(s: string, sep: char, start: nat, i: nat, j: nat)
    requires start <= i <= j < |s| && sep !in s[i..j] && s[j] == sep
    ensures Pieces(s, sep, start, i) == [s[start..j]] + Pieces(s, sep, j + 1, j + 1)
    decreases j - i
  {
    if i < j {
      assert s[i] in s[i..j];
      PiecesUpTo(s, sep, start, i + 1, j);
    }
  }

  lemma {:induction false} SplitJoinFrom(before: string, pieces: seq<string>, sep: char)
    requires pieces != [] && NoneHas(pieces, sep)
    ensures Pieces(before + Join(pieces, sep), sep, |before|, |before|) == pieces
    decreases |pieces|
  {
    var s := before + Join(pieces, sep);
    if |pieces| == 1 {
      assert s[|before|..] == pieces[0];
      PiecesOfOne(s, sep, |before|, |before|);
    } else {
      var j := |before| + |pieces[0]|;
      assert s[|before|..j] == pieces[0];
      PiecesUpTo(s, sep, |before|, |before|, j);
      var past := before + pieces[0] + [sep];
      assert s == past + Join(pieces[1..], sep);
      SplitJoinFrom(past, pieces[1..], sep);
    }
  }

  /** Splitting undoes joining. */
  lemma SplitJoin(pieces: seq<string>, sep: char)
    requires pieces != [] && NoneHas(pieces, sep)
    ensures Split(Join(pieces, sep), sep) == pieces
  {
    SplitJoinFrom("", pieces, sep);
    assert "" + Join(pieces, sep) == Join(pieces, sep);
  }

  /** The scanning loop. */
  method SplitAt(s: string, sep: char) returns (pieces: seq<string>)
    ensures pieces == Split(s, sep)
  {
    pieces := [];
    var start, i := 0, 0;
    while i <= |s|
      invariant 0 <= start <= i <= |s| + 1
      invariant Split(s, sep) == if i <= |s| then pieces + Pieces(s, sep, start, i) else pieces
    {
      if i == |s| || s[i] == sep {
        pieces := pieces + [s[start..i]];
        start := i + 1;
      }
      i := i + 1;
    }
  }

  lemma {:induction false} JoinHasNo(ts: seq<string>, sep: char, c: char)
    requires NoneHas(ts, c) && c != sep
    ensures c !in Join(ts, sep)
  {
    if |ts| > 1 { JoinHasNo(ts[1..], sep, c); }
  }

  // ---- Finding ----

  function FindChar(s: string, c: char, i: nat): (at: nat)
    requires i <= |s|
    ensures i <= at <= |s| && (at < |s| ==> s[at] == c)
    decreases |s| - i
  {
    if i == |s| || s[i] == c then i else FindChar(s, c, i + 1)
  }

  lemma {:induction false} FindCharIs(s: string, c: char, i: nat, at: nat)
    requires i <= at < |s| && s[at] == c && forall k :: i <= k < at ==> s[k] != c
    ensures FindChar(s, c, i) == at
    decreases at - i
  {
    if i < at { FindCharIs(s, c, i + 1, at); }
  }

  lemma {:induction false} FindCharSkips(s: string, c: char, i: nat)
    requires i <= |s|
    ensures forall k :: i <= k < FindChar(s, c, i) ==> s[k] != c
    decreases |s| - i
  {
    if i < |s| && s[i] != c { FindCharSkips(s, c, i + 1); }
  }

  method Find(s: string, c: char, from: nat) returns (at: nat)
    requires from <= |s|
    ensures at == FindChar(s, c, from)
  {
    at := from;
    while at < |s| && s[at] != c
      invariant at <= |s| && FindChar(s, c, at) == FindChar(s, c, from)
    {
      at := at + 1;
    }
  }

  lemma SuffixSplits(s: string, i: nat, p: string, q: string)
    requires i <= |s| && s[i..] == p + q
    ensures i + |p| <= |s| && s[i..i + |p|] == p && s[i + |p|..] == q
  {
    assert |s| == i + |p| + |q|;
    assert forall k :: 0 <= k < |p| + |q| ==> s[i + k] == (p + q)[k];
  }

  // ---- ASCII letter case ----

  function LowerChar(c: char): char {
    if 'A' <= c <= 'Z' then (c as int - 'A' as int + 'a' as int) as char else c
  }

  function Lower(s: string): string {
    seq(|s|, i requires 0 <= i < |s| => LowerChar(s[i]))
  }

  // The same text, whatever the case of its letters; name has none in upper case.
  predicate Folds(s: string, name: string) {
    && |s| == |name|
    && forall i :: 0 <= i < |s| ==> s[i] == name[i] || ('A' <= s[i] <= 'Z' && s[i] as int + 32 == name[i] as int)
  }

  lemma FoldsIs(s: string, name: string)
    requires forall i :: 0 <= i < |name| ==> !('A' <= name[i] <= 'Z')
    ensures Folds(s, name) <==> Lower(s) == name
  {
    assert |Lower(s)| == |s|;
    if Lower(s) == name {
      forall i | 0 <= i < |s|
        ensures s[i] == name[i] || ('A' <= s[i] <= 'Z' && s[i] as int + 32 == name[i] as int)
      {
        assert Lower(s)[i] == LowerChar(s[i]);
      }
    }
  }

  function LowerAll(ls: seq<string>): seq<string> {
    seq(|ls|, i requires 0 <= i < |ls| => Lower(ls[i]))
  }

  lemma {:induction false} LowerJoin(ls: seq<string>, sep: char)
    requires LowerChar(sep) == sep
    ensures Join(LowerAll(ls), sep) == Lower(Join(ls, sep))
  {
    if |ls| > 1 {
      LowerJoin(ls[1..], sep);
      assert LowerAll(ls)[1..] == LowerAll(ls[1..]);
      assert Lower(ls[0] + [sep] + Join(ls[1..], sep)) == Lower(ls[0]) + [sep] + Lower(Join(ls[1..], sep));
    }
  }

  lemma LowerLacks(s: string, c: char)
    requires LowerChar(c) == c && c !in s && !('a' <= c <= 'z')
    ensures c !in Lower(s)
  {
    forall k | 0 <= k < |s| ensures Lower(s)[k] != c { assert s[k] != c; }
  }

  /** Splitting does not mind the letter case. */
  lemma LowerSplit(s: string, sep: char)
    requires LowerChar(sep) == sep && !('a' <= sep <= 'z')
    ensures Split(Lower(s), sep) == LowerAll(Split(s, sep))
  {
    var ls := Split(s, sep);
    JoinSplit(s, sep);
    LowerJoin(ls, sep);
    forall k | 0 <= k < |ls| ensures sep !in LowerAll(ls)[k] { LowerLacks(ls[k], sep); }
    SplitJoin(LowerAll(ls), sep);
  }
}
