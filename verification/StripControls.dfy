/** strip_controls (src/domain.cpp): a lenient UTF-8 decoder, a filter and an encoder, with a
fast path that returns the input itself when nothing in it is banned. */
module StripControls {
  type Bytes = seq<bv8>
  type CodePoint = bv32

  // ---- decode_utf8, banned_codepoint, encode_utf8 ----

  // The payload of the byte at i, or 0 past the end.
  function Cont(s: Bytes, i: nat): bv32 {
    if i < |s| then s[i] as bv32 & 0x3F else 0
  }

  // How many bytes a lead byte claims; a byte that leads nothing stands alone.
  function Width(lead: bv8): (n: nat)
    ensures 1 <= n <= 4
  {
    if lead < 0x80 then 1
    else if lead & 0xE0 == 0xC0 then 2
    else if lead & 0xF0 == 0xE0 then 3
    else if lead & 0xF8 == 0xF0 then 4
    else 1
  }

  // The code point of a lead byte and the payloads that follow it.
  function Assemble(lead: bv8, c1: bv32, c2: bv32, c3: bv32): CodePoint {
    var b := lead as bv32;
    if lead < 0x80 then b
    else if lead & 0xE0 == 0xC0 then ((b & 0x1F) << 6) | c1
    else if lead & 0xF0 == 0xE0 then ((b & 0x0F) << 12) | (c1 << 6) | c2
    else if lead & 0xF8 == 0xF0 then ((b & 0x07) << 18) | (c1 << 12) | (c2 << 6) | c3
    else b
  }

  function PointAt(s: Bytes, i: nat): CodePoint
    requires i < |s|
  {
    Assemble(s[i], Cont(s, i + 1), Cont(s, i + 2), Cont(s, i + 3))
  }

  predicate Banned(c: CodePoint) {
    || c < 0x20
    || 0x7F <= c <= 0x9F
    || 0x202A <= c <= 0x202E
    || 0x2066 <= c <= 0x2069
    || 0x200B <= c <= 0x200D
    || c == 0xFEFF
  }

  // static_cast<char>: the low byte.
  function Low(x: bv32): bv8 {
    (x & 0xFF) as bv8
  }

  // A continuation byte: the low six bits of x.
  function Tail(x: bv32): bv8 {
    Low(0x80 | (x & 0x3F))
  }

  function Encode(c: CodePoint): Bytes
  {
    if c < 0x80 then [Low(c)]
    else if c < 0x800 then [Low(0xC0 | (c >> 6)), Tail(c)]
    else if c < 0x1_0000 then [Low(0xE0 | (c >> 12)), Tail(c >> 6), Tail(c)]
    else [Low(0xF0 | (c >> 18)), Tail(c >> 12), Tail(c >> 6), Tail(c)]
  }

  // ---- The specification: whole texts ----

  // The code points from byte i on, as the lenient decoder reads them.
  function Points(s: Bytes, i: nat): seq<CodePoint>
    decreases |s| - i
  {
    if i >= |s| then [] else [PointAt(s, i)] + Points(s, i + Width(s[i]))
  }

  function FlatMap(f: CodePoint -> Bytes, cs: seq<CodePoint>): Bytes {
    if cs == [] then [] else FlatMap(f, cs[..|cs| - 1]) + f(cs[|cs| - 1])
  }

  function EncodeAll(cs: seq<CodePoint>): Bytes {
    FlatMap(Encode, cs)
  }

  function Allowed(cs: seq<CodePoint>): seq<CodePoint> {
    if cs == [] then []
    else
      var before := Allowed(cs[..|cs| - 1]);
      if Banned(cs[|cs| - 1]) then before else before + [cs[|cs| - 1]]
  }

  predicate AnyBanned(cs: seq<CodePoint>) {
    exists i :: 0 <= i < |cs| && Banned(cs[i])
  }

  function Stripped(s: Bytes): Bytes {
    if AnyBanned(Points(s, 0)) then EncodeAll(Allowed(Points(s, 0))) else s
  }

  // ---- The program ----

  method DecodeUtf8(s: Bytes, i: nat) returns (c: CodePoint, next: nat)
    requires i < |s|
    ensures c == PointAt(s, i) && next == i + Width(s[i])
  {
    var b0 := s[i];
    if b0 < 0x80 { return b0 as bv32, i + 1; }
    if b0 & 0xE0 == 0xC0 {
      return ((b0 as bv32 & 0x1F) << 6) | Cont(s, i + 1), i + 2;
    }
    if b0 & 0xF0 == 0xE0 {
      return ((b0 as bv32 & 0x0F) << 12) | (Cont(s, i + 1) << 6) | Cont(s, i + 2), i + 3;
    }
    if b0 & 0xF8 == 0xF0 {
      return ((b0 as bv32 & 0x07) << 18) | (Cont(s, i + 1) << 12) | (Cont(s, i + 2) << 6) | Cont(s, i + 3),
             i + 4;
    }
    return b0 as bv32, i + 1;
  }

  // One more code point read: the step of both loops.
  lemma ReadOne(s: Bytes, i: nat, seen: seq<CodePoint>)
    requires i < |s| && Points(s, 0) == seen + Points(s, i)
    ensures Points(s, 0) == seen + [PointAt(s, i)] + Points(s, i + Width(s[i]))
  {}

  lemma ReadAll(s: Bytes, i: nat, seen: seq<CodePoint>)
    requires i >= |s| && Points(s, 0) == seen + Points(s, i)
    ensures Points(s, 0) == seen
  {}

  method FindBanned(s: Bytes) returns (any: bool)
    ensures any <==> AnyBanned(Points(s, 0))
  {
    var i := 0;
    ghost var seen: seq<CodePoint> := [];
    while i < |s|
      invariant Points(s, 0) == seen + Points(s, i)
      invariant !AnyBanned(seen)
      decreases |s| - i
    {
      ReadOne(s, i, seen);
      var c, next := DecodeUtf8(s, i);
      if Banned(c) {
        assert Points(s, 0)[|seen|] == c;
        return true;
      }
      seen := seen + [c];
      i := next;
    }
    ReadAll(s, i, seen);
    return false;
  }

  lemma AppendOne(seen: seq<CodePoint>, c: CodePoint)
    ensures EncodeAll(seen + [c]) == EncodeAll(seen) + Encode(c)
    ensures Allowed(seen + [c]) == if Banned(c) then Allowed(seen) else Allowed(seen) + [c]
  {
    assert (seen + [c])[..|seen|] == seen;
  }

  lemma KeepOne(seen: seq<CodePoint>, c: CodePoint)
    ensures EncodeAll(Allowed(seen + [c]))
         == if Banned(c) then EncodeAll(Allowed(seen)) else EncodeAll(Allowed(seen)) + Encode(c)
  {
    AppendOne(seen, c);
    AppendOne(Allowed(seen), c);
  }

  // The slow path.
  method Rebuild(s: Bytes) returns (out: Bytes)
    ensures out == EncodeAll(Allowed(Points(s, 0)))
  {
    out := [];
    var i := 0;
    ghost var seen: seq<CodePoint> := [];
    while i < |s|
      invariant Points(s, 0) == seen + Points(s, i)
      invariant out == EncodeAll(Allowed(seen))
      decreases |s| - i
    {
      ReadOne(s, i, seen);
      var c, next := DecodeUtf8(s, i);
      KeepOne(seen, c);
      if !Banned(c) { out := out + Encode(c); }
      seen := seen + [c];
      i := next;
    }
    ReadAll(s, i, seen);
  }

  method Strip(s: Bytes) returns (out: Bytes)
    ensures out == Stripped(s)
  {
    var any := FindBanned(s);
    if !any { return s; }
    out := Rebuild(s);
  }

  // ---- What stripping means ----

  lemma SixBits(s: Bytes, i: nat)
    ensures Cont(s, i) < 0x40
  {}

  lemma AssembleBound(lead: bv8, c1: bv32, c2: bv32, c3: bv32)
    requires c1 < 0x40 && c2 < 0x40 && c3 < 0x40
    ensures Assemble(lead, c1, c2, c3) < 0x20_0000
  {}

  lemma TailBits(x: bv32)
    ensures Tail(x) as bv32 & 0x3F == x & 0x3F
  {}

  lemma LeadBits2(c: CodePoint, y: bv32, z: bv32)
    requires 0x80 <= c < 0x800
    ensures Width(Low(0xC0 | (c >> 6))) == 2
    ensures Assemble(Low(0xC0 | (c >> 6)), c & 0x3F, y, z) == c
  {}

  lemma LeadBits3(c: CodePoint, z: bv32)
    requires 0x800 <= c < 0x1_0000
    ensures Width(Low(0xE0 | (c >> 12))) == 3
    ensures Assemble(Low(0xE0 | (c >> 12)), (c >> 6) & 0x3F, c & 0x3F, z) == c
  {}

  lemma LeadBits4(c: CodePoint)
    requires 0x1_0000 <= c < 0x20_0000
    ensures Width(Low(0xF0 | (c >> 18))) == 4
    ensures Assemble(Low(0xF0 | (c >> 18)), (c >> 12) & 0x3F, (c >> 6) & 0x3F, c & 0x3F) == c
  {}

  lemma TailRead(s: Bytes, i: nat, x: bv32)
    requires i < |s| && s[i] == Tail(x)
    ensures Cont(s, i) == x & 0x3F
  {
    TailBits(x);
  }

  lemma StandsByteByByte(s: Bytes, i: nat, e: Bytes)
    requires i + |e| <= |s| && s[i..i + |e|] == e
    ensures forall k :: 0 <= k < |e| ==> s[i + k] == e[k]
  {
    forall k | 0 <= k < |e| ensures s[i + k] == e[k] { assert s[i..i + |e|][k] == s[i + k]; }
  }

  // A code point survives encoding, wherever it stands and whatever surrounds it.
  lemma EncodedPoint(c: CodePoint, s: Bytes, i: nat)
    requires c < 0x20_0000
    requires i + |Encode(c)| <= |s| && s[i..i + |Encode(c)|] == Encode(c)
    ensures PointAt(s, i) == c && Width(s[i]) == |Encode(c)|
  {
    var e := Encode(c);
    StandsByteByByte(s, i, e);
    assert s[i + 0] == e[0];
    if c >= 0x1_0000 {
      assert s[i + 1] == e[1] && s[i + 2] == e[2] && s[i + 3] == e[3];
      EncodedPoint4(c, s, i);
    } else if c >= 0x800 {
      assert s[i + 1] == e[1] && s[i + 2] == e[2];
      EncodedPoint3(c, s, i);
    } else if c >= 0x80 {
      assert s[i + 1] == e[1];
      EncodedPoint2(c, s, i);
    }
  }

  lemma EncodedPoint2(c: CodePoint, s: Bytes, i: nat)
    requires 0x80 <= c < 0x800 && i + 2 <= |s|
    requires s[i] == Low(0xC0 | (c >> 6)) && s[i + 1] == Tail(c)
    ensures PointAt(s, i) == c && Width(s[i]) == 2
  {
    TailRead(s, i + 1, c);
    LeadBits2(c, Cont(s, i + 2), Cont(s, i + 3));
  }

  lemma EncodedPoint3(c: CodePoint, s: Bytes, i: nat)
    requires 0x800 <= c < 0x1_0000 && i + 3 <= |s|
    requires s[i] == Low(0xE0 | (c >> 12)) && s[i + 1] == Tail(c >> 6) && s[i + 2] == Tail(c)
    ensures PointAt(s, i) == c && Width(s[i]) == 3
  {
    TailRead(s, i + 1, c >> 6);
    TailRead(s, i + 2, c);
    LeadBits3(c, Cont(s, i + 3));
  }

  lemma EncodedPoint4(c: CodePoint, s: Bytes, i: nat)
    requires 0x1_0000 <= c < 0x20_0000 && i + 4 <= |s|
    requires s[i] == Low(0xF0 | (c >> 18)) && s[i + 1] == Tail(c >> 12)
    requires s[i + 2] == Tail(c >> 6) && s[i + 3] == Tail(c)
    ensures PointAt(s, i) == c && Width(s[i]) == 4
  {
    TailRead(s, i + 1, c >> 12);
    TailRead(s, i + 2, c >> 6);
    TailRead(s, i + 3, c);
    LeadBits4(c);
  }

  predicate Decodable(cs: seq<CodePoint>) {
    forall i :: 0 <= i < |cs| ==> cs[i] < 0x20_0000
  }

  lemma {:induction false} PointsDecodable(s: Bytes, i: nat)
    ensures Decodable(Points(s, i))
    decreases |s| - i
  {
    if i < |s| {
      PointsDecodable(s, i + Width(s[i]));
      SixBits(s, i + 1);
      SixBits(s, i + 2);
      SixBits(s, i + 3);
      AssembleBound(s[i], Cont(s, i + 1), Cont(s, i + 2), Cont(s, i + 3));
    }
  }

  lemma EncodedNext(c: CodePoint, s: Bytes, i: nat, rest: Bytes) returns (next: nat)
    requires c < 0x20_0000 && i <= |s| && s[i..] == Encode(c) + rest
    ensures i < next <= |s| && s[next..] == rest
    ensures PointAt(s, i) == c && i + Width(s[i]) == next
  {
    var e := Encode(c);
    next := i + |e|;
    assert s[i..next] == s[i..][..|e|] == e;
    assert s[next..] == s[i..][|e|..] == rest;
    EncodedPoint(c, s, i);
  }

  // Reading a text that ends with encoded code points gets to them.
  lemma {:induction false} DecodesEncoded(s: Bytes, i: nat, cs: seq<CodePoint>)
    requires Decodable(cs) && i <= |s| && s[i..] == FlatFront(Encode, cs)
    ensures Points(s, i) == cs
    decreases |cs|
  {
    if cs != [] {
      var next := EncodedNext(cs[0], s, i, FlatFront(Encode, cs[1..]));
      DecodesEncoded(s, next, cs[1..]);
      PointFirst(s, i, cs[0], next, cs[1..]);
      assert cs == [cs[0]] + cs[1..];
    }
  }

  lemma PointFirst(s: Bytes, i: nat, c: CodePoint, next: nat, cs: seq<CodePoint>)
    requires i < |s| && PointAt(s, i) == c && next == i + Width(s[i]) && Points(s, next) == cs
    ensures Points(s, i) == [c] + cs
  {
  }

  // FlatMap, from the front.
  function FlatFront(f: CodePoint -> Bytes, cs: seq<CodePoint>): Bytes {
    if cs == [] then [] else f(cs[0]) + FlatFront(f, cs[1..])
  }

  lemma {:induction false} FrontSnoc(f: CodePoint -> Bytes, cs: seq<CodePoint>, c: CodePoint)
    ensures FlatFront(f, cs + [c]) == FlatFront(f, cs) + f(c)
  {
    if cs == [] {
      assert cs + [c] == [c];
    } else {
      FrontSnoc(f, cs[1..], c);
      assert (cs + [c])[1..] == cs[1..] + [c];
    }
  }

  lemma {:induction false} FrontIsFlat(f: CodePoint -> Bytes, cs: seq<CodePoint>)
    ensures FlatFront(f, cs) == FlatMap(f, cs)
  {
    if cs != [] {
      var n := |cs| - 1;
      FrontIsFlat(f, cs[..n]);
      FrontSnoc(f, cs[..n], cs[n]);
      assert cs == cs[..n] + [cs[n]];
    }
  }

  lemma RoundTrip(cs: seq<CodePoint>)
    requires Decodable(cs)
    ensures Points(EncodeAll(cs), 0) == cs
  {
    FrontIsFlat(Encode, cs);
    DecodesEncoded(EncodeAll(cs), 0, cs);
  }

  lemma {:induction false} AllowedOnly(cs: seq<CodePoint>)
    ensures !AnyBanned(Allowed(cs))
    ensures Decodable(cs) ==> Decodable(Allowed(cs))
    ensures !AnyBanned(cs) ==> Allowed(cs) == cs
  {
    if cs != [] {
      AllowedOnly(cs[..|cs| - 1]);
      assert cs == cs[..|cs| - 1] + [cs[|cs| - 1]];
    }
  }

  /** For every byte string, well-formed or not: the result decodes to exactly the code points of
  the input with the banned ones left out, on the fast path and on the slow one. */
  lemma StripRemovesExactlyBanned(s: Bytes)
    ensures Points(Stripped(s), 0) == Allowed(Points(s, 0))
  {
    PointsDecodable(s, 0);
    AllowedOnly(Points(s, 0));
    RoundTrip(Allowed(Points(s, 0)));
  }

  /** The result holds nothing banned, and stripping it again changes nothing. */
  lemma StripIdempotent(s: Bytes)
    ensures !ReadsHostile(Stripped(s))
    ensures Stripped(Stripped(s)) == Stripped(s)
  {
    StripRemovesExactlyBanned(s);
    AllowedOnly(Points(s, 0));
  }

  // ---- Well-formed texts (section 3 of RFC 3629) ----

  predicate Scalar(c: CodePoint) {
    c <= 0x10_FFFF && !(0xD800 <= c <= 0xDFFF)
  }

  predicate Scalars(cs: seq<CodePoint>) {
    forall i :: 0 <= i < |cs| ==> Scalar(cs[i])
  }

  /** On the encoding of any characters the byte result is the encoding of the kept ones: here
  the two paths agree byte for byte. */
  lemma StripWellFormed(cs: seq<CodePoint>)
    requires Scalars(cs)
    ensures Stripped(EncodeAll(cs)) == EncodeAll(Allowed(cs))
  {
    RoundTrip(cs);
    AllowedOnly(cs);
  }

  // ---- Which characters go ----

  /** The characters that are hostile to a terminal: C0 and DEL, C1, the bidi embeddings, overrides and isolates, the
  zero-width space, non-joiner and joiner, and the byte order mark. */
  predicate TerminalHostile(c: CodePoint) {
    || 0x00 <= c <= 0x1F || c == 0x7F
    || 0x80 <= c <= 0x9F
    || c in {0x202A, 0x202B, 0x202C, 0x202D, 0x202E}
    || c in {0x2066, 0x2067, 0x2068, 0x2069}
    || c in {0x200B, 0x200C, 0x200D}
    || c == 0xFEFF
  }

  lemma BannedIsHostile(c: CodePoint)
    ensures Banned(c) <==> TerminalHostile(c)
  {}

  /** A character is taken away exactly when it is one of those, and left as it is otherwise. */
  lemma CharacterGoesExactlyWhen(c: CodePoint)
    requires Scalar(c)
    ensures Stripped(Encode(c)) == if TerminalHostile(c) then [] else Encode(c)
  {
    var cs: seq<CodePoint> := [c];
    BannedIsHostile(c);
    StripWellFormed(cs);
    assert cs[..0] == [] && cs[0] == c;
    assert FlatMap(Encode, cs) == [] + Encode(c) == Encode(c);
    assert Allowed(cs[..0]) == [];
    assert [] + [c] == cs;
  }

  lemma NoneBanned(cs: seq<CodePoint>)
    ensures AnyBanned(cs) <==> exists i :: 0 <= i < |cs| && TerminalHostile(cs[i])
  {
    forall i | 0 <= i < |cs| ensures Banned(cs[i]) <==> TerminalHostile(cs[i]) { BannedIsHostile(cs[i]); }
  }

  /** So any text of other characters comes back byte for byte. */
  lemma HarmlessUnchanged(cs: seq<CodePoint>)
    requires Scalars(cs) && forall i :: 0 <= i < |cs| ==> !TerminalHostile(cs[i])
    ensures Stripped(EncodeAll(cs)) == EncodeAll(cs)
  {
    NoneBanned(cs);
    AllowedOnly(cs);
    StripWellFormed(cs);
  }

  lemma Regrouped<T>(a: seq<T>, b: seq<T>, c: seq<T>)
    ensures (a + b) + c == a + (b + c)
  {}

  lemma AllowedSnoc(cs: seq<CodePoint>, c: CodePoint)
    ensures Allowed(cs + [c]) == if Banned(c) then Allowed(cs) else Allowed(cs) + [c]
  {
    assert (cs + [c])[..|cs|] == cs;
  }

  lemma {:induction false} AllowedConcat(cs: seq<CodePoint>, ds: seq<CodePoint>)
    ensures Allowed(cs + ds) == Allowed(cs) + Allowed(ds)
  {
    if ds == [] {
      assert cs + ds == cs;
    } else {
      var n := |ds| - 1;
      AllowedConcat(cs, ds[..n]);
      assert cs + ds == (cs + ds[..n]) + [ds[n]] && ds == ds[..n] + [ds[n]];
      AllowedSnoc(cs + ds[..n], ds[n]);
      AllowedSnoc(ds[..n], ds[n]);
      Regrouped(Allowed(cs), Allowed(ds[..n]), [ds[n]]);
    }
  }

  lemma {:induction false} FlatConcat(f: CodePoint -> Bytes, cs: seq<CodePoint>, ds: seq<CodePoint>)
    ensures FlatMap(f, cs + ds) == FlatMap(f, cs) + FlatMap(f, ds)
  {
    if ds == [] {
      assert cs + ds == cs && FlatMap(f, cs) + [] == FlatMap(f, cs);
    } else {
      var n := |ds| - 1;
      FlatConcat(f, cs, ds[..n]);
      assert (cs + ds)[..|cs| + n] == cs + ds[..n] && (cs + ds)[|cs| + n] == ds[n];
      Regrouped(FlatMap(f, cs), FlatMap(f, ds[..n]), f(ds[n]));
    }
  }

  /** And any text is stripped piece by piece, in its order. */
  lemma PieceByPiece(cs: seq<CodePoint>, ds: seq<CodePoint>)
    requires Scalars(cs) && Scalars(ds)
    ensures Stripped(EncodeAll(cs + ds)) == Stripped(EncodeAll(cs)) + Stripped(EncodeAll(ds))
  {
    StripWellFormed(cs);
    StripWellFormed(ds);
    StripWellFormed(cs + ds);
    AllowedConcat(cs, ds);
    FlatConcat(Encode, Allowed(cs), Allowed(ds));
  }

  // ---- The decoder in numbers ----

  // What byte k of s carries as one that continues another: its value modulo 64, or 0 past the end.
  function Carried(s: Bytes, k: nat): bv32 { if k < |s| then s[k] as bv32 % 64 else 0 }

  // A lead byte and what the bytes after it carry.
  function InNumbers(lead: bv8, c1: bv32, c2: bv32, c3: bv32): CodePoint {
    var b := lead as bv32;
    if 0xC0 <= lead < 0xE0 then (b - 0xC0) * 64 + c1
    else if 0xE0 <= lead < 0xF0 then ((b - 0xE0) * 64 + c1) * 64 + c2
    else if 0xF0 <= lead < 0xF8 then (((b - 0xF0) * 64 + c1) * 64 + c2) * 64 + c3
    else b
  }

  /** The lenient decoder on any bytes: a byte below 0x80, a stray one from 0x80 to 0xBF, or one from 0xF8 on stands for
  itself; one from 0xC0, 0xE0 or 0xF0 on takes the one, two or three bytes after it, whatever they are, for six bits
  each. */
  lemma DecodesLeniently(s: Bytes, i: nat)
    requires i < |s|
    ensures PointAt(s, i) == InNumbers(s[i], Carried(s, i + 1), Carried(s, i + 2), Carried(s, i + 3))
    ensures Width(s[i]) == if 0xC0 <= s[i] < 0xE0 then 2 else if 0xE0 <= s[i] < 0xF0 then 3
                           else if 0xF0 <= s[i] < 0xF8 then 4 else 1
  {
    LeadRanges(s[i]);
    CarriedIs(s, i + 1);
    CarriedIs(s, i + 2);
    CarriedIs(s, i + 3);
    AssembledAs(s[i], Cont(s, i + 1), Cont(s, i + 2), Cont(s, i + 3));
  }

  lemma CarriedIs(s: Bytes, k: nat)
    ensures Cont(s, k) == Carried(s, k) < 0x40
  {}

  lemma LeadRanges(lead: bv8)
    ensures Width(lead) == if 0xC0 <= lead < 0xE0 then 2 else if 0xE0 <= lead < 0xF0 then 3
                           else if 0xF0 <= lead < 0xF8 then 4 else 1
  {}

  lemma AssembledAs(lead: bv8, c1: bv32, c2: bv32, c3: bv32)
    requires c1 < 0x40 && c2 < 0x40 && c3 < 0x40
    ensures Assemble(lead, c1, c2, c3) == InNumbers(lead, c1, c2, c3)
  {
    if 0xC0 <= lead < 0xE0 {
      LeadsTwo(lead, c1, c2, c3);
    } else if 0xE0 <= lead < 0xF0 {
      LeadsThree(lead, c1, c2, c3);
    } else if 0xF0 <= lead < 0xF8 {
      LeadsFour(lead, c1, c2, c3);
    } else {
      LeadsNone(lead, c1, c2, c3);
    }
  }

  lemma LeadsTwo(lead: bv8, c1: bv32, c2: bv32, c3: bv32)
    requires 0xC0 <= lead < 0xE0 && c1 < 0x40
    ensures Assemble(lead, c1, c2, c3) == (lead as bv32 - 0xC0) * 64 + c1
  {}

  lemma LeadsThree(lead: bv8, c1: bv32, c2: bv32, c3: bv32)
    requires 0xE0 <= lead < 0xF0 && c1 < 0x40 && c2 < 0x40
    ensures Assemble(lead, c1, c2, c3) == ((lead as bv32 - 0xE0) * 64 + c1) * 64 + c2
  {}

  lemma LeadsFour(lead: bv8, c1: bv32, c2: bv32, c3: bv32)
    requires 0xF0 <= lead < 0xF8 && c1 < 0x40 && c2 < 0x40 && c3 < 0x40
    ensures Assemble(lead, c1, c2, c3) == (((lead as bv32 - 0xF0) * 64 + c1) * 64 + c2) * 64 + c3
  {}

  lemma LeadsNone(lead: bv8, c1: bv32, c2: bv32, c3: bv32)
    requires lead < 0xC0 || lead >= 0xF8
    ensures Assemble(lead, c1, c2, c3) == lead as bv32
  {}

  // ---- What a decoder that resynchronises may find ----

  // The bytes e stand at position i of s.
  predicate StandsAt(s: Bytes, i: nat, e: Bytes) {
    i + |e| <= |s| && s[i..i + |e|] == e
  }

  /** Somewhere in s stand the bytes of a character hostile to a terminal, aligned with the lenient decoder or
  not. */
  ghost predicate Hostile(s: Bytes) {
    exists i, c :: TerminalHostile(c) && StandsAt(s, i, Encode(c))
  }

  predicate IsTail(b: bv8) { b & 0xC0 == 0x80 }

  lemma TailIsTail(x: bv32)
    ensures IsTail(Tail(x))
  {}

  lemma EncodeHead(c: CodePoint)
    requires c < 0x20_0000
    ensures !IsTail(Encode(c)[0])
  {}

  lemma EncodeTails(c: CodePoint, k: nat)
    requires 0 < k < |Encode(c)|
    ensures IsTail(Encode(c)[k])
  {
    TailIsTail(c);
    TailIsTail(c >> 6);
    TailIsTail(c >> 12);
  }

  // Encodings of allowed code points hold no banned one's, at any offset.
  lemma {:induction false} NoneStands(s: Bytes, i: nat, cs: seq<CodePoint>, j: nat, c: CodePoint)
    requires Decodable(cs) && !AnyBanned(cs) && Banned(c)
    requires i <= |s| && s[i..] == FlatFront(Encode, cs) && i <= j
    ensures !StandsAt(s, j, Encode(c))
    decreases |cs|
  {
    if cs != [] {
      var next := EncodedNext(cs[0], s, i, FlatFront(Encode, cs[1..]));
      if j == i {
        SamePlace(s, i, cs[0], c);
      } else if j < next {
        InsidePlace(s, i, cs[0], next, j, c);
      } else {
        assert !AnyBanned(cs[1..]) by { assert forall k :: 0 <= k < |cs[1..]| ==> cs[1..][k] == cs[k + 1]; }
        NoneStands(s, next, cs[1..], j, c);
      }
    }
  }

  lemma SamePlace(s: Bytes, i: nat, c: CodePoint, d: CodePoint)
    requires c < 0x20_0000 && d < 0x20_0000 && i < |s| && PointAt(s, i) == c && c != d
    ensures !StandsAt(s, i, Encode(d))
  {
    if StandsAt(s, i, Encode(d)) { EncodedPoint(d, s, i); }
  }

  lemma InsidePlace(s: Bytes, i: nat, c: CodePoint, next: nat, j: nat, d: CodePoint)
    requires d < 0x20_0000 && i < j < next == i + |Encode(c)| && StandsAt(s, i, Encode(c))
    ensures !StandsAt(s, j, Encode(d))
  {
    EncodeTails(c, j - i);
    EncodeHead(d);
    assert s[j] == s[i..next][j - i];
    if j + |Encode(d)| <= |s| { assert s[j..j + |Encode(d)|][0] == s[j]; }
  }

  ghost predicate Holds(s: Bytes, c: CodePoint) {
    exists i :: StandsAt(s, i, Encode(c))
  }

  // The decoder reads a hostile character in s.
  predicate ReadsHostile(s: Bytes) {
    exists i :: 0 <= i < |Points(s, 0)| && TerminalHostile(Points(s, 0)[i])
  }

  /** A hostile character's bytes are left in the result exactly when they stood in the input and the
  decoder reads nothing hostile in it: only then is the text not rebuilt. */
  lemma SurvivesExactlyWhen(s: Bytes, c: CodePoint)
    requires TerminalHostile(c)
    ensures Holds(Stripped(s), c) <==> Holds(s, c) && !ReadsHostile(s)
  {
    BannedIsHostile(c);
    NoneBanned(Points(s, 0));
    if AnyBanned(Points(s, 0)) {
      var cs := Allowed(Points(s, 0));
      PointsDecodable(s, 0);
      AllowedOnly(Points(s, 0));
      FrontIsFlat(Encode, cs);
      var t := EncodeAll(cs);
      assert t[0..] == t;
      forall j: nat ensures !StandsAt(t, j, Encode(c)) {
        NoneStands(t, 0, cs, j, c);
      }
    }
  }

  /** So the promise that nothing terminal-hostile is left holds exactly when nothing hostile stood in
  the input, or the decoder reads something banned in it. */
  lemma HostileSurvivesExactlyWhen(s: Bytes)
    ensures Hostile(Stripped(s)) <==> Hostile(s) && !ReadsHostile(s)
  {
    if Hostile(Stripped(s)) {
      var i, c :| TerminalHostile(c) && StandsAt(Stripped(s), i, Encode(c));
      assert Holds(Stripped(s), c);
      SurvivesExactlyWhen(s, c);
    }
  }

  /** Three inputs it is left in: a control byte read as payload, a C1 control and a bidi override that
  a lead byte before them has swallowed. */
  lemma SwallowedControlSurvives()
    ensures var s: Bytes := [0xC3, 0x07];
      Stripped(s) == s && StandsAt(s, 1, Encode(0x07)) && TerminalHostile(0x07)
  {
    var s: Bytes := [0xC3, 0x07];
    assert Points(s, 2) == [];
    assert PointAt(s, 0) == 0xC7 && Width(s[0]) == 2;
    assert Points(s, 0) == [0xC7];
  }

  lemma SwallowedC1Survives()
    ensures var s: Bytes := [0xE3, 0xC2, 0x9B];
      Stripped(s) == s && StandsAt(s, 1, Encode(0x9B)) && TerminalHostile(0x9B)
  {
    var s: Bytes := [0xE3, 0xC2, 0x9B];
    assert Points(s, 3) == [];
    assert PointAt(s, 0) == 0x309B && Width(s[0]) == 3;
    assert Points(s, 0) == [0x309B];
  }

  lemma SwallowedBidiSurvives()
    ensures var s: Bytes := [0xF3, 0xE2, 0x80, 0xAE];
      Stripped(s) == s && StandsAt(s, 1, Encode(0x202E)) && TerminalHostile(0x202E)
  {
    var s: Bytes := [0xF3, 0xE2, 0x80, 0xAE];
    assert Points(s, 4) == [];
    assert PointAt(s, 0) == 0xE202E && Width(s[0]) == 4;
    assert Points(s, 0) == [0xE202E];
  }
}
