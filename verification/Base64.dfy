/** The Base64 codec (src/crypto.cpp): a bit accumulator over a wrapping 32-bit word decodes what
a three-byte block encoder writes (sections 4 and 5 of RFC 4648). */
module Base64 {
  import opened Numerals

  type byte = b: int | 0 <= b < 256
  type sextet = v: int | 0 <= v < 64

  type Bytes = seq<byte>
  type Sextets = seq<sextet>

  // The two decoders of the program differ in their alphabet only.
  datatype Alphabet = Standard | Url

  predicate IsSpace(c: byte) {
    c == 0x20 || c == 0x0A || c == 0x0D || c == 0x09
  }

  const PAD: byte := 0x3D

  function Digit62(a: Alphabet): byte { if a == Standard then 0x2B else 0x2D }

  function Digit63(a: Alphabet): byte { if a == Standard then 0x2F else 0x5F }

  predicate InAlphabet(a: Alphabet, c: byte) {
    0x41 <= c <= 0x5A || 0x61 <= c <= 0x7A || 0x30 <= c <= 0x39 || c == Digit62(a) || c == Digit63(a)
  }

  function SextetOf(a: Alphabet, c: byte): sextet
    requires InAlphabet(a, c)
  {
    if 0x41 <= c <= 0x5A then c - 0x41
    else if 0x61 <= c <= 0x7A then c - 0x61 + 26
    else if 0x30 <= c <= 0x39 then c - 0x30 + 52
    else if c == Digit62(a) then 62 else 63
  }

  // kB64[v]: A-Z, a-z, 0-9, +, /.
  function Symbol(v: sextet): byte
  {
    if v < 26 then 0x41 + v
    else if v < 52 then 0x61 + (v - 26)
    else if v < 62 then 0x30 + (v - 52)
    else if v == 62 then 0x2B else 0x2F
  }

  // ---- The specification: four sextets to three bytes ----

  // The sextets a text spells, spaces and padding left out.
  function SextetsIn(a: Alphabet, s: Bytes): Sextets
  {
    if s == [] then []
    else
      var before := SextetsIn(a, s[..|s| - 1]);
      if InAlphabet(a, s[|s| - 1]) then before + [SextetOf(a, s[|s| - 1])] else before
  }

  // The three bytes that four sextets spell, each from the two sextets it overlaps.
  function Byte0(v0: int, v1: int): (b: int)
    requires 0 <= v0 < 64 && 0 <= v1 < 64
    ensures 0 <= b < 256
  {
    v0 * 4 + v1 / 16
  }

  function Byte1(v1: int, v2: int): (b: int)
    requires 0 <= v1 < 64 && 0 <= v2 < 64
    ensures 0 <= b < 256
  {
    v1 % 16 * 16 + v2 / 4
  }

  function Byte2(v2: int, v3: int): (b: int)
    requires 0 <= v2 < 64 && 0 <= v3 < 64
    ensures 0 <= b < 256
  {
    v2 % 4 * 64 + v3
  }

  // The sextets of a group not yet complete.
  datatype Partial = Nothing | One(x: sextet) | Two(x: sextet, y: sextet) | Three(x: sextet, y: sextet, z: sextet)

  function Feed(p: Partial, v: sextet): Partial {
    match p
    case Nothing => One(v)
    case One(x) => Two(x, v)
    case Two(x, y) => Three(x, y, v)
    case Three(_, _, _) => Nothing
  }

  // The byte a further sextet completes, if any.
  function Yield(p: Partial, v: sextet): Bytes {
    match p
    case Nothing => []
    case One(x) => [Byte0(x, v)]
    case Two(_, y) => [Byte1(y, v)]
    case Three(_, _, z) => [Byte2(z, v)]
  }

  function LeftOver(vs: Sextets): Partial {
    if vs == [] then Nothing else Feed(LeftOver(vs[..|vs| - 1]), vs[|vs| - 1])
  }

  // The bytes a list of sextets spells; bits short of a byte are dropped.
  function BytesOf(vs: Sextets): Bytes {
    if vs == [] then []
    else BytesOf(vs[..|vs| - 1]) + Yield(LeftOver(vs[..|vs| - 1]), vs[|vs| - 1])
  }

  // Only digits, spaces and padding, and no digit once padding has begun.
  predicate WellShaped(a: Alphabet, s: Bytes) {
    && (forall i :: 0 <= i < |s| ==> IsSpace(s[i]) || s[i] == PAD || InAlphabet(a, s[i]))
    && (forall i, j :: 0 <= i < j < |s| && s[i] == PAD ==> !InAlphabet(a, s[j]))
  }

  function Decoded(a: Alphabet, s: Bytes): Option<Bytes> {
    if WellShaped(a, s) && |SextetsIn(a, s)| % 4 != 1 then Some(BytesOf(SextetsIn(a, s))) else None
  }

  lemma {:induction false} LeftOverCount(vs: Sextets)
    ensures LeftOver(vs).Nothing? <==> |vs| % 4 == 0
    ensures LeftOver(vs).One? <==> |vs| % 4 == 1
    ensures LeftOver(vs).Two? <==> |vs| % 4 == 2
  {
    if vs != [] { LeftOverCount(vs[..|vs| - 1]); }
  }

  lemma BytesSnoc(vs: Sextets, v: sextet)
    ensures BytesOf(vs + [v]) == BytesOf(vs) + Yield(LeftOver(vs), v)
    ensures LeftOver(vs + [v]) == Feed(LeftOver(vs), v)
  {
    assert (vs + [v])[..|vs|] == vs;
  }

  // ---- The accumulator ----
  //
  // A 32-bit word: a shift left by six drops what passes bit 31. Shifts and masks are written as
  // products, quotients and remainders.

  // acc = (acc << 6) | v
  function ShiftedIn(acc: int, v: int): (w: int)
    ensures 0 <= w < 0x1_0000_0000
  {
    (acc * 64 + v) % 0x1_0000_0000
  }

  // (acc >> bits) & 0xFF, for the left-over bit counts that occur.
  function Emitted(acc: int, bits: nat): (b: int)
    ensures 0 <= b < 256
  {
    if bits == 4 then acc / 16 % 256
    else if bits == 2 then acc / 4 % 256
    else acc % 256
  }

  // Three sextets side by side.
  function Group(x: int, y: int, z: int): int {
    x * 4096 + y * 64 + z
  }

  // What the accumulator's low bits, and the count of those not yet emitted, must be.
  predicate Holds(acc: int, bits: nat, p: Partial) {
    match p
    case Nothing => bits == 0
    case One(x) => bits == 6 && acc % 64 == x
    case Two(x, y) => bits == 4 && acc % 4096 == Group(0, x, y)
    case Three(x, y, z) => bits == 2 && acc % 262144 == Group(x, y, z)
  }

  // Shifting in the second sextet of a group completes its first byte, and so on: what the
  // 32-bit shift pushes out at the top was emitted long before.
  lemma First(acc: int, v: int)
    requires 0 <= v < 64
    ensures ShiftedIn(acc, v) % 64 == v
  {
    Truncation(acc * 64 + v, 64);
    Remainder(acc * 64 + v, 64, acc, v);
  }

  lemma Second(acc: int, x: int, v: int)
    requires acc % 64 == x && 0 <= v < 64
    ensures ShiftedIn(acc, v) % 4096 == Group(0, x, v)
    ensures Emitted(ShiftedIn(acc, v), 4) == Byte0(x, v)
  {
    Truncation(acc * 64 + v, 4096);
    Remainder(acc * 64 + v, 4096, acc / 64, x * 64 + v);
    SecondByte(ShiftedIn(acc, v), x, v);
  }

  lemma SecondByte(w: int, x: int, v: int)
    requires w % 4096 == Group(0, x, v) && 0 <= x < 64 && 0 <= v < 64
    ensures Emitted(w, 4) == Byte0(x, v)
  {
    Remainder(w, 16, w / 4096 * 256 + Byte0(x, v), v % 16);
    Remainder(w / 16, 256, w / 4096, Byte0(x, v));
  }

  lemma Third(acc: int, x: int, y: int, v: int)
    requires acc % 4096 == Group(0, x, y) && 0 <= x < 64 && 0 <= y < 64 && 0 <= v < 64
    ensures ShiftedIn(acc, v) % 262144 == Group(x, y, v)
    ensures Emitted(ShiftedIn(acc, v), 2) == Byte1(y, v)
  {
    ThirdShifted(acc, x, y, v);
    ThirdByte(ShiftedIn(acc, v), x, y, v);
  }

  lemma ThirdShifted(acc: int, x: int, y: int, v: int)
    requires acc % 4096 == Group(0, x, y) && 0 <= x < 64 && 0 <= y < 64 && 0 <= v < 64
    ensures ShiftedIn(acc, v) % 262144 == Group(x, y, v)
  {
    ShiftedAsGroup(acc, acc / 4096, x, y, v);
  }

  lemma ShiftedAsGroup(acc: int, q: int, x: int, y: int, v: int)
    requires acc == q * 4096 + Group(0, x, y) && 0 <= x < 64 && 0 <= y < 64 && 0 <= v < 64
    ensures ShiftedIn(acc, v) % 262144 == Group(x, y, v)
  {
    SixLeft(acc, q, x, y, v);
    LowEighteen(acc, v, acc * 64 + v, q, Group(x, y, v));
  }

  lemma SixLeft(acc: int, q: int, x: int, y: int, v: int)
    requires acc == q * 4096 + Group(0, x, y) && 0 <= x < 64 && 0 <= y < 64 && 0 <= v < 64
    ensures acc * 64 + v == q * 262144 + Group(x, y, v) && 0 <= Group(x, y, v) < 262144
  {}

  lemma LowEighteen(acc: int, v: int, n: int, q: int, r: int)
    requires n == acc * 64 + v && n == q * 262144 + r && 0 <= r < 262144
    ensures ShiftedIn(acc, v) % 262144 == r
  {
    Truncation(n, 262144);
    Remainder(n, 262144, q, r);
  }

  lemma ThirdByte(w: int, x: int, y: int, v: int)
    requires w % 262144 == Group(x, y, v) && 0 <= x < 64 && 0 <= y < 64 && 0 <= v < 64
    ensures Emitted(w, 2) == Byte1(y, v)
  {
    Remainder(w, 4, w / 262144 * 65536 + x * 1024 + y * 16 + v / 4, v % 4);
    Remainder(w / 4, 256, w / 262144 * 256 + x * 4 + y / 16, Byte1(y, v));
  }

  lemma Fourth(acc: int, x: int, y: int, z: int, v: int)
    requires acc % 262144 == Group(x, y, z)
    requires 0 <= x < 64 && 0 <= y < 64 && 0 <= z < 64 && 0 <= v < 64
    ensures Emitted(ShiftedIn(acc, v), 0) == Byte2(z, v)
  {
    LastLeft(acc, acc / 262144, x, y, z, v);
    LowEight(acc, v, acc * 64 + v, acc / 262144 * 65536 + x * 1024 + y * 16 + z / 4, Byte2(z, v));
  }

  lemma LastLeft(acc: int, q: int, x: int, y: int, z: int, v: int)
    requires acc == q * 262144 + Group(x, y, z) && 0 <= z < 64 && 0 <= v < 64
    ensures acc * 64 + v == (q * 65536 + x * 1024 + y * 16 + z / 4) * 256 + Byte2(z, v)
  {}

  lemma LowEight(acc: int, v: int, n: int, q: int, r: int)
    requires n == acc * 64 + v && n == q * 256 + r && 0 <= r < 256
    ensures Emitted(ShiftedIn(acc, v), 0) == r
  {
    Truncation(n, 256);
    Remainder(n, 256, q, r);
  }

  lemma Remainder(n: int, k: int, q: int, r: int)
    requires k > 0 && 0 <= r < k && n == q * k + r
    ensures n / k == q && n % k == r
  {
    var d := n / k - q;
    assert d * k == r - n % k;
    assert d >= 1 ==> d * k >= k;
    assert d <= -1 ==> d * k <= -k;
  }

  // The low bits outlive the truncation to 32.
  lemma Truncation(n: int, m: int)
    requires m == 64 || m == 256 || m == 4096 || m == 262144
    ensures n % 0x1_0000_0000 % m == n % m
  {
    var q, r := n / 0x1_0000_0000, n % 0x1_0000_0000;
    var d, e := r / m, r % m;
    if m == 64 {
      Remainder(n, 64, q * 0x400_0000 + d, e);
    } else if m == 256 {
      Remainder(n, 256, q * 0x100_0000 + d, e);
    } else if m == 4096 {
      Remainder(n, 4096, q * 0x10_0000 + d, e);
    } else {
      Remainder(n, 262144, q * 0x4000 + d, e);
    }
  }

  // One digit into the accumulator, and the byte out of it when eight bits are there.
  method Shift(acc: int, bits: nat, v: sextet, out: Bytes, ghost p: Partial)
    returns (acc': int, bits': nat, out': Bytes)
    requires Holds(acc, bits, p)
    ensures Holds(acc', bits', Feed(p, v))
    ensures out' == out + Yield(p, v)
  {
    match p {
      case Nothing => First(acc, v);
      case One(x) => Second(acc, x, v);
      case Two(x, y) => Third(acc, x, y, v);
      case Three(x, y, z) => Fourth(acc, x, y, z, v);
    }
    acc', bits', out' := ShiftedIn(acc, v), bits + 6, out;
    if bits' >= 8 {
      bits' := bits' - 8;
      out' := out' + [Emitted(acc', bits')];
    }
  }

  predicate HasPad(s: Bytes) {
    exists i :: 0 <= i < |s| && s[i] == PAD
  }

  lemma SextetsSnoc(a: Alphabet, s: Bytes, c: byte)
    ensures SextetsIn(a, s + [c])
         == if InAlphabet(a, c) then SextetsIn(a, s) + [SextetOf(a, c)] else SextetsIn(a, s)
    ensures WellShaped(a, s + [c])
       <==> WellShaped(a, s) && (IsSpace(c) || c == PAD || (InAlphabet(a, c) && !HasPad(s)))
  {
    var t := s + [c];
    assert t[..|s|] == s;
    assert t[|s|] == c;
    assert forall i :: 0 <= i < |s| ==> t[i] == s[i];
  }

  // What the decoder has seen: a well-shaped text t, spelling vs.
  ghost predicate Seen(a: Alphabet, t: Bytes, vs: Sextets, padded: bool) {
    WellShaped(a, t) && padded == HasPad(t) && vs == SextetsIn(a, t)
  }

  lemma SeeFiller(a: Alphabet, t: Bytes, c: byte, vs: Sextets, padded: bool)
    requires Seen(a, t, vs, padded) && (IsSpace(c) || c == PAD)
    ensures Seen(a, t + [c], vs, padded || c == PAD)
  {
    SextetsSnoc(a, t, c);
    PadSnoc(t, c);
    SpacesAreNoDigits(a, c);
  }

  lemma SeeDigit(a: Alphabet, t: Bytes, c: byte, vs: Sextets)
    requires Seen(a, t, vs, false) && InAlphabet(a, c) && c != PAD
    ensures Seen(a, t + [c], vs + [SextetOf(a, c)], false)
  {
    SextetsSnoc(a, t, c);
    PadSnoc(t, c);
  }

  lemma Rejected(a: Alphabet, s: Bytes, i: nat)
    requires i < |s| && !IsSpace(s[i]) && s[i] != PAD
    requires HasPad(s[..i]) || !InAlphabet(a, s[i])
    ensures !WellShaped(a, s)
  {}

  method Decode(a: Alphabet, s: Bytes) returns (r: Option<Bytes>)
    ensures r == Decoded(a, s)
  {
    var out: Bytes := [];
    var acc, bits, padded := 0, 0, false;
    ghost var vs: Sextets := [];
    for i := 0 to |s|
      invariant Seen(a, s[..i], vs, padded)
      invariant Holds(acc, bits, LeftOver(vs))
      invariant out == BytesOf(vs)
    {
      var c := s[i];
      assert s[..i + 1] == s[..i] + [c];
      if IsSpace(c) || c == PAD {
        SeeFiller(a, s[..i], c, vs, padded);
        padded := padded || c == PAD;
        continue;
      }
      if padded || !InAlphabet(a, c) {
        Rejected(a, s, i);
        return None;
      }
      SeeDigit(a, s[..i], c, vs);
      BytesSnoc(vs, SextetOf(a, c));
      acc, bits, out := Shift(acc, bits, SextetOf(a, c), out, LeftOver(vs));
      vs := vs + [SextetOf(a, c)];
    }
    assert s[..|s|] == s;
    LeftOverCount(vs);
    if bits == 6 { return None; }
    return Some(out);
  }

  lemma PadSnoc(s: Bytes, c: byte)
    ensures HasPad(s + [c]) <==> HasPad(s) || c == PAD
  {
    if HasPad(s) {
      var i :| 0 <= i < |s| && s[i] == PAD;
      assert (s + [c])[i] == PAD;
    }
    assert (s + [c])[|s|] == c;
  }

  lemma SpacesAreNoDigits(a: Alphabet, c: byte)
    requires IsSpace(c) || c == PAD
    ensures !InAlphabet(a, c)
  {}

  // ---- The encoder ----

  // The four sextets of three bytes.
  function Sextet0(x: int): (v: int)
    requires 0 <= x < 256
    ensures 0 <= v < 64
  {
    x / 4
  }

  function Sextet1(x: int, y: int): (v: int)
    requires 0 <= x < 256 && 0 <= y < 256
    ensures 0 <= v < 64
  {
    x % 4 * 16 + y / 16
  }

  function Sextet2(y: int, z: int): (v: int)
    requires 0 <= y < 256 && 0 <= z < 256
    ensures 0 <= v < 64
  {
    y % 16 * 4 + z / 64
  }

  function Sextet3(z: int): (v: int)
    ensures 0 <= v < 64
  {
    z % 64
  }

  // Three bytes side by side: 24 bits.
  function Block(x: int, y: int, z: int): int {
    x * 65536 + y * 256 + z
  }

  // Byte i, zero past the end.
  function ByteOrZero(b: Bytes, i: nat): byte {
    if i < |b| then b[i] else 0
  }

  // The sextets of the block at byte i: those its bits reach.
  function Lead(b: Bytes, i: nat): Sextets
  {
    var x, y, z := ByteOrZero(b, i), ByteOrZero(b, i + 1), ByteOrZero(b, i + 2);
    if i >= |b| then []
    else if i + 1 == |b| then [Sextet0(x), Sextet1(x, y)]
    else if i + 2 == |b| then [Sextet0(x), Sextet1(x, y), Sextet2(y, z)]
    else [Sextet0(x), Sextet1(x, y), Sextet2(y, z), Sextet3(z)]
  }

  // The characters of the block at byte i, a short one padded to four.
  function BlockText(b: Bytes, i: nat): Bytes {
    Symbols(Lead(b, i)) + if i + 1 == |b| then [PAD, PAD] else if i + 2 == |b| then [PAD] else []
  }

  // The blocks from byte i on, one after the other.
  function Blocks<T>(f: (Bytes, nat) -> seq<T>, b: Bytes, i: nat): seq<T>
    decreases |b| - i
  {
    if i >= |b| then [] else f(b, i) + Blocks(f, b, i + 3)
  }

  function Encoded(b: Bytes): Bytes {
    Blocks(BlockText, b, 0)
  }

  function Symbols(vs: Sextets): Bytes {
    if vs == [] then [] else Symbols(vs[..|vs| - 1]) + [Symbol(vs[|vs| - 1])]
  }

  // A block, cut in sextets.
  lemma BlockSextets(x: int, y: int, z: int)
    requires 0 <= x < 256 && 0 <= y < 256 && 0 <= z < 256
    ensures var n := Block(x, y, z);
      && n / 262144 % 64 == Sextet0(x)
      && n / 4096 % 64 == Sextet1(x, y)
      && n / 64 % 64 == Sextet2(y, z)
      && n % 64 == Sextet3(z)
  {
    var n := Block(x, y, z);
    Remainder(n, 262144, x / 4, x % 4 * 65536 + y * 256 + z);
    Remainder(n, 4096, x * 16 + y / 16, y % 16 * 256 + z);
    Remainder(x * 16 + y / 16, 64, x / 4, Sextet1(x, y));
    Remainder(n, 64, x * 1024 + y * 4 + z / 64, z % 64);
    Remainder(x * 1024 + y * 4 + z / 64, 64, x * 16 + y / 16, Sextet2(y, z));
  }

  lemma SymbolsOf4(u: sextet, v: sextet, w: sextet, x: sextet)
    ensures Symbols([u, v, w, x]) == [Symbol(u), Symbol(v), Symbol(w), Symbol(x)]
    ensures Symbols([u, v, w]) == [Symbol(u), Symbol(v), Symbol(w)]
    ensures Symbols([u, v]) == [Symbol(u), Symbol(v)]
  {
    assert [u, v, w, x][..3] == [u, v, w];
    assert [u, v, w][..2] == [u, v];
    assert [u, v][..1] == [u];
    assert [u][..0] == [];
    assert Symbols([u]) == [Symbol(u)];
    assert Symbols([u, v]) == [Symbol(u), Symbol(v)];
    assert Symbols([u, v, w]) == [Symbol(u), Symbol(v), Symbol(w)];
  }

  // The push_backs of one block.
  method PushBlock(b: Bytes, i: nat, out: Bytes) returns (out': Bytes)
    requires i < |b|
    ensures out' == out + BlockText(b, i)
  {
    var x, y, z := ByteOrZero(b, i), ByteOrZero(b, i + 1), ByteOrZero(b, i + 2);
    BlockSextets(x, y, z);
    SymbolsOf4(Sextet0(x), Sextet1(x, y), Sextet2(y, z), Sextet3(z));
    var n := Block(x, y, z);
    out' := out + [Symbol(n / 262144 % 64), Symbol(n / 4096 % 64)];
    out' := out' + [if i + 1 < |b| then Symbol(n / 64 % 64) else PAD];
    out' := out' + [if i + 2 < |b| then Symbol(n % 64) else PAD];
  }

  lemma NextBlock<T>(f: (Bytes, nat) -> seq<T>, b: Bytes, i: nat, out: seq<T>)
    requires i < |b|
    ensures out + Blocks(f, b, i) == out + f(b, i) + Blocks(f, b, i + 3)
  {
    Associative(out, f(b, i), Blocks(f, b, i + 3));
  }

  lemma Associative<T>(x: seq<T>, y: seq<T>, z: seq<T>)
    ensures x + (y + z) == x + y + z
  {}

  method Encode(b: Bytes) returns (out: Bytes)
    ensures out == Encoded(b)
  {
    out := [];
    var i := 0;
    while i + 3 <= |b|
      invariant i <= |b|
      invariant Blocks(BlockText, b, 0) == out + Blocks(BlockText, b, i)
    {
      var out' := PushBlock(b, i, out);
      NextBlock(BlockText, b, i, out);
      i, out := i + 3, out';
    }
    if i < |b| {
      var out' := PushBlock(b, i, out);
      NextBlock(BlockText, b, i, out);
      out := out';
    }
  }

  // ---- Round trip ----

  lemma SymbolReads(v: sextet)
    ensures InAlphabet(Standard, Symbol(v)) && SextetOf(Standard, Symbol(v)) == v
    ensures Symbol(v) != PAD && !IsSpace(Symbol(v))
  {}

  lemma BytesThroughSextets(x: int, y: int, z: int)
    requires 0 <= x < 256 && 0 <= y < 256 && 0 <= z < 256
    ensures Byte0(Sextet0(x), Sextet1(x, y)) == x
    ensures Byte1(Sextet1(x, y), Sextet2(y, z)) == y
    ensures Byte2(Sextet2(y, z), Sextet3(z)) == z
  {
    Remainder(Sextet1(x, y), 16, x % 4, y / 16);
    Remainder(Sextet2(y, z), 4, y % 16, z / 64);
  }

  lemma {:induction false} SymbolsRead(vs: Sextets)
    ensures SextetsIn(Standard, Symbols(vs)) == vs
    ensures DigitsOnly(Symbols(vs))
  {
    if vs != [] {
      var n := |vs| - 1;
      SymbolsRead(vs[..n]);
      SymbolReads(vs[n]);
      SextetsSnoc(Standard, Symbols(vs[..n]), Symbol(vs[n]));
      assert vs == vs[..n] + [vs[n]];
    }
  }

  // After complete groups reading starts afresh.
  lemma {:induction false} WholeGroupsFirst(us: Sextets, vs: Sextets)
    requires LeftOver(us) == Nothing
    ensures BytesOf(us + vs) == BytesOf(us) + BytesOf(vs)
    ensures LeftOver(us + vs) == LeftOver(vs)
  {
    if vs == [] {
      assert us + vs == us;
    } else {
      var w, v := vs[..|vs| - 1], vs[|vs| - 1];
      assert vs == w + [v];
      WholeGroupsFirst(us, w);
      Associative(us, w, [v]);
      BytesSnoc(us + w, v);
      BytesSnoc(w, v);
      Associative(BytesOf(us), BytesOf(w), Yield(LeftOver(w), v));
    }
  }

  lemma TwoSextets(s0: sextet, s1: sextet)
    ensures BytesOf([] + [s0] + [s1]) == [Byte0(s0, s1)] && LeftOver([] + [s0] + [s1]) == Two(s0, s1)
  {
    BytesSnoc([], s0);
    BytesSnoc([] + [s0], s1);
  }

  lemma ThreeSextets(s0: sextet, s1: sextet, s2: sextet)
    ensures BytesOf([] + [s0] + [s1] + [s2]) == [Byte0(s0, s1), Byte1(s1, s2)]
    ensures LeftOver([] + [s0] + [s1] + [s2]) == Three(s0, s1, s2)
  {
    TwoSextets(s0, s1);
    BytesSnoc([] + [s0] + [s1], s2);
  }

  lemma FourSextets(s0: sextet, s1: sextet, s2: sextet, s3: sextet)
    ensures BytesOf([] + [s0] + [s1] + [s2] + [s3]) == [Byte0(s0, s1), Byte1(s1, s2), Byte2(s2, s3)]
    ensures LeftOver([] + [s0] + [s1] + [s2] + [s3]) == Nothing
  {
    ThreeSextets(s0, s1, s2);
    BytesSnoc([] + [s0] + [s1] + [s2], s3);
  }

  // What a cutter into sextets must do with the block at byte i.
  ghost predicate CutsBlock(lead: (Bytes, nat) -> Sextets, b: Bytes, i: nat) {
    i < |b| ==>
      && BytesOf(lead(b, i)) == b[i..if i + 3 <= |b| then i + 3 else |b|]
      && |lead(b, i)| == (if i + 3 <= |b| then 4 else |b| - i + 1)
      && (i + 3 <= |b| ==> LeftOver(lead(b, i)) == Nothing)
  }

  lemma ThreeSpell(x: byte, y: byte, z: byte)
    ensures var us := [Sextet0(x), Sextet1(x, y), Sextet2(y, z), Sextet3(z)];
      BytesOf(us) == [x, y, z] && LeftOver(us) == Nothing
  {
    var s0, s1, s2, s3 := Sextet0(x), Sextet1(x, y), Sextet2(y, z), Sextet3(z);
    FourSextets(s0, s1, s2, s3);
    BytesThroughSextets(x, y, z);
    assert [s0, s1, s2, s3] == [] + [s0] + [s1] + [s2] + [s3];
  }

  lemma TwoSpell(x: byte, y: byte, z: byte)
    ensures BytesOf([Sextet0(x), Sextet1(x, y), Sextet2(y, z)]) == [x, y]
  {
    var s0, s1, s2 := Sextet0(x), Sextet1(x, y), Sextet2(y, z);
    ThreeSextets(s0, s1, s2);
    BytesThroughSextets(x, y, z);
    assert [s0, s1, s2] == [] + [s0] + [s1] + [s2];
  }

  lemma OneSpells(x: byte, y: byte)
    ensures BytesOf([Sextet0(x), Sextet1(x, y)]) == [x]
  {
    var s0, s1 := Sextet0(x), Sextet1(x, y);
    TwoSextets(s0, s1);
    BytesThroughSextets(x, y, 0);
    assert [s0, s1] == [] + [s0] + [s1];
  }

  lemma LeadCuts(b: Bytes, i: nat)
    ensures CutsBlock(Lead, b, i)
  {
    if i < |b| {
      var x, y, z := ByteOrZero(b, i), ByteOrZero(b, i + 1), ByteOrZero(b, i + 2);
      if i + 1 == |b| {
        OneSpells(x, y);
        assert b[i..i + 1] == [x];
      } else if i + 2 == |b| {
        TwoSpell(x, y, z);
        assert b[i..i + 2] == [x, y];
      } else {
        ThreeSpell(x, y, z);
        assert b[i..i + 3] == [x, y, z];
      }
    }
  }

  lemma {:induction false} BlocksCount(lead: (Bytes, nat) -> Sextets, b: Bytes, i: nat)
    requires i <= |b| && forall k :: CutsBlock(lead, b, k)
    ensures |Blocks(lead, b, i)| % 4 != 1
    decreases |b| - i
  {
    if i < |b| {
      assert CutsBlock(lead, b, i);
      if i + 3 <= |b| { BlocksCount(lead, b, i + 3); }
    }
  }

  lemma JoinGroups(us: Sextets, vs: Sextets, b: Bytes, i: nat)
    requires i + 3 <= |b| && LeftOver(us) == Nothing
    requires BytesOf(us) == b[i..i + 3] && BytesOf(vs) == b[i + 3..]
    ensures BytesOf(us + vs) == b[i..]
  {
    WholeGroupsFirst(us, vs);
    SplitAt(b, i, i + 3);
  }

  lemma SplitAt<T>(s: seq<T>, i: nat, j: nat)
    requires i <= j <= |s|
    ensures s[i..] == s[i..j] + s[j..]
  {}

  lemma {:induction false} BytesBack(lead: (Bytes, nat) -> Sextets, b: Bytes, i: nat)
    requires i <= |b| && forall k :: CutsBlock(lead, b, k)
    ensures BytesOf(Blocks(lead, b, i)) == b[i..]
    decreases |b| - i
  {
    if i < |b| {
      assert CutsBlock(lead, b, i);
      if i + 3 <= |b| {
        BytesBack(lead, b, i + 3);
        JoinGroups(lead(b, i), Blocks(lead, b, i + 3), b, i);
      } else {
        assert Blocks(lead, b, i + 3) == [];
        assert Blocks(lead, b, i) == lead(b, i);
      }
    }
  }

  // Digits in front of a well-shaped text.
  lemma DigitsFirst(s: Bytes, t: Bytes)
    requires DigitsOnly(s) && WellShaped(Standard, t)
    ensures WellShaped(Standard, s + t)
  {}

  lemma PaddingShaped(a: Alphabet)
    ensures WellShaped(a, []) && WellShaped(a, [PAD]) && WellShaped(a, [PAD, PAD])
    ensures SextetsIn(a, []) == [] && SextetsIn(a, [PAD]) == [] && SextetsIn(a, [PAD, PAD]) == []
  {
    SpacesAreNoDigits(a, PAD);
    assert [PAD, PAD][..1] == [PAD];
  }

  // What the text of the block at byte i must read as.
  ghost predicate ReadsBlock(text: (Bytes, nat) -> Bytes, lead: (Bytes, nat) -> Sextets, b: Bytes, i: nat) {
    && SextetsIn(Standard, text(b, i)) == lead(b, i)
    && WellShaped(Standard, text(b, i))
    && (i + 3 <= |b| ==> DigitsOnly(text(b, i)))
  }

  predicate DigitsOnly(s: Bytes) {
    forall i :: 0 <= i < |s| ==> InAlphabet(Standard, s[i]) && s[i] != PAD
  }

  lemma BlockTextReads(b: Bytes, i: nat)
    ensures ReadsBlock(BlockText, Lead, b, i)
  {
    var tail := if i + 1 == |b| then [PAD, PAD] else if i + 2 == |b| then [PAD] else [];
    PaddingShaped(Standard);
    SymbolsRead(Lead(b, i));
    SextetsConcat(Standard, Symbols(Lead(b, i)), tail);
    DigitsFirst(Symbols(Lead(b, i)), tail);
  }

  lemma {:induction false} BlocksRead(text: (Bytes, nat) -> Bytes, lead: (Bytes, nat) -> Sextets, b: Bytes, i: nat)
    requires forall k :: ReadsBlock(text, lead, b, k)
    ensures WellShaped(Standard, Blocks(text, b, i))
    ensures SextetsIn(Standard, Blocks(text, b, i)) == Blocks(lead, b, i)
    decreases |b| - i
  {
    if i < |b| {
      assert ReadsBlock(text, lead, b, i);
      BlocksRead(text, lead, b, i + 3);
      SextetsConcat(Standard, text(b, i), Blocks(text, b, i + 3));
      if i + 3 <= |b| {
        DigitsFirst(text(b, i), Blocks(text, b, i + 3));
      } else {
        assert Blocks(text, b, i) == text(b, i);
      }
    }
  }

  /** Decoding an encoding gives the bytes back, for every byte string: the accumulator's wrap at
  32 bits loses nothing. */
  lemma RoundTrip(b: Bytes)
    ensures Decoded(Standard, Encoded(b)) == Some(b)
  {
    forall i ensures ReadsBlock(BlockText, Lead, b, i) { BlockTextReads(b, i); }
    BlocksRead(BlockText, Lead, b, 0);
    forall i ensures CutsBlock(Lead, b, i) { LeadCuts(b, i); }
    BytesBack(Lead, b, 0);
    BlocksCount(Lead, b, 0);
  }

  // ---- Leniency ----

  lemma {:induction false} SextetsConcat(a: Alphabet, s: Bytes, t: Bytes)
    ensures SextetsIn(a, s + t) == SextetsIn(a, s) + SextetsIn(a, t)
  {
    if t == [] {
      assert s + t == s;
    } else {
      var u, c := t[..|t| - 1], t[|t| - 1];
      SextetsConcat(a, s, u);
      assert s + t == (s + u) + [c] && t == u + [c];
      SextetsSnoc(a, s + u, c);
      SextetsSnoc(a, u, c);
      if InAlphabet(a, c) { Associative(SextetsIn(a, s), SextetsIn(a, u), [SextetOf(a, c)]); }
    }
  }

  /** White space anywhere changes nothing, and neither does padding at the end: a text decodes,
  or fails, exactly as it does without them. */
  lemma FillerIgnored(a: Alphabet, s: Bytes, c: byte, t: Bytes)
    requires IsSpace(c) || (c == PAD && t == [])
    ensures Decoded(a, s + [c] + t) == Decoded(a, s + t)
  {
    SpacesAreNoDigits(a, c);
    SextetsConcat(a, s + [c], t);
    SextetsConcat(a, s, t);
    SextetsSnoc(a, s, c);
    if t == [] {
      assert s + [c] + t == s + [c] && s + t == s;
    } else {
      ShapeWithout(a, s, c, t);
    }
  }

  lemma ShapeWithout(a: Alphabet, s: Bytes, c: byte, t: Bytes)
    requires IsSpace(c)
    ensures WellShaped(a, s + [c] + t) <==> WellShaped(a, s + t)
  {
    var x, y := s + [c] + t, s + t;
    var n := |s|;
    assert forall i :: 0 <= i < n ==> x[i] == y[i];
    assert x[n] == c;
    assert forall i :: n <= i < |y| ==> x[i + 1] == y[i];
    SpacesAreNoDigits(a, c);
    if WellShaped(a, y) {
      forall i | 0 <= i < |x| ensures IsSpace(x[i]) || x[i] == PAD || InAlphabet(a, x[i]) {
        assert i <= n || x[i] == y[i - 1];
      }
      forall i, j | 0 <= i < j < |x| && x[i] == PAD ensures !InAlphabet(a, x[j]) {
        assert i < n || (i > n && x[i] == y[i - 1]);
        assert j <= n || x[j] == y[j - 1];
      }
    }
    if WellShaped(a, x) {
      forall i, j | 0 <= i < j < |y| && y[i] == PAD ensures !InAlphabet(a, y[j]) {
        assert x[if i < n then i else i + 1] == PAD;
      }
      forall i | 0 <= i < |y| ensures IsSpace(y[i]) || y[i] == PAD || InAlphabet(a, y[i]) {
        assert y[i] == x[if i < n then i else i + 1];
      }
    }
  }

  // The standard spelling of a character of the URL alphabet.
  function ToStandard(c: byte): byte {
    if c == 0x2D then 0x2B else if c == 0x5F then 0x2F else c
  }

  function Respelled(s: Bytes): Bytes {
    seq(|s|, i requires 0 <= i < |s| => ToStandard(s[i]))
  }

  lemma {:induction false} RespelledSextets(s: Bytes)
    requires forall i :: 0 <= i < |s| ==> s[i] != 0x2B && s[i] != 0x2F
    ensures SextetsIn(Standard, Respelled(s)) == SextetsIn(Url, s)
  {
    if s != [] {
      var n := |s| - 1;
      RespelledSextets(s[..n]);
      assert Respelled(s)[..n] == Respelled(s[..n]);
      SameDigit(s[n]);
    }
  }

  lemma SameDigit(c: byte)
    requires c != 0x2B && c != 0x2F
    ensures InAlphabet(Url, c) <==> InAlphabet(Standard, ToStandard(c))
    ensures InAlphabet(Url, c) ==> SextetOf(Url, c) == SextetOf(Standard, ToStandard(c))
    ensures IsSpace(c) <==> IsSpace(ToStandard(c))
    ensures c == PAD <==> ToStandard(c) == PAD
  {}

  /** The URL decoder is the standard one after `-` and `_` are written `+` and `/`, except that
  it refuses every text that already has one of the standard pair. */
  lemma UrlIsStandard(s: Bytes)
    ensures Decoded(Url, s)
         == if exists i :: 0 <= i < |s| && (s[i] == 0x2B || s[i] == 0x2F) then None
            else Decoded(Standard, Respelled(s))
  {
    if i :| 0 <= i < |s| && (s[i] == 0x2B || s[i] == 0x2F) {
      NotUrl(s[i]);
    } else {
      RespelledSextets(s);
      RespelledShape(s);
    }
  }

  lemma NotUrl(c: byte)
    requires c == 0x2B || c == 0x2F
    ensures !IsSpace(c) && c != PAD && !InAlphabet(Url, c)
  {}

  lemma RespelledShape(s: Bytes)
    requires forall i :: 0 <= i < |s| ==> s[i] != 0x2B && s[i] != 0x2F
    ensures WellShaped(Url, s) <==> WellShaped(Standard, Respelled(s))
  {
    var t := Respelled(s);
    forall i | 0 <= i < |s|
      ensures t[i] == ToStandard(s[i])
      ensures InAlphabet(Url, s[i]) <==> InAlphabet(Standard, t[i])
      ensures IsSpace(s[i]) <==> IsSpace(t[i])
      ensures s[i] == PAD <==> t[i] == PAD
    {
      SameDigit(s[i]);
    }
  }

  // ---- What the texts mean, by the tables ----

  const UPPER := "ABCDEFGHIJKLMNOPQRSTUVWXYZ"

  const LOWER := "abcdefghijklmnopqrstuvwxyz"

  const FIGURES := "0123456789"

  // Tables 1 and 2 of RFC 4648.
  function TableOf(a: Alphabet): (t: string)
    ensures |t| == 64
  {
    UPPER + LOWER + FIGURES + if a == Standard then "+/" else "-_"
  }

  predicate DigitOf(a: Alphabet, c: byte, v: nat) { v < 64 && TableOf(a)[v] as int == c }

  lemma Uppers(k: nat)
    requires k < 26
    ensures UPPER[k] as int == 0x41 + k
  {
  }

  lemma Lowers(k: nat)
    requires k < 26
    ensures LOWER[k] as int == 0x61 + k
  {
  }

  lemma Figures(k: nat)
    requires k < 10
    ensures FIGURES[k] as int == 0x30 + k
  {
  }

  lemma TableAt(a: Alphabet, v: sextet)
    ensures TableOf(a)[v] as int ==
      if v < 26 then 0x41 + v else if v < 52 then 0x61 + (v - 26) else if v < 62 then 0x30 + (v - 52)
      else if v == 62 then (if a == Standard then 0x2B else 0x2D) else (if a == Standard then 0x2F else 0x5F)
  {
    var t := TableOf(a);
    if v < 26 {
      Uppers(v);
      assert t[v] == UPPER[v];
    } else if v < 52 {
      Lowers(v - 26);
      assert t[v] == LOWER[v - 26];
    } else if v < 62 {
      Figures(v - 52);
      assert t[v] == FIGURES[v - 52];
    }
  }

  /** The digits are the tables', and the encoder writes the standard one's. */
  lemma DigitsByTable(a: Alphabet, c: byte, v: sextet)
    ensures InAlphabet(a, c) && SextetOf(a, c) == v <==> DigitOf(a, c, v)
    ensures DigitOf(Standard, Symbol(v), v)
  {
    TableAt(a, v);
    TableAt(Standard, v);
  }

  ghost predicate IsDigitByte(a: Alphabet, c: byte) { exists v: nat :: DigitOf(a, c, v) }

  lemma DigitBytes(a: Alphabet, c: byte)
    ensures InAlphabet(a, c) <==> IsDigitByte(a, c)
  {
    if InAlphabet(a, c) { DigitsByTable(a, c, SextetOf(a, c)); }
    if v: nat :| DigitOf(a, c, v) { DigitsByTable(a, c, v); }
  }

  // White space or an equals sign.
  predicate Filler(c: byte) {
    c == ' ' as int || c == '\n' as int || c == '\r' as int || c == '\t' as int || c == '=' as int
  }

  lemma FillerIs(c: byte)
    ensures Filler(c) <==> IsSpace(c) || c == PAD
  {
  }

  // How many digits of the alphabet a text has.
  ghost function DigitCount(a: Alphabet, s: Bytes): nat {
    if s == [] then 0 else (if IsDigitByte(a, s[0]) then 1 else 0) + DigitCount(a, s[1..])
  }

  lemma {:induction false} SextetsCounted(a: Alphabet, s: Bytes)
    ensures |SextetsIn(a, s)| == DigitCount(a, s)
  {
    if s != [] {
      SextetsCounted(a, s[1..]);
      DigitBytes(a, s[0]);
      SextetsConcat(a, [s[0]], s[1..]);
      SextetsSnoc(a, [], s[0]);
      assert [s[0]] + s[1..] == s && [] + [s[0]] == [s[0]];
    }
  }

  /** A text is refused exactly when it has a byte that is neither a digit nor filler, a digit after an equals
  sign, or one digit more than whole groups of four. */
  lemma RefusedExactlyWhen(a: Alphabet, s: Bytes)
    ensures Decoded(a, s) == None <==>
      || (exists i :: 0 <= i < |s| && !Filler(s[i]) && !IsDigitByte(a, s[i]))
      || (exists i, j :: 0 <= i < j < |s| && s[i] == '=' as int && IsDigitByte(a, s[j]))
      || DigitCount(a, s) % 4 == 1
  {
    SextetsCounted(a, s);
    forall c ensures InAlphabet(a, c) <==> IsDigitByte(a, c) { DigitBytes(a, c); }
    forall c ensures Filler(c) <==> IsSpace(c) || c == PAD { FillerIs(c); }
  }

  // Digits and bytes as numbers, most significant first.
  function Number(vs: Sextets): nat {
    if vs == [] then 0 else 64 * Number(vs[..|vs| - 1]) + vs[|vs| - 1]
  }

  function Word(b: Bytes): nat {
    if b == [] then 0 else 256 * Word(b[..|b| - 1]) + b[|b| - 1]
  }

  lemma WordSnoc(b: Bytes, c: byte)
    ensures Word(b + [c]) == 256 * Word(b) + c
  {
    assert (b + [c])[..|b|] == b;
  }

  // How many bits of the digits left over are short of a byte.
  function Spare(p: Partial): nat {
    match p
    case Nothing => 0
    case One(_) => 6
    case Two(_, _) => 4
    case Three(_, _, _) => 2
  }

  function Power(bits: nat): nat { if bits == 0 then 1 else 2 * Power(bits - 1) }

  // Those bits.
  function Rest(p: Partial): nat {
    match p
    case Nothing => 0
    case One(x) => x
    case Two(_, y) => y % 16
    case Three(_, _, z) => z % 4
  }

  function Weight(p: Partial): nat {
    match p
    case Nothing => 1
    case One(_) => 64
    case Two(_, _) => 16
    case Three(_, _, _) => 4
  }

  lemma WeightIs(p: Partial)
    ensures Weight(p) == Power(Spare(p)) && Rest(p) < Weight(p)
  {
    assert Power(2) == 4 && Power(4) == 16 && Power(6) == 64;
  }

  // n digits of this number are the bytes and the bits left over.
  predicate Spelled(n: nat, number: nat, b: Bytes, p: Partial) {
    6 * n == 8 * |b| + Spare(p) && number == Weight(p) * Word(b) + Rest(p)
  }

  lemma SpelledStep(n: nat, number: nat, b: Bytes, p: Partial, v: sextet)
    requires Spelled(n, number, b, p)
    ensures Spelled(n + 1, 64 * number + v, b + Yield(p, v), Feed(p, v))
  {
    if !p.Nothing? { WordSnoc(b, Yield(p, v)[0]); } else { assert b + [] == b; }
  }

  lemma {:induction false} BytesAreTheNumber(vs: Sextets)
    ensures Spelled(|vs|, Number(vs), BytesOf(vs), LeftOver(vs))
  {
    if vs != [] {
      var n := |vs| - 1;
      BytesAreTheNumber(vs[..n]);
      SpelledStep(n, Number(vs[..n]), BytesOf(vs[..n]), LeftOver(vs[..n]), vs[n]);
    }
  }

  // The digits are these bytes, most significant bits first, and so many bits more.
  predicate Fills(vs: Sextets, b: Bytes, bits: nat, rest: nat) {
    6 * |vs| == 8 * |b| + bits && Number(vs) == Power(bits) * Word(b) + rest && rest < Power(bits)
  }

  /** What a text decodes to is its digits' bits in order, as many whole bytes as they fill: the fewer than
  eight left over are dropped. */
  lemma DecodesBits(a: Alphabet, s: Bytes, b: Bytes)
    requires Decoded(a, s) == Some(b)
    ensures exists bits: nat, rest: nat :: bits < 8 && Fills(SextetsIn(a, s), b, bits, rest)
  {
    DigitsFill(SextetsIn(a, s), LeftOver(SextetsIn(a, s)));
  }

  lemma DigitsFill(vs: Sextets, p: Partial)
    requires p == LeftOver(vs)
    ensures Spare(p) < 8 && Fills(vs, BytesOf(vs), Spare(p), Rest(p))
  {
    BytesAreTheNumber(vs);
    WeightIs(LeftOver(vs));
  }

  // The last digit of an encoding has no bit that stands for nothing.
  predicate Tidy(p: Partial) {
    match p
    case Two(_, y) => y % 16 == 0
    case Three(_, _, z) => z % 4 == 0
    case _ => true
  }

  lemma TidyPair(x: byte)
    ensures Sextet1(x, 0) % 16 == 0
  {
    Remainder(Sextet1(x, 0), 16, x % 4, 0);
  }

  lemma TidyTriple(y: byte)
    ensures Sextet2(y, 0) % 4 == 0
  {
    Remainder(Sextet2(y, 0), 4, y % 16, 0);
  }

  lemma LeftOverOf(s0: sextet, s1: sextet, s2: sextet, s3: sextet)
    ensures LeftOver([s0, s1]) == Two(s0, s1)
    ensures LeftOver([s0, s1, s2]) == Three(s0, s1, s2)
    ensures LeftOver([s0, s1, s2, s3]) == Nothing
  {
    TwoSextets(s0, s1);
    ThreeSextets(s0, s1, s2);
    FourSextets(s0, s1, s2, s3);
    assert [] + [s0] + [s1] == [s0, s1];
    assert [] + [s0] + [s1] + [s2] == [s0, s1, s2];
    assert [] + [s0] + [s1] + [s2] + [s3] == [s0, s1, s2, s3];
  }

  lemma LeadTidy(b: Bytes, i: nat)
    ensures Tidy(LeftOver(Lead(b, i)))
  {
    var x, y, z := ByteOrZero(b, i), ByteOrZero(b, i + 1), ByteOrZero(b, i + 2);
    LeftOverOf(Sextet0(x), Sextet1(x, y), Sextet2(y, z), Sextet3(z));
    TidyPair(x);
    TidyTriple(y);
  }

  lemma {:induction false} BlocksTidy(lead: (Bytes, nat) -> Sextets, b: Bytes, i: nat)
    requires forall k :: CutsBlock(lead, b, k) && Tidy(LeftOver(lead(b, k)))
    ensures Tidy(LeftOver(Blocks(lead, b, i)))
    decreases |b| - i
  {
    if i < |b| {
      assert CutsBlock(lead, b, i) && Tidy(LeftOver(lead(b, i)));
      BlocksTidy(lead, b, i + 3);
      if i + 3 <= |b| {
        WholeGroupsFirst(lead(b, i), Blocks(lead, b, i + 3));
      } else {
        assert Blocks(lead, b, i) == lead(b, i);
      }
    }
  }

  lemma EncodedDigits(b: Bytes)
    ensures SextetsIn(Standard, Encoded(b)) == Blocks(Lead, b, 0)
  {
    forall i ensures ReadsBlock(BlockText, Lead, b, i) { BlockTextReads(b, i); }
    BlocksRead(BlockText, Lead, b, 0);
  }

  /** An encoding's digits are the bytes' bits in order, and zeros after them up to a whole digit. */
  lemma EncodesBits(b: Bytes)
    ensures exists bits: nat :: bits < 6 && Fills(SextetsIn(Standard, Encoded(b)), b, bits, 0)
  {
    var vs := Blocks(Lead, b, 0);
    EncodedDigits(b);
    forall i ensures CutsBlock(Lead, b, i) && Tidy(LeftOver(Lead(b, i))) {
      LeadCuts(b, i);
      LeadTidy(b, i);
    }
    BlocksTidy(Lead, b, 0);
    BytesBack(Lead, b, 0);
    assert b[0..] == b;
    DigitsFill(vs, LeftOver(vs));
    NotOneLeft(b);
    assert Rest(LeftOver(vs)) == 0;
  }

  lemma NotOneLeft(b: Bytes)
    ensures !LeftOver(Blocks(Lead, b, 0)).One?
  {
    forall i ensures CutsBlock(Lead, b, i) { LeadCuts(b, i); }
    BlocksCount(Lead, b, 0);
    LeftOverCount(Blocks(Lead, b, 0));
  }

  // Equals signs at the end of an encoding of n bytes.
  function Padding(n: nat): nat { if n % 3 == 0 then 0 else 3 - n % 3 }

  predicate PaddedFrom(s: Bytes, n: nat) {
    n <= |s| && forall k :: 0 <= k < |s| ==> (s[k] == '=' as int <==> k >= n) && !IsSpace(s[k])
  }

  lemma {:induction false} SymbolsPlain(vs: Sextets)
    ensures |Symbols(vs)| == |vs| && PaddedFrom(Symbols(vs), |vs|)
  {
    if vs != [] {
      SymbolsPlain(vs[..|vs| - 1]);
      SymbolReads(vs[|vs| - 1]);
    }
  }

  // What the text of the block at byte i must look like.
  ghost predicate FillsBlock(text: (Bytes, nat) -> Bytes, b: Bytes, i: nat) {
    i < |b| ==>
      |text(b, i)| == 4 && PaddedFrom(text(b, i), if i + 3 <= |b| then 4 else 4 - Padding(|b| - i))
  }

  lemma BlockTextFills(b: Bytes, i: nat)
    ensures FillsBlock(BlockText, b, i)
  {
    if i < |b| { SymbolsPlain(Lead(b, i)); }
  }

  lemma PaddedAfter(s: Bytes, t: Bytes, n: nat)
    requires PaddedFrom(s, |s|) && PaddedFrom(t, n)
    ensures PaddedFrom(s + t, |s| + n)
  {
  }

  lemma {:induction false} BlocksFilled(text: (Bytes, nat) -> Bytes, b: Bytes, i: nat)
    requires i <= |b| && forall k :: FillsBlock(text, b, k)
    ensures var s := Blocks(text, b, i);
      |s| == (|b| - i + 2) / 3 * 4 && PaddedFrom(s, |s| - Padding(|b| - i))
    decreases |b| - i
  {
    if i < |b| {
      assert FillsBlock(text, b, i);
      if i + 3 <= |b| {
        BlocksFilled(text, b, i + 3);
        var rest := Blocks(text, b, i + 3);
        PaddedAfter(text(b, i), rest, |rest| - Padding(|b| - (i + 3)));
      } else {
        assert Blocks(text, b, i) == text(b, i);
      }
    }
  }

  /** Its length is a multiple of four, with no white space, and equals signs at the end only, as many as
  the last three bytes lack. */
  lemma EncodingShape(b: Bytes)
    ensures var s := Encoded(b); |s| == (|b| + 2) / 3 * 4 && PaddedFrom(s, |s| - Padding(|b|))
  {
    forall i ensures FillsBlock(BlockText, b, i) { BlockTextFills(b, i); }
    BlocksFilled(BlockText, b, 0);
  }
}
