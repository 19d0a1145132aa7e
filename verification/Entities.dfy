/** HTML entity decoding (src/anidbapp.cpp). Text is bytes, one char each. */
module Entities {
  import opened Numerals
  import opened Text

  const MAX_CODE := 0x10FFFF

  type CodePoint = c: int | 0 <= c <= MAX_CODE

  // push_utf8.
  function Utf8(c: CodePoint): (r: string)
    ensures r != ""
  {
    if c < 0x80 then [c as char]
    else if c < 0x800 then [(0xC0 + c / 64) as char, Continuation(c)]
    else if c < 0x1_0000 then [(0xE0 + c / 4096) as char, Continuation(c / 64), Continuation(c)]
    else [(0xF0 + c / 0x4_0000) as char, Continuation(c / 4096), Continuation(c / 64), Continuation(c)]
  }

  function Continuation(c: CodePoint): char {
    (0x80 + c % 64) as char
  }

  // ---- One entity ----

  function NamedCode(e: string): Option<CodePoint> {
    if e == "amp" then Some('&' as int)
    else if e == "lt" then Some('<' as int)
    else if e == "gt" then Some('>' as int)
    else if e == "quot" then Some('"' as int)
    else if e == "apos" then Some('\'' as int)
    else if e == "nbsp" then Some(' ' as int)
    else None
  }

  predicate HexMark(c: char) { c == 'x' || c == 'X' }

  function NumericBase(e: string): Base {
    if |e| > 1 && HexMark(e[1]) then Hex else Dec
  }

  function NumericDigits(e: string): string {
    if |e| > 1 then if HexMark(e[1]) then e[2..] else e[1..] else ""
  }

  predicate IsNumeric(e: string) {
    e != "" && e[0] == '#' && NumericDigits(e) != "" && AllIn(NumericDigits(e), NumericBase(e))
  }

  // The code point an entity stands for: the text between & and ;.
  function Code(e: string): Option<CodePoint>
  {
    if NamedCode(e).Some? then NamedCode(e)
    else if IsNumeric(e) && Value(NumericDigits(e), NumericBase(e)) <= MAX_CODE then
      Some(Value(NumericDigits(e), NumericBase(e)))
    else None
  }

  // ---- Decoding ----

  // Where the entity begun by the ampersand at i ends, if it ends within the ten characters after it.
  function EntityEnd(s: string, i: nat): Option<nat>
    requires i < |s| && s[i] == '&'
  {
    var semi := FindChar(s, ';', i);
    if semi < |s| && semi - i <= 10 then Some(semi) else None
  }

  // Where reading goes on after position i.
  function Next(s: string, i: nat): (n: nat)
    requires i < |s|
    ensures i < n <= |s|
  {
    if s[i] == '&' && EntityEnd(s, i).Some? then EntityEnd(s, i).value + 1 else i + 1
  }

  // What position i begins, when `entity` says what each entity becomes.
  function Chunk(s: string, i: nat, entity: string -> string): string
    requires i < |s|
  {
    if s[i] == '&' && EntityEnd(s, i).Some? then entity(s[i + 1..EntityEnd(s, i).value]) else [s[i]]
  }

  // What s decodes to from position i on.
  function Decoded(s: string, i: nat, entity: string -> string): string
    requires i <= |s|
    decreases |s| - i
  {
    if i == |s| then "" else Chunk(s, i, entity) + Decoded(s, Next(s, i), entity)
  }

  // The entity's character, or the entity as it was written when it is not recognised.
  function Entity(e: string): string {
    if Code(e).Some? then Utf8(Code(e).value) else "&" + e + ";"
  }

  // ---- Escaping ----

  /** A piece of escaped text: a byte as it is, or an entity. */
  datatype Item = Raw(c: char) | Escaped(e: string)

  predicate Proper(item: Item) {
    match item
    case Raw(c) => c != '&'
    case Escaped(e) => |e| <= 9 && ';' !in e
  }

  predicate AllProper(items: seq<Item>) {
    forall k :: 0 <= k < |items| ==> Proper(items[k])
  }

  function Piece(item: Item): (r: string)
    ensures r != ""
  {
    match item
    case Raw(c) => [c]
    case Escaped(e) => "&" + e + ";"
  }

  function Written(items: seq<Item>): string {
    if items == [] then "" else Piece(items[0]) + Written(items[1..])
  }

  function Plain(item: Item, entity: string -> string): string {
    match item
    case Raw(c) => [c]
    case Escaped(e) => entity(e)
  }

  function Meaning(items: seq<Item>, entity: string -> string): string {
    if items == [] then "" else Plain(items[0], entity) + Meaning(items[1..], entity)
  }

  lemma Associative(a: string, b: string, c: string)
    ensures a + (b + c) == (a + b) + c
  {
  }

  lemma DecodesEntity(s: string, i: nat, semi: nat, next: nat, entity: string -> string)
    requires i < semi < |s| && semi - i <= 10 && s[i] == '&' && FindChar(s, ';', i) == semi && next == semi + 1
    ensures Decoded(s, i, entity) == entity(s[i + 1..semi]) + Decoded(s, next, entity)
  {
  }

  lemma EntityAt(s: string, i: nat, e: string, semi: nat, next: nat, entity: string -> string)
    requires semi == i + 1 + |e| < |s| && |e| <= 9 && ';' !in e && next == semi + 1
    requires s[i] == '&' && s[i + 1..semi] == e && s[semi] == ';'
    ensures Decoded(s, i, entity) == entity(e) + Decoded(s, next, entity)
  {
    forall k | i < k < semi ensures s[k] != ';' { assert s[k] == s[i + 1..semi][k - i - 1]; }
    FindCharIs(s, ';', i, semi);
    DecodesEntity(s, i, semi, next, entity);
  }

  lemma RawAt(s: string, i: nat, entity: string -> string)
    requires i < |s| && s[i] != '&'
    ensures Decoded(s, i, entity) == [s[i]] + Decoded(s, i + 1, entity)
  {
  }

  // Where the parts of a written entity stand.
  lemma EntityParts(s: string, i: nat, e: string, semi: nat, next: nat)
    requires semi == i + 1 + |e| && next == semi + 1 <= |s| && s[i..next] == "&" + e + ";"
    ensures s[i] == '&' && s[i + 1..semi] == e && s[semi] == ';'
  {
    var piece := "&" + e + ";";
    forall k | 0 <= k < |piece| ensures s[i + k] == piece[k] { assert s[i..next][k] == s[i + k]; }
    assert s[i + 0] == '&' && s[i + (1 + |e|)] == ';';
    forall k | 0 <= k < |e| ensures s[i + 1..semi][k] == e[k] { assert s[i + (1 + k)] == piece[1 + k]; }
  }

  lemma EscapedAt(s: string, i: nat, e: string, next: nat, entity: string -> string)
    requires |e| <= 9 && ';' !in e && next == i + |e| + 2 <= |s| && s[i..next] == "&" + e + ";"
    ensures Decoded(s, i, entity) == entity(e) + Decoded(s, next, entity)
  {
    EntityParts(s, i, e, next - 1, next);
    EntityAt(s, i, e, next - 1, next, entity);
  }

  lemma RawFirst(s: string, i: nat, c: char, q: string, next: nat, entity: string -> string)
    requires i <= |s| && c != '&' && s[i..] == [c] + q && next == i + 1
    ensures i < |s| && s[next..] == q
    ensures Decoded(s, i, entity) == [c] + Decoded(s, next, entity)
  {
    SuffixSplits(s, i, [c], q);
    assert s[i] == s[i..][0] == c;
    RawAt(s, i, entity);
  }

  lemma PieceSplits(s: string, i: nat, piece: string, q: string, next: nat)
    requires i <= |s| && s[i..] == piece + q && next == i + |piece|
    ensures next <= |s| && s[i..next] == piece && s[next..] == q
  {
    SuffixSplits(s, i, piece, q);
  }

  lemma EscapedFirst(s: string, i: nat, e: string, q: string, next: nat, entity: string -> string)
    requires i <= |s| && |e| <= 9 && ';' !in e && s[i..] == ("&" + e + ";") + q && next == i + |e| + 2
    ensures next <= |s| && s[next..] == q
    ensures Decoded(s, i, entity) == entity(e) + Decoded(s, next, entity)
  {
    PieceSplits(s, i, "&" + e + ";", q, next);
    EscapedAt(s, i, e, next, entity);
  }

  lemma FirstDecodes(s: string, i: nat, item: Item, rest: string, next: nat, entity: string -> string)
    requires Proper(item) && i <= |s| && s[i..] == Piece(item) + rest && next == i + |Piece(item)|
    ensures i < next <= |s| && s[next..] == rest
    ensures Decoded(s, i, entity) == Plain(item, entity) + Decoded(s, next, entity)
  {
    match item
    case Raw(c) => RawFirst(s, i, c, rest, next, entity);
    case Escaped(e) => EscapedFirst(s, i, e, rest, next, entity);
  }

  lemma {:induction false} DecodesFrom(s: string, i: nat, items: seq<Item>, entity: string -> string)
    requires AllProper(items) && i <= |s| && s[i..] == Written(items)
    ensures Decoded(s, i, entity) == Meaning(items, entity)
    decreases |items|
  {
    if items != [] {
      var next := i + |Piece(items[0])|;
      FirstDecodes(s, i, items[0], Written(items[1..]), next, entity);
      DecodesFrom(s, next, items[1..], entity);
    }
  }

  /** Decoding undoes every escaping: whichever bytes are escaped, and however, the text comes back as
  the entities' characters. They are never looked at again. */
  lemma UndoesEscaping(items: seq<Item>, entity: string -> string)
    requires AllProper(items)
    ensures Decoded(Written(items), 0, entity) == Meaning(items, entity)
  {
    assert Written(items)[0..] == Written(items);
    DecodesFrom(Written(items), 0, items, entity);
  }

  /** So text escaped twice comes back escaped once. */
  lemma OneLevelAtATime(inner: seq<Item>, outer: seq<Item>, entity: string -> string)
    requires AllProper(inner) && AllProper(outer) && Meaning(outer, entity) == Written(inner)
    ensures Decoded(Written(outer), 0, entity) == Written(inner)
    ensures Decoded(Decoded(Written(outer), 0, entity), 0, entity) == Meaning(inner, entity)
  {
    UndoesEscaping(outer, entity);
    UndoesEscaping(inner, entity);
  }

  lemma {:induction false} NoAmpersandNoChange(s: string, i: nat, entity: string -> string)
    requires i <= |s| && '&' !in s[i..]
    ensures Decoded(s, i, entity) == s[i..]
    decreases |s| - i
  {
    if i < |s| {
      assert s[i] in s[i..];
      NoAmpersandNoChange(s, i + 1, entity);
      assert s[i..] == [s[i]] + s[i + 1..];
    }
  }

  lemma AloneDecodes(e: string, entity: string -> string)
    requires '&' !in e && ';' !in e
    ensures Decoded("&" + e + ";", 0, entity) == if |e| <= 9 then entity(e) else "&" + e + ";"
  {
    if |e| <= 9 {
      UndoesEscaping([Escaped(e)], entity);
      assert Meaning([Escaped(e)][1..], entity) == "";
      assert Written([Escaped(e)]) == "&" + e + ";";
      assert entity(e) + "" == entity(e);
    } else {
      TooLong("&" + e + ";", e, entity);
    }
  }

  lemma TooLong(text: string, e: string, entity: string -> string)
    requires '&' !in e && ';' !in e && |e| > 9 && text == "&" + e + ";"
    ensures Decoded(text, 0, entity) == text
  {
    forall k | 0 < k <= |e| ensures text[k] != ';' { assert text[k] == e[k - 1]; }
    FindCharIs(text, ';', 0, |e| + 1);
    assert text[1..] == e + ";";
    NoAmpersandNoChange(text, 1, entity);
    assert text == "&" + text[1..];
  }

  // ---- The entities it knows ----

  /** How one code point is written: its own bytes, or an entity for it. */
  datatype Choice = AsIs | By(e: string)

  predicate Suits(how: Choice, cp: CodePoint) {
    match how
    case AsIs => cp != '&' as int
    case By(e) => Code(e) == Some(cp) && |e| <= 9
  }

  predicate AllSuit(how: seq<Choice>, text: seq<CodePoint>) {
    |how| == |text| && forall k :: 0 <= k < |text| ==> Suits(how[k], text[k])
  }

  function Raws(bytes: string): seq<Item> {
    seq(|bytes|, i requires 0 <= i < |bytes| => Raw(bytes[i]))
  }

  function Items(how: seq<Choice>, text: seq<CodePoint>): seq<Item>
    requires AllSuit(how, text)
  {
    if text == [] then []
    else
      assert Suits(how[0], text[0]);
      OneItem(how[0], text[0]) + Items(how[1..], text[1..])
  }

  function OneItem(how: Choice, cp: CodePoint): seq<Item>
    requires Suits(how, cp)
  {
    match how
    case AsIs => Raws(Utf8(cp))
    case By(e) => [Escaped(e)]
  }

  function Utf8All(text: seq<CodePoint>): string
  {
    if text == [] then "" else Utf8(text[0]) + Utf8All(text[1..])
  }

  lemma KnownHasNoSemicolon(e: string)
    requires Code(e).Some?
    ensures ';' !in e
  {
    if NamedCode(e) == None {
      forall k | 0 <= k < |e| ensures e[k] != ';' {
        var d := NumericDigits(e);
        var skip := |e| - |d|;
        if k >= skip { assert e[k] == d[k - skip] && DigitIn(d[k - skip], NumericBase(e)) >= 0; }
      }
    }
  }

  lemma {:induction false} MeaningConcat(a: seq<Item>, b: seq<Item>, entity: string -> string)
    ensures Meaning(a + b, entity) == Meaning(a, entity) + Meaning(b, entity)
  {
    if a == [] {
      assert a + b == b;
    } else {
      MeaningConcat(a[1..], b, entity);
      assert (a + b)[1..] == a[1..] + b;
      Associative(Plain(a[0], entity), Meaning(a[1..], entity), Meaning(b, entity));
    }
  }

  lemma {:induction false} RawsMean(bytes: string, entity: string -> string)
    requires '&' !in bytes
    ensures AllProper(Raws(bytes)) && Meaning(Raws(bytes), entity) == bytes
  {
    if bytes != "" {
      RawsMean(bytes[1..], entity);
      assert Raws(bytes)[1..] == Raws(bytes[1..]);
      assert bytes == [bytes[0]] + bytes[1..];
    }
  }

  lemma OneItemMeans(how: Choice, cp: CodePoint, entity: string -> string)
    requires Suits(how, cp)
    requires how.By? ==> entity(how.e) == Utf8(cp)
    ensures AllProper(OneItem(how, cp)) && Meaning(OneItem(how, cp), entity) == Utf8(cp)
  {
    match how
    case AsIs => RawsMean(Utf8(cp), entity);
    case By(e) =>
      KnownHasNoSemicolon(e);
      assert Meaning([Escaped(e)][1..], entity) == "";
      assert entity(e) + "" == entity(e);
  }

  lemma {:induction false} ItemsMean(how: seq<Choice>, text: seq<CodePoint>)
    requires AllSuit(how, text)
    ensures AllProper(Items(how, text)) && Meaning(Items(how, text), Entity) == Utf8All(text)
  {
    if text != [] {
      assert Suits(how[0], text[0]);
      OneItemMeans(how[0], text[0], Entity);
      ItemsMean(how[1..], text[1..]);
      MeaningConcat(OneItem(how[0], text[0]), Items(how[1..], text[1..]), Entity);
    }
  }

  /** Every escaping of a text decodes to the text: any of its code points by name, in decimal or in
  hexadecimal, the others as their UTF-8 bytes. */
  lemma AnyEscapingDecodes(how: seq<Choice>, text: seq<CodePoint>)
    requires AllSuit(how, text)
    ensures Decoded(Written(Items(how, text)), 0, Entity) == Utf8All(text)
  {
    ItemsMean(how, text);
    UndoesEscaping(Items(how, text), Entity);
  }

  // The code points that HTML gives those six names (section 13.5 of the HTML Standard).
  function HtmlCode(e: string): Option<CodePoint> {
    if e == "amp" then Some(0x26)
    else if e == "lt" then Some(0x3C)
    else if e == "gt" then Some(0x3E)
    else if e == "quot" then Some(0x22)
    else if e == "apos" then Some(0x27)
    else if e == "nbsp" then Some(0xA0)
    else None
  }

  /** It knows those names and no others, and they mean what they mean in HTML with one exception: a no-break
  space becomes a plain one. */
  lemma NamesAgreeExactlyWhen(e: string)
    ensures NamedCode(e).Some? <==> HtmlCode(e).Some?
    ensures NamedCode(e) == HtmlCode(e) <==> e != "nbsp"
  {
  }

  lemma NoBreakSpaceDecodes()
    ensures Decoded("&" + "nbsp" + ";", 0, Entity) == [' '] && HtmlCode("nbsp") == Some(0xA0) && Utf8(0xA0) != [' ']
  {
    assert forall k :: 0 <= k < |"nbsp"| ==> "nbsp"[k] != '&' && "nbsp"[k] != ';';
    AloneDecodes("nbsp", Entity);
  }

  // A numeric entity as it is written: decimal, or hexadecimal after the mark x.
  function Numeric(digits: string, hex: bool, x: char): string {
    if hex then ['#', x] + digits else ['#'] + digits
  }

  function BaseOf(hex: bool): Base { if hex then Hex else Dec }

  lemma NumericIs(digits: string, hex: bool, x: char)
    requires digits != "" && AllIn(digits, BaseOf(hex)) && HexMark(x)
    ensures var e := Numeric(digits, hex, x);
      NamedCode(e) == None && NumericBase(e) == BaseOf(hex) && NumericDigits(e) == digits
  {
    assert DigitIn(digits[0], BaseOf(hex)) >= 0;
    NumberIsNoName(Numeric(digits, hex, x));
    if hex { assert Numeric(digits, hex, x)[2..] == digits; } else { assert Numeric(digits, hex, x)[1..] == digits; }
  }

  lemma NumberIsNoName(e: string)
    requires e != "" && e[0] == '#'
    ensures NamedCode(e) == None
  {
    assert "amp"[0] == 'a' && "lt"[0] == 'l' && "gt"[0] == 'g';
    assert "quot"[0] == 'q' && "apos"[0] == 'a' && "nbsp"[0] == 'n';
  }

  lemma NumericHasNeither(digits: string, hex: bool, x: char)
    requires AllIn(digits, BaseOf(hex)) && HexMark(x)
    ensures var e := Numeric(digits, hex, x); '&' !in e && ';' !in e
  {
    forall k | 0 <= k < |digits| ensures digits[k] != '&' && digits[k] != ';' {
      assert DigitIn(digits[k], BaseOf(hex)) >= 0;
    }
  }

  /** A numeric entity decodes exactly when it is at most nine characters long and its value is a
  code point; else it stays as written. */
  lemma NumericDecodesExactlyWhen(digits: string, hex: bool, x: char)
    requires digits != "" && AllIn(digits, BaseOf(hex)) && HexMark(x)
    ensures var e, v := Numeric(digits, hex, x), Value(digits, BaseOf(hex));
      Decoded("&" + e + ";", 0, Entity) ==
        if |e| <= 9 && v <= 0x10FFFF then Utf8(v) else "&" + e + ";"
  {
    NumericIs(digits, hex, x);
    NumericHasNeither(digits, hex, x);
    AloneDecodes(Numeric(digits, hex, x), Entity);
  }

  // The digits of a number after # or, in hexadecimal, after #x or #X.
  predicate Numbers(e: string, digits: string, hex: bool, x: char) {
    digits != "" && AllIn(digits, BaseOf(hex)) && (x == 'x' || x == 'X') && e == Numeric(digits, hex, x)
  }

  lemma NumericNumbers(e: string)
    requires IsNumeric(e)
    ensures exists digits, hex, x :: Numbers(e, digits, hex, x)
  {
    if |e| > 1 && HexMark(e[1]) {
      assert Numbers(e, NumericDigits(e), true, e[1]);
    } else {
      assert Numbers(e, NumericDigits(e), false, 'x');
    }
  }

  /** Every other entity stays as written. */
  lemma OthersStay(e: string)
    requires '&' !in e && ';' !in e && HtmlCode(e) == None
    requires !exists digits, hex, x :: Numbers(e, digits, hex, x)
    ensures Decoded("&" + e + ";", 0, Entity) == "&" + e + ";"
  {
    AloneDecodes(e, Entity);
    if IsNumeric(e) { NumericNumbers(e); }
  }

  // ---- The program ----

  /** entity_char. The 32-bit accumulator never wraps. */
  method EntityChar(e: string) returns (r: Option<CodePoint>)
    ensures r == Code(e)
  {
    r := NamedCode(e);
    if r.Some? { return; }
    if e == "" || e[0] != '#' { return None; }
    if |e| == 1 { return None; }
    var base, digits := Dec, e[1..];
    if HexMark(digits[0]) {
      base, digits := Hex, digits[1..];
      assert digits == e[2..];
      if digits == "" { return None; }
    }
    r := Accumulate(digits, base);
  }

  lemma NoWrap(code: nat, d: nat, base: Base)
    requires code <= MAX_CODE && d < 16
    ensures (Times(code, base) + d) % 0x1_0000_0000 == Times(code, base) + d
  {
  }

  method Accumulate(digits: string, base: Base) returns (r: Option<CodePoint>)
    requires digits != ""
    ensures r == if AllIn(digits, base) && Value(digits, base) <= MAX_CODE then Some(Value(digits, base)) else None
  {
    var code: nat := 0;
    for i := 0 to |digits|
      invariant AllIn(digits[..i], base) && code == Value(digits[..i], base) && code <= MAX_CODE
    {
      var d := DigitIn(digits[i], base);
      if d < 0 { return None; }
      PrefixStep(digits, i, base);
      NoWrap(code, d, base);
      code := (Times(code, base) + d) % 0x1_0000_0000;
      if code > MAX_CODE { return None; }
    }
    assert digits[..|digits|] == digits;
    return Some(code);
  }

  lemma {:induction false} PlainRun(s: string, i: nat, at: nat, entity: string -> string)
    requires i <= at <= |s| && forall k :: i <= k < at ==> s[k] != '&'
    ensures Decoded(s, i, entity) == s[i..at] + Decoded(s, at, entity)
    decreases at - i
  {
    var tail := Decoded(s, at, entity);
    if i < at {
      PlainRun(s, i + 1, at, entity);
      RawAt(s, i, entity);
      OneLonger(s, i, at, tail);
    } else {
      assert s[i..at] == "" && "" + tail == tail;
    }
  }

  lemma OneLonger(s: string, i: nat, at: nat, tail: string)
    requires i < at <= |s|
    ensures [s[i]] + (s[i + 1..at] + tail) == s[i..at] + tail
  {
    assert s[i..at] == [s[i]] + s[i + 1..at];
  }

  method Replace(e: string, whole: string) returns (piece: string)
    requires whole == "&" + e + ";"
    ensures piece == Entity(e)
  {
    var c := EntityChar(e);
    return if c.Some? then Utf8(c.value) else whole;
  }

  lemma WholeEntity(s: string, at: nat, semi: nat)
    requires at < semi < |s| && s[at] == '&' && s[semi] == ';'
    ensures s[at..semi + 1] == "&" + s[at + 1..semi] + ";"
  {
  }

  // What the ampersand at `at` begins, and where reading goes on.
  method ReadEntity(s: string, at: nat) returns (piece: string, next: nat)
    requires at < |s| && s[at] == '&'
    ensures at < next <= |s|
    ensures var semi := FindChar(s, ';', at);
      if semi < |s| && semi - at <= 10 then piece == Entity(s[at + 1..semi]) && next == semi + 1
      else piece == "&" && next == at + 1
  {
    var semi := Find(s, ';', at);
    if semi < |s| && semi - at <= 10 {
      WholeEntity(s, at, semi);
      piece := Replace(s[at + 1..semi], s[at..semi + 1]);
      next := semi + 1;
    } else {
      piece, next := "&", at + 1;
    }
  }

  lemma PlainStep(out: string, s: string, rest: nat, at: nat, entity: string -> string)
    requires rest <= |s| && at == FindChar(s, '&', rest)
    ensures out + Decoded(s, rest, entity) == (out + s[rest..at]) + Decoded(s, at, entity)
  {
    FindCharSkips(s, '&', rest);
    PlainRun(s, rest, at, entity);
    Associative(out, s[rest..at], Decoded(s, at, entity));
  }

  lemma EntityStep(out: string, s: string, at: nat, piece: string, next: nat, entity: string -> string)
    requires at < |s| && s[at] == '&'
    requires var semi := FindChar(s, ';', at);
      if semi < |s| && semi - at <= 10 then piece == entity(s[at + 1..semi]) && next == semi + 1
      else piece == "&" && next == at + 1
    ensures out + Decoded(s, at, entity) == (out + piece) + Decoded(s, next, entity)
  {
    Associative(out, piece, Decoded(s, next, entity));
  }

  /** decode_entities: `rest` is what of s is still to be read. */
  method DecodeEntities(s: string) returns (out: string)
    ensures out == Decoded(s, 0, Entity)
  {
    out := "";
    var rest: nat := 0;
    assert "" + Decoded(s, 0, Entity) == Decoded(s, 0, Entity);
    while true
      invariant rest <= |s| && out + Decoded(s, rest, Entity) == Decoded(s, 0, Entity)
      decreases |s| - rest
    {
      var at := Find(s, '&', rest);
      PlainStep(out, s, rest, at, Entity);
      if at == |s| { break; }
      out := out + s[rest..at];
      var piece, next := ReadEntity(s, at);
      EntityStep(out, s, at, piece, next, Entity);
      out := out + piece;
      rest := next;
    }
    assert s[rest..|s|] == s[rest..];
    out := out + s[rest..];
    assert out + "" == out;
  }
}
