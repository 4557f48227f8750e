/** JSON text as Python's `json` module prints and parses it: `json.dumps` with its
    default separators and ASCII escapes, `json.loads` as a recursive-descent parser.
    Sections 4 to 7 of RFC 8259 give the grammar. A number is the literal it prints as. */
module JsonText {
  import opened Wrappers
  import opened Ordering

  datatype Member = Member(key: string, value: Json)

  datatype Json =
    | Null
    | Bool(b: bool)
    | Num(text: string)
    | Str(s: string)
    | Arr(items: seq<Json>)
    | Obj(members: seq<Member>)

  predicate DistinctKeys(ms: seq<Member>) {
    forall i, j :: 0 <= i < j < |ms| ==> ms[i].key != ms[j].key
  }

  /** The trees Python can hold: every number is a number literal, no dict repeats a key. */
  predicate Valid(v: Json) {
    match v
    case Num(text) => IsNumber(text)
    case Arr(items) => forall i :: 0 <= i < |items| ==> Valid(items[i])
    case Obj(ms) => DistinctKeys(ms) && forall i :: 0 <= i < |ms| ==> Valid(ms[i].value)
    case _ => true
  }

  predicate ValidValues(ms: seq<Member>) {
    forall m :: m in ms ==> Valid(m.value)
  }

  // ----- Numbers: the decoder's greedy literal match -----

  predicate IsDigit(c: char) { '0' <= c <= '9' }

  function DigitsLen(s: string): (n: nat)
    ensures n <= |s|
  {
    if s == "" || !IsDigit(s[0]) then 0 else 1 + DigitsLen(s[1..])
  }

  function IntLen(s: string): (n: nat)
    ensures n <= |s|
  {
    var sign := if s != "" && s[0] == '-' then 1 else 0;
    var digits := s[sign..];
    var n := if digits != "" && digits[0] == '0' then 1 else DigitsLen(digits);
    if n == 0 then 0 else sign + n
  }

  function FracLen(s: string): (n: nat)
    ensures n <= |s|
  {
    if s != "" && s[0] == '.' && DigitsLen(s[1..]) > 0 then 1 + DigitsLen(s[1..]) else 0
  }

  function ExpLen(s: string): (n: nat)
    ensures n <= |s|
  {
    if s != "" && (s[0] == 'e' || s[0] == 'E') then
      var k := if |s| > 1 && (s[1] == '+' || s[1] == '-') then 2 else 1;
      if DigitsLen(s[k..]) > 0 then k + DigitsLen(s[k..]) else 0
    else 0
  }

  function NumberLen(s: string): (n: nat)
    ensures n <= |s|
  {
    var i := IntLen(s);
    if i == 0 then
      if "NaN" <= s then 3 else if "Infinity" <= s then 8 else if "-Infinity" <= s then 9 else 0
    else
      var f := i + FracLen(s[i..]);
      f + ExpLen(s[f..])
  }

  predicate IsNumber(text: string) {
    text != "" && NumberLen(text) == |text|
  }

  /** What may follow a value inside a document. */
  predicate Delimited(rest: string) {
    rest == "" || IsSpace(rest[0]) || rest[0] == ',' || rest[0] == ']' || rest[0] == '}'
  }

  lemma {:induction false} DigitsLenDelimited(s: string, rest: string)
    requires Delimited(rest)
    ensures DigitsLen(s + rest) == DigitsLen(s)
  {
    if s != "" {
      assert (s + rest)[1..] == s[1..] + rest;
      DigitsLenDelimited(s[1..], rest);
    } else {
      assert s + rest == rest;
    }
  }

  lemma {:induction false} IntLenDelimited(s: string, rest: string)
    requires Delimited(rest) && s != ""
    ensures IntLen(s + rest) == IntLen(s)
  {
    var sign := if s[0] == '-' then 1 else 0;
    assert (s + rest)[sign..] == s[sign..] + rest;
    DigitsLenDelimited(s[sign..], rest);
  }

  lemma {:induction false} FracLenDelimited(s: string, rest: string)
    requires Delimited(rest)
    ensures FracLen(s + rest) == FracLen(s)
  {
    if s == "" {
      assert s + rest == rest;
    } else {
      assert (s + rest)[1..] == s[1..] + rest;
      DigitsLenDelimited(s[1..], rest);
    }
  }

  lemma {:induction false} ExpLenDelimited(s: string, rest: string)
    requires Delimited(rest)
    ensures ExpLen(s + rest) == ExpLen(s)
  {
    if s == "" {
      assert s + rest == rest;
    } else if |s| == 1 {
      assert (s + rest)[1..] == rest && s[1..] == "";
      DigitsLenDelimited("", rest);
      assert "" + rest == rest;
    } else {
      assert (s + rest)[1..] == s[1..] + rest && (s + rest)[2..] == s[2..] + rest;
      DigitsLenDelimited(s[1..], rest);
      DigitsLenDelimited(s[2..], rest);
    }
  }

  /** The literals that are not numerals are told apart by their own text. */
  lemma SpecialDelimited(text: string, rest: string)
    requires IsNumber(text) && IntLen(text) == 0 && Delimited(rest)
    ensures NumberLen(text + rest) == |text|
  {
    IntLenDelimited(text, rest);
    assert text == "NaN" || text == "Infinity" || text == "-Infinity";
    assert text <= text + rest;
  }

  lemma DropAppend(s: string, rest: string, i: nat)
    requires i <= |s|
    ensures (s + rest)[i..] == s[i..] + rest
  {}

  lemma FracExpTail(text: string, rest: string, i: nat)
    requires Delimited(rest) && i <= |text|
    ensures i + FracLen((text + rest)[i..]) == i + FracLen(text[i..])
    ensures ExpLen((text + rest)[i..]) == ExpLen(text[i..])
  {
    DropAppend(text, rest, i);
    FracLenDelimited(text[i..], rest);
    ExpLenDelimited(text[i..], rest);
  }

  lemma NumeralDelimited(text: string, rest: string)
    requires IsNumber(text) && IntLen(text) > 0 && Delimited(rest)
    ensures NumberLen(text + rest) == |text|
  {
    IntLenDelimited(text, rest);
    FracExpTail(text, rest, IntLen(text));
    FracExpTail(text, rest, IntLen(text) + FracLen(text[IntLen(text)..]));
  }

  /** A number literal is read back whole whatever delimiter follows it. */
  lemma NumberLenDelimited(text: string, rest: string)
    requires IsNumber(text) && Delimited(rest)
    ensures NumberLen(text + rest) == |text|
  {
    if IntLen(text) == 0 {
      SpecialDelimited(text, rest);
    } else {
      NumeralDelimited(text, rest);
    }
  }

  // ----- Strings -----

  function HexDigit(n: nat): char
    requires n < 16
  {
    if n < 10 then (n + '0' as int) as char else (n - 10 + 'a' as int) as char
  }

  function HexValue(c: char): Option<nat> {
    if '0' <= c <= '9' then Some(c as int - '0' as int)
    else if 'a' <= c <= 'f' then Some(c as int - 'a' as int + 10)
    else if 'A' <= c <= 'F' then Some(c as int - 'A' as int + 10)
    else None
  }

  function Hex4(n: nat): (r: string)
    requires n < 0x10000
    ensures |r| == 4
  {
    [HexDigit(n / 4096), HexDigit(n / 256 % 16), HexDigit(n / 16 % 16), HexDigit(n % 16)]
  }

  function ReadHex4(s: string): Option<nat> {
    if |s| < 4 then None
    else
      match (HexValue(s[0]), HexValue(s[1]), HexValue(s[2]), HexValue(s[3]))
      case (Some(a), Some(b), Some(c), Some(d)) => Some(4096 * a + 256 * b + 16 * c + d)
      case _ => None
  }

  lemma NibblesOf(n: nat)
    ensures n == 4096 * (n / 4096) + 256 * (n / 256 % 16) + 16 * (n / 16 % 16) + n % 16
  {
    assert n / 256 == 16 * (n / 4096) + n / 256 % 16;
  }

  lemma Hex4RoundTrip(n: nat, rest: string)
    requires n < 0x10000
    ensures ReadHex4(Hex4(n) + rest) == Some(n) && (Hex4(n) + rest)[4..] == rest
  {
    var (a, b, c, d) := (n / 4096, n / 256 % 16, n / 16 % 16, n % 16);
    NibblesOf(n);
    var s := Hex4(n) + rest;
    assert s[0] == HexDigit(a) && s[1] == HexDigit(b) && s[2] == HexDigit(c) && s[3] == HexDigit(d);
  }

  /** The characters with a two-character escape, and the second of the two. */
  function ShortEscape(c: char): (r: Option<char>)
    ensures r != Some('u')
  {
    if c == '\"' then Some('\"')
    else if c == '\\' then Some('\\')
    else if c == '\n' then Some('n')
    else if c == '\r' then Some('r')
    else if c == '\t' then Some('t')
    else if c == '\U{8}' then Some('b')
    else if c == '\U{C}' then Some('f')
    else None
  }

  function SurrogatePair(high: nat, low: nat): string
    requires high < 0x10000 && low < 0x10000
  {
    Hex4(high) + ("\\u" + Hex4(low))
  }

  /** What follows the first `\u`: one group of hex digits, or a surrogate pair's two. */
  function UnicodeEscape(c: char): string {
    if c as int < 0x10000 then Hex4(c as int)
    else
      var v := c as int - 0x10000;
      SurrogatePair(0xD800 + v / 1024, 0xDC00 + v % 1024)
  }

  function EscapeChar(c: char): (r: string)
    ensures r != ""
  {
    match ShortEscape(c)
    case Some(e) => ['\\', e]
    case None => if ' ' <= c <= '~' then [c] else ['\\', 'u'] + UnicodeEscape(c)
  }

  function Escape(s: string): string {
    if s == "" then "" else EscapeChar(s[0]) + Escape(s[1..])
  }

  /** The character an escape sequence stands for, read after its backslash. */
  function ReadEscape(s: string): (r: Option<(char, string)>)
    ensures r.Some? ==> |r.value.1| < |s|
  {
    if s == "" then None
    else if s[0] == '\"' then Some(('\"', s[1..]))
    else if s[0] == '\\' then Some(('\\', s[1..]))
    else if s[0] == '/' then Some(('/', s[1..]))
    else if s[0] == 'n' then Some(('\n', s[1..]))
    else if s[0] == 'r' then Some(('\r', s[1..]))
    else if s[0] == 't' then Some(('\t', s[1..]))
    else if s[0] == 'b' then Some(('\U{8}', s[1..]))
    else if s[0] == 'f' then Some(('\U{C}', s[1..]))
    else if s[0] == 'u' then ReadUnicode(s[1..])
    else None
  }

  /** Four hex digits, and a second escaped group when they are a high surrogate. A lone
      surrogate is refused: it is no character of Dafny's, nor of a stored payload. */
  function ReadUnicode(s: string): (r: Option<(char, string)>)
    ensures r.Some? ==> |r.value.1| < |s|
  {
    match ReadHex4(s)
    case None => None
    case Some(u) =>
      if u < 0xD800 || 0xE000 <= u < 0x10000 then Some((u as char, s[4..]))
      else if u < 0xDC00 && |s| > 5 && s[4] == '\\' && s[5] == 'u' then ReadLowSurrogate(u, s[6..])
      else None
  }

  function ReadLowSurrogate(high: nat, s: string): (r: Option<(char, string)>)
    requires 0xD800 <= high < 0xDC00
    ensures r.Some? ==> |r.value.1| < |s|
  {
    match ReadHex4(s)
    case None => None
    case Some(low) =>
      if 0xDC00 <= low < 0xE000 then
        Some(((0x10000 + (high - 0xD800) * 1024 + (low - 0xDC00)) as char, s[4..]))
      else None
  }

  /** One character of a string body, and what follows it. */
  function ReadChar(s: string): (r: Option<(char, string)>)
    requires s != ""
    ensures r.Some? ==> |r.value.1| < |s|
  {
    if s[0] == '\\' then ReadEscape(s[1..])
    else if s[0] < ' ' then None
    else Some((s[0], s[1..]))
  }

  /** A string body up to and including its closing quote. */
  function ReadString(s: string): (r: Option<(string, string)>)
    ensures r.Some? ==> |r.value.1| < |s|
  {
    if s == "" then None
    else if s[0] == '\"' then Some(("", s[1..]))
    else
      match ReadChar(s)
      case None => None
      case Some((c, s1)) =>
        match ReadString(s1)
        case None => None
        case Some((cs, s2)) => Some(([c] + cs, s2))
  }

  lemma SurrogateSplit(n: nat)
    requires 0x10000 <= n < 0x110000
    ensures var v := n - 0x10000;
            v / 1024 < 1024 && v % 1024 < 1024 && 0x10000 + v / 1024 * 1024 + v % 1024 == n
  {}

  lemma SurrogatesRoundTrip(high: nat, low: nat, rest: string)
    requires 0xD800 <= high < 0xDC00 && 0xDC00 <= low < 0xE000
    ensures ReadUnicode(SurrogatePair(high, low) + rest)
            == Some(((0x10000 + (high - 0xD800) * 1024 + (low - 0xDC00)) as char, rest))
  {
    var second := Hex4(low) + rest;
    var s := Hex4(high) + ("\\u" + second);
    assert SurrogatePair(high, low) + rest == s;
    Hex4RoundTrip(high, "\\u" + second);
    assert s[4] == '\\' && s[5] == 'u' && s[6..] == second;
    Hex4RoundTrip(low, rest);
  }

  lemma PlainCharRoundTrip(c: char, rest: string)
    requires ShortEscape(c) == None && ' ' <= c
    ensures ReadChar([c] + rest) == Some((c, rest))
  {
    assert ([c] + rest)[1..] == rest;
  }

  lemma ShortEscapeRoundTrip(c: char, e: char, rest: string)
    requires ShortEscape(c) == Some(e)
    ensures ReadChar(['\\', e] + rest) == Some((c, rest))
  {
    assert (['\\', e] + rest)[1..] == [e] + rest;
    assert ([e] + rest)[1..] == rest;
  }

  lemma UnicodeEscapeRoundTrip(c: char, rest: string)
    ensures ReadUnicode(UnicodeEscape(c) + rest) == Some((c, rest))
  {
    if c as int < 0x10000 {
      Hex4RoundTrip(c as int, rest);
    } else {
      var v := c as int - 0x10000;
      SurrogateSplit(c as int);
      SurrogatesRoundTrip(0xD800 + v / 1024, 0xDC00 + v % 1024, rest);
    }
  }

  lemma ReadCharUnicode(body: string, c: char, rest: string)
    requires ReadUnicode(body) == Some((c, rest))
    ensures ReadChar(['\\', 'u'] + body) == Some((c, rest))
  {
    assert (['\\', 'u'] + body)[1..] == ['u'] + body;
    assert (['u'] + body)[1..] == body;
  }

  lemma EscapeCharRoundTrip(c: char, rest: string)
    ensures var s := EscapeChar(c) + rest;
            s != "" && s[0] != '\"' && ReadChar(s) == Some((c, rest))
  {
    if ShortEscape(c).Some? {
      ShortEscapeRoundTrip(c, ShortEscape(c).value, rest);
    } else if ' ' <= c <= '~' {
      PlainCharRoundTrip(c, rest);
    } else {
      var body := UnicodeEscape(c);
      assert EscapeChar(c) + rest == ['\\', 'u'] + (body + rest);
      UnicodeEscapeRoundTrip(c, rest);
      ReadCharUnicode(body + rest, c, rest);
    }
  }

  lemma ReadStringStep(s: string, c: char, tail: string, cs: string, rest: string)
    requires s != "" && s[0] != '\"' && ReadChar(s) == Some((c, tail)) && ReadString(tail) == Some((cs, rest))
    ensures ReadString(s) == Some(([c] + cs, rest))
  {}

  lemma {:induction false} StringRoundTrip(t: string, rest: string)
    ensures ReadString(Escape(t) + "\"" + rest) == Some((t, rest))
  {
    var s := Escape(t) + "\"" + rest;
    if t == "" {
      assert s == "\"" + rest && s[1..] == rest;
    } else {
      var tail := Escape(t[1..]) + "\"" + rest;
      assert s == EscapeChar(t[0]) + tail;
      EscapeCharRoundTrip(t[0], tail);
      StringRoundTrip(t[1..], rest);
      ReadStringStep(s, t[0], tail, t[1..], rest);
      assert t == [t[0]] + t[1..];
    }
  }

  // ----- Values -----

  /** `json.dumps(v)`. */
  function Render(v: Json): string {
    match v
    case Null => "null"
    case Bool(b) => if b then "true" else "false"
    case Num(text) => text
    case Str(s) => "\"" + Escape(s) + "\""
    case Arr(items) => "[" + RenderItems(items) + "]"
    case Obj(ms) => "{" + RenderMembers(ms) + "}"
  }

  function RenderItems(items: seq<Json>): string {
    if items == [] then ""
    else Render(items[0]) + (if |items| == 1 then "" else ", " + RenderItems(items[1..]))
  }

  function RenderMember(m: Member): string {
    "\"" + Escape(m.key) + "\": " + Render(m.value)
  }

  function RenderMembers(ms: seq<Member>): string {
    if ms == [] then ""
    else RenderMember(ms[0]) + (if |ms| == 1 then "" else ", " + RenderMembers(ms[1..]))
  }

  predicate IsSpace(c: char) {
    c == ' ' || c == '\t' || c == '\n' || c == '\r'
  }

  function SkipSpace(s: string): (r: string)
    ensures |r| <= |s|
  {
    if s != "" && IsSpace(s[0]) then SkipSpace(s[1..]) else s
  }

  /** `d[m.key] = m.value`: a repeated key keeps its place and takes the new value. */
  function Upsert(ms: seq<Member>, m: Member): (r: seq<Member>)
    ensures (forall i :: 0 <= i < |ms| ==> ms[i].key != m.key) ==> r == ms + [m]
  {
    if ms == [] then [m]
    else if ms[0].key == m.key then [m] + ms[1..]
    else [ms[0]] + Upsert(ms[1..], m)
  }

  /** `dict(pairs)`. */
  function DictOf(ms: seq<Member>): (r: seq<Member>)
    ensures DistinctKeys(ms) ==> r == ms
  {
    if ms == [] then []
    else
      var last := |ms| - 1;
      assert ms == ms[..last] + [ms[last]];
      Upsert(DictOf(ms[..last]), ms[last])
  }

  /** The decoder's `scan_once`: one value at the head of `s`, and what follows it. */
  function ReadValue(s: string): (r: Option<(Json, string)>)
    ensures r.Some? ==> |r.value.1| < |s|
    decreases |s|, 4
  {
    if s == "" then None
    else if s[0] == '\"' then
      match ReadString(s[1..])
      case None => None
      case Some((t, rest)) => Some((Str(t), rest))
    else if s[0] == '{' then ReadObject(SkipSpace(s[1..]))
    else if s[0] == '[' then ReadArray(SkipSpace(s[1..]))
    else ReadAtom(s)
  }

  function ReadAtom(s: string): (r: Option<(Json, string)>)
    requires s != ""
    ensures r.Some? ==> |r.value.1| < |s|
  {
    if s[0] == 'n' && "null" <= s then Some((Null, s[4..]))
    else if s[0] == 't' && "true" <= s then Some((Bool(true), s[4..]))
    else if s[0] == 'f' && "false" <= s then Some((Bool(false), s[5..]))
    else
      var n := NumberLen(s);
      if n == 0 then None else Some((Num(s[..n]), s[n..]))
  }

  function ReadArray(s: string): (r: Option<(Json, string)>)
    ensures r.Some? ==> |r.value.1| < |s|
    decreases |s|, 6
  {
    if s != "" && s[0] == ']' then Some((Arr([]), s[1..]))
    else
      match ReadItems(s)
      case None => None
      case Some((items, rest)) => Some((Arr(items), rest))
  }

  function ReadObject(s: string): (r: Option<(Json, string)>)
    ensures r.Some? ==> |r.value.1| < |s|
    decreases |s|, 3
  {
    if s != "" && s[0] == '}' then Some((Obj([]), s[1..]))
    else
      match ReadMembers(s)
      case None => None
      case Some((ms, rest)) => Some((Obj(DictOf(ms)), rest))
  }

  /** The items of an array, up to and including its closing bracket. */
  function ReadItems(s: string): (r: Option<(seq<Json>, string)>)
    ensures r.Some? ==> |r.value.1| < |s|
    decreases |s|, 5
  {
    match ReadValue(s)
    case None => None
    case Some((v, s1)) =>
      var s2 := SkipSpace(s1);
      if s2 != "" && s2[0] == ']' then Some(([v], s2[1..]))
      else if s2 != "" && s2[0] == ',' then
        match ReadItems(SkipSpace(s2[1..]))
        case None => None
        case Some((vs, rest)) => Some(([v] + vs, rest))
      else None
  }

  /** One `"key": value`, and what follows it. */
  function ReadMember(s: string): (r: Option<(Member, string)>)
    ensures r.Some? ==> |r.value.1| < |s|
    decreases |s|, 0
  {
    if s == "" || s[0] != '\"' then None
    else
      match ReadString(s[1..])
      case None => None
      case Some((key, s1)) =>
        var s2 := SkipSpace(s1);
        if s2 == "" || s2[0] != ':' then None
        else
          match ReadValue(SkipSpace(s2[1..]))
          case None => None
          case Some((v, rest)) => Some((Member(key, v), rest))
  }

  /** The members of an object, up to and including its closing brace. */
  function ReadMembers(s: string): (r: Option<(seq<Member>, string)>)
    ensures r.Some? ==> |r.value.1| < |s|
    decreases |s|, 1
  {
    match ReadMember(s)
    case None => None
    case Some((m, s1)) =>
      var s2 := SkipSpace(s1);
      if s2 != "" && s2[0] == '}' then Some(([m], s2[1..]))
      else if s2 != "" && s2[0] == ',' then
        match ReadMembers(SkipSpace(s2[1..]))
        case None => None
        case Some((ms, rest)) => Some(([m] + ms, rest))
      else None
  }

  /** `json.loads(s)`; None is a decode error. */
  function Loads(s: string): Option<Json> {
    match ReadValue(SkipSpace(s))
    case None => None
    case Some((v, rest)) => if SkipSpace(rest) == "" then Some(v) else None
  }

  // ----- Printing then parsing -----

  predicate StartsValue(s: string) {
    s != "" && !IsSpace(s[0]) && s[0] != ']' && s[0] != '}'
  }

  predicate NumberStart(c: char) {
    IsDigit(c) || c == '-' || c == 'N' || c == 'I'
  }

  lemma NumberHead(text: string)
    requires IsNumber(text)
    ensures NumberStart(text[0])
  {
    if IntLen(text) == 0 {
      assert text == "NaN" || text == "Infinity" || text == "-Infinity";
    }
  }

  lemma RenderStartsValue(v: Json)
    requires Valid(v)
    ensures StartsValue(Render(v))
  {
    if v.Num? {
      NumberHead(v.text);
    }
  }

  lemma ReadRenderedWord(v: Json, rest: string)
    requires v.Null? || v.Bool?
    ensures ReadValue(Render(v) + rest) == Some((v, rest))
  {
    var word := Render(v);
    var s := word + rest;
    assert s[0] == word[0] && word <= s && s[|word|..] == rest;
  }

  lemma ReadAtomNumber(s: string, n: nat)
    requires s != "" && NumberStart(s[0]) && NumberLen(s) == n > 0
    ensures ReadAtom(s) == Some((Num(s[..n]), s[n..]))
  {}

  lemma ReadValueAtom(s: string)
    requires s != "" && NumberStart(s[0])
    ensures ReadValue(s) == ReadAtom(s)
  {}

  lemma ReadRenderedNumber(text: string, rest: string)
    requires IsNumber(text) && Delimited(rest)
    ensures ReadValue(text + rest) == Some((Num(text), rest))
  {
    var s := text + rest;
    NumberLenDelimited(text, rest);
    NumberHead(text);
    assert s[0] == text[0];
    DropAppend(text, rest, |text|);
    assert s[..|text|] == text;
    ReadValueAtom(s);
    ReadAtomNumber(s, |text|);
  }

  lemma ReadQuoted(body: string, t: string, rest: string)
    requires ReadString(body) == Some((t, rest))
    ensures ReadValue(['\"'] + body) == Some((Str(t), rest))
  {
    Head('\"', body);
  }

  lemma ReadRenderedString(t: string, rest: string)
    ensures ReadValue(Render(Str(t)) + rest) == Some((Str(t), rest))
  {
    var body := Escape(t) + "\"" + rest;
    assert Render(Str(t)) + rest == ['\"'] + body;
    StringRoundTrip(t, rest);
    ReadQuoted(body, t, rest);
  }

  lemma Head(c: char, s: string)
    ensures ([c] + s)[0] == c && ([c] + s)[1..] == s
  {}

  lemma SkipOneSpace(tail: string)
    requires StartsValue(tail)
    ensures SkipSpace(" " + tail) == tail && SkipSpace(tail) == tail
  {
    Head(' ', tail);
  }

  lemma SkipComma(tail: string)
    requires StartsValue(tail)
    ensures var s := ", " + tail;
            SkipSpace(s) == s && s != "" && s[0] == ',' && SkipSpace(s[1..]) == tail
  {
    assert ", " + tail == [','] + (" " + tail);
    Head(',', " " + tail);
    SkipOneSpace(tail);
  }

  lemma ReadLastItem(s: string, v: Json, rest: string)
    requires ReadValue(s) == Some((v, "]" + rest))
    ensures ReadItems(s) == Some(([v], rest))
  {
    Head(']', rest);
  }

  lemma ReadNextItem(s: string, v: Json, tail: string, vs: seq<Json>, rest: string)
    requires ReadValue(s) == Some((v, ", " + tail)) && StartsValue(tail)
    requires ReadItems(tail) == Some((vs, rest))
    ensures ReadItems(s) == Some(([v] + vs, rest))
  {
    SkipComma(tail);
  }

  lemma ReadLastMember(s: string, m: Member, rest: string)
    requires ReadMember(s) == Some((m, "}" + rest))
    ensures ReadMembers(s) == Some(([m], rest))
  {
    Head('}', rest);
  }

  lemma ReadNextMember(s: string, m: Member, tail: string, ms: seq<Member>, rest: string)
    requires ReadMember(s) == Some((m, ", " + tail)) && StartsValue(tail)
    requires ReadMembers(tail) == Some((ms, rest))
    ensures ReadMembers(s) == Some(([m] + ms, rest))
  {
    SkipComma(tail);
  }

  lemma SkipColon(tail: string)
    requires StartsValue(tail)
    ensures var s := ": " + tail;
            SkipSpace(s) == s && s != "" && s[0] == ':' && SkipSpace(s[1..]) == tail
  {
    assert ": " + tail == [':'] + (" " + tail);
    Head(':', " " + tail);
    SkipOneSpace(tail);
  }

  lemma ReadMemberParts(key: string, tail: string, v: Json, rest: string)
    requires StartsValue(tail) && ReadValue(tail) == Some((v, rest))
    ensures ReadMember("\"" + (Escape(key) + "\"" + (": " + tail))) == Some((Member(key, v), rest))
  {
    Head('\"', Escape(key) + "\"" + (": " + tail));
    StringRoundTrip(key, ": " + tail);
    SkipColon(tail);
  }

  lemma ReadBracketed(items: seq<Json>, rest: string)
    requires items != [] && StartsValue(RenderItems(items) + ("]" + rest))
    requires ReadItems(RenderItems(items) + ("]" + rest)) == Some((items, rest))
    ensures ReadValue(Render(Arr(items)) + rest) == Some((Arr(items), rest))
  {
    var body := RenderItems(items) + ("]" + rest);
    assert Render(Arr(items)) + rest == ['['] + body;
    Head('[', body);
    SkipOneSpace(body);
  }

  lemma ReadBraced(ms: seq<Member>, rest: string)
    requires ms != [] && DistinctKeys(ms) && StartsValue(RenderMembers(ms) + ("}" + rest))
    requires ReadMembers(RenderMembers(ms) + ("}" + rest)) == Some((ms, rest))
    ensures ReadValue(Render(Obj(ms)) + rest) == Some((Obj(ms), rest))
  {
    var body := RenderMembers(ms) + ("}" + rest);
    assert Render(Obj(ms)) + rest == ['{'] + body;
    Head('{', body);
    SkipOneSpace(body);
  }

  lemma ReadEmpty(rest: string)
    ensures ReadValue(Render(Arr([])) + rest) == Some((Arr([]), rest))
    ensures ReadValue(Render(Obj([])) + rest) == Some((Obj([]), rest))
  {
    assert Render(Arr([])) == "[]" && Render(Obj([])) == "{}";
    assert "[]" + rest == "[" + ("]" + rest) && "{}" + rest == "{" + ("}" + rest);
    Head('[', "]" + rest);
    Head('{', "}" + rest);
    Head(']', rest);
    Head('}', rest);
  }

  lemma {:induction false} ReadRenderedValue(v: Json, rest: string)
    requires Valid(v) && Delimited(rest)
    ensures ReadValue(Render(v) + rest) == Some((v, rest))
    decreases v, 1
  {
    match v
    case Null => ReadRenderedWord(v, rest);
    case Bool(b) => ReadRenderedWord(v, rest);
    case Num(text) => ReadRenderedNumber(text, rest);
    case Str(t) => ReadRenderedString(t, rest);
    case Arr(items) =>
      if items == [] {
        ReadEmpty(rest);
      } else {
        ReadRenderedItems(items, rest);
        ItemsStart(items, "]" + rest);
        ReadBracketed(items, rest);
      }
    case Obj(ms) =>
      if ms == [] {
        ReadEmpty(rest);
      } else {
        ReadRenderedMembers(ms, rest);
        ReadBraced(ms, rest);
      }
  }

  lemma Closes(rest: string)
    ensures Delimited("]" + rest) && Delimited("}" + rest) && Delimited(", " + rest)
  {}

  lemma RenderItemsShape(items: seq<Json>, x: string)
    requires |items| > 1
    ensures RenderItems(items) + x == Render(items[0]) + (", " + (RenderItems(items[1..]) + x))
  {}

  lemma ItemsStart(items: seq<Json>, x: string)
    requires items != [] && Valid(items[0])
    ensures StartsValue(RenderItems(items) + x)
  {
    RenderStartsValue(items[0]);
  }

  lemma {:induction false} ReadRenderedItems(items: seq<Json>, rest: string)
    requires items != [] && forall i :: 0 <= i < |items| ==> Valid(items[i])
    ensures ReadItems(RenderItems(items) + ("]" + rest)) == Some((items, rest))
    decreases items, 0
  {
    var v := items[0];
    if |items| == 1 {
      Closes(rest);
      assert RenderItems(items) == Render(v);
      ReadRenderedValue(v, "]" + rest);
      ReadLastItem(Render(v) + ("]" + rest), v, rest);
      assert items == [v];
    } else {
      var tail := RenderItems(items[1..]) + ("]" + rest);
      RenderItemsShape(items, "]" + rest);
      ItemsStart(items[1..], "]" + rest);
      Closes(tail);
      ReadRenderedValue(v, ", " + tail);
      ReadRenderedItems(items[1..], rest);
      ReadNextItem(Render(v) + (", " + tail), v, tail, items[1..], rest);
      assert items == [v] + items[1..];
    }
  }

  lemma RenderMemberShape(m: Member, rest: string)
    ensures RenderMember(m) + rest == "\"" + (Escape(m.key) + "\"" + (": " + (Render(m.value) + rest)))
    ensures StartsValue(RenderMember(m))
  {}

  lemma {:induction false} ReadRenderedMember(m: Member, rest: string)
    requires Valid(m.value) && Delimited(rest)
    ensures ReadMember(RenderMember(m) + rest) == Some((m, rest))
    ensures StartsValue(RenderMember(m))
    decreases m, 0
  {
    var tail := Render(m.value) + rest;
    RenderStartsValue(m.value);
    ReadRenderedValue(m.value, rest);
    ReadMemberParts(m.key, tail, m.value, rest);
    RenderMemberShape(m, rest);
  }

  lemma RenderMembersShape(ms: seq<Member>, x: string)
    requires |ms| > 1
    ensures RenderMembers(ms) + x == RenderMember(ms[0]) + (", " + (RenderMembers(ms[1..]) + x))
  {}

  lemma {:induction false} ReadRenderedMembers(ms: seq<Member>, rest: string)
    requires ms != [] && forall i :: 0 <= i < |ms| ==> Valid(ms[i].value)
    ensures ReadMembers(RenderMembers(ms) + ("}" + rest)) == Some((ms, rest))
    ensures StartsValue(RenderMembers(ms) + ("}" + rest))
    decreases ms, 1
  {
    var m := ms[0];
    if |ms| == 1 {
      Closes(rest);
      assert RenderMembers(ms) == RenderMember(m);
      ReadRenderedMember(m, "}" + rest);
      ReadLastMember(RenderMember(m) + ("}" + rest), m, rest);
      assert ms == [m];
    } else {
      var tail := RenderMembers(ms[1..]) + ("}" + rest);
      RenderMembersShape(ms, "}" + rest);
      Closes(tail);
      ReadRenderedMember(m, ", " + tail);
      ReadRenderedMembers(ms[1..], rest);
      ReadNextMember(RenderMember(m) + (", " + tail), m, tail, ms[1..], rest);
      assert ms == [m] + ms[1..];
    }
  }

  /** Every tree Python can hold is parsed back, exactly, from the text it prints as. */
  lemma LoadsDumps(v: Json)
    requires Valid(v)
    ensures Loads(Render(v)) == Some(v)
  {
    ReadRenderedValue(v, "");
    RenderStartsValue(v);
    assert Render(v) + "" == Render(v);
  }

  // ----- Whatever is parsed is a tree Python can hold -----

  /** The literal matched at the head of a text, standing alone, is matched whole. */
  lemma {:induction false} DigitsPrefix(s: string, n: nat)
    requires DigitsLen(s) <= n <= |s|
    ensures DigitsLen(s[..n]) == DigitsLen(s)
  {
    if s != "" && IsDigit(s[0]) {
      assert s[..n][1..] == s[1..][..n - 1];
      DigitsPrefix(s[1..], n - 1);
    }
  }

  lemma IntPrefix(s: string, n: nat)
    requires IntLen(s) <= n <= |s| && IntLen(s) > 0
    ensures IntLen(s[..n]) == IntLen(s)
  {
    var sign := if s[0] == '-' then 1 else 0;
    assert s[..n][sign..] == s[sign..][..n - sign];
    var digits := s[sign..];
    if digits[0] != '0' {
      DigitsPrefix(digits, n - sign);
    }
  }

  lemma FracPrefix(s: string, n: nat)
    requires FracLen(s) <= n <= |s|
    ensures FracLen(s[..n]) == FracLen(s)
  {
    if s != "" && s[0] == '.' && n > 0 {
      assert s[..n][1..] == s[1..][..n - 1];
      if DigitsLen(s[1..]) > 0 {
        DigitsPrefix(s[1..], n - 1);
      } else if n > 1 {
        assert s[..n][1..][0] == s[1..][0];
      }
    }
  }

  lemma ExpPrefix(s: string, n: nat)
    requires ExpLen(s) == n <= |s|
    ensures ExpLen(s[..n]) == n
  {
    if n > 0 {
      var k := if |s| > 1 && (s[1] == '+' || s[1] == '-') then 2 else 1;
      assert s[..n][k..] == s[k..][..n - k];
      DigitsPrefix(s[k..], n - k);
    }
  }

  lemma TakeThenDrop(s: string, n: nat, i: nat)
    requires i <= n <= |s|
    ensures s[..n][i..] == s[i..][..n - i]
  {}

  lemma NumeralPrefix(s: string)
    requires IntLen(s) > 0
    ensures NumberLen(s[..NumberLen(s)]) == NumberLen(s)
  {
    var n, i := NumberLen(s), IntLen(s);
    var f := i + FracLen(s[i..]);
    IntPrefix(s, n);
    TakeThenDrop(s, n, i);
    TakeThenDrop(s, n, f);
    FracPrefix(s[i..], n - i);
    ExpPrefix(s[f..], n - f);
  }

  lemma NumberPrefix(s: string)
    requires NumberLen(s) > 0
    ensures IsNumber(s[..NumberLen(s)])
  {
    if IntLen(s) > 0 {
      NumeralPrefix(s);
    } else {
      var t := s[..NumberLen(s)];
      assert t == "NaN" || t == "Infinity" || t == "-Infinity";
    }
  }

  lemma {:induction false} UpsertDistinct(ms: seq<Member>, m: Member)
    requires DistinctKeys(ms)
    ensures DistinctKeys(Upsert(ms, m))
    ensures forall k :: k in Upsert(ms, m) ==> k == m || k in ms
    ensures forall k :: k in Upsert(ms, m) && k.key != m.key ==> k in ms
  {
    if ms != [] {
      var r := Upsert(ms, m);
      if ms[0].key == m.key {
        assert r == [m] + ms[1..];
      } else {
        UpsertDistinct(ms[1..], m);
        var tail := Upsert(ms[1..], m);
        assert r == [ms[0]] + tail;
        forall j | 0 <= j < |tail| ensures tail[j].key != ms[0].key {
          assert tail[j] in tail;
        }
      }
    }
  }

  lemma {:induction false} DictOfValid(ms: seq<Member>)
    requires ValidValues(ms)
    ensures Valid(Obj(DictOf(ms))) && ValidValues(DictOf(ms))
  {
    if ms != [] {
      var n := |ms| - 1;
      assert ms == ms[..n] + [ms[n]];
      DictOfValid(ms[..n]);
      UpsertDistinct(DictOf(ms[..n]), ms[n]);
      assert forall i :: 0 <= i < |DictOf(ms)| ==> DictOf(ms)[i] in DictOf(ms);
    }
  }

  lemma {:induction false} ReadValueValid(s: string)
    ensures ReadValue(s).Some? ==> Valid(ReadValue(s).value.0)
    decreases |s|, 4
  {
    if s == "" || s[0] == '\"' {
    } else if s[0] == '{' {
      var body := SkipSpace(s[1..]);
      ReadMembersValid(body);
      ReadObjectValid(body);
    } else if s[0] == '[' {
      var body := SkipSpace(s[1..]);
      ReadItemsValid(body);
      ReadArrayValid(body);
    } else if NumberLen(s) > 0 {
      NumberPrefix(s);
    }
  }

  lemma ReadObjectValid(s: string)
    requires ReadMembers(s).Some? ==> ValidValues(ReadMembers(s).value.0)
    ensures ReadObject(s).Some? ==> Valid(ReadObject(s).value.0)
  {
    if ReadMembers(s).Some? {
      DictOfValid(ReadMembers(s).value.0);
    }
  }

  lemma ReadArrayValid(s: string)
    requires ReadItems(s).Some? ==> forall v :: v in ReadItems(s).value.0 ==> Valid(v)
    ensures ReadArray(s).Some? ==> Valid(ReadArray(s).value.0)
  {}

  lemma {:induction false} ReadItemsValid(s: string)
    ensures ReadItems(s).Some? ==> forall v :: v in ReadItems(s).value.0 ==> Valid(v)
    decreases |s|, 5
  {
    ReadValueValid(s);
    if ReadValue(s).Some? {
      var s2 := SkipSpace(ReadValue(s).value.1);
      if s2 != "" && s2[0] == ',' {
        ReadItemsValid(SkipSpace(s2[1..]));
      }
    }
  }

  lemma {:induction false} ReadMemberValid(s: string)
    ensures ReadMember(s).Some? ==> Valid(ReadMember(s).value.0.value)
    decreases |s|, 0
  {
    if s != "" && s[0] == '\"' && ReadString(s[1..]).Some? {
      var s2 := SkipSpace(ReadString(s[1..]).value.1);
      if s2 != "" && s2[0] == ':' {
        ReadValueValid(SkipSpace(s2[1..]));
      }
    }
  }

  lemma {:induction false} ReadMembersValid(s: string)
    ensures ReadMembers(s).Some? ==> ValidValues(ReadMembers(s).value.0)
    decreases |s|, 1
  {
    ReadMemberValid(s);
    if ReadMember(s).Some? {
      var s2 := SkipSpace(ReadMember(s).value.1);
      if s2 != "" && s2[0] == ',' {
        ReadMembersValid(SkipSpace(s2[1..]));
      }
    }
  }

  /** Any text at all: what it parses to, if anything, is a tree Python can hold. */
  lemma LoadsValid(s: string)
    requires Loads(s).Some?
    ensures Valid(Loads(s).value)
  {
    ReadValueValid(SkipSpace(s));
  }

  // ----- Canonical form: json.dumps with sorted keys -----

  predicate KeyLess(a: Member, b: Member) {
    StrLess(a.key, b.key)
  }

  function Canon(v: Json): Json {
    match v
    case Arr(items) => Arr(CanonItems(items))
    case Obj(ms) => Obj(Sort(KeyLess, CanonMembers(ms)))
    case _ => v
  }

  function CanonItems(items: seq<Json>): (r: seq<Json>)
    ensures |r| == |items| && forall i :: 0 <= i < |r| ==> r[i] == Canon(items[i])
  {
    if items == [] then [] else [Canon(items[0])] + CanonItems(items[1..])
  }

  function CanonMembers(ms: seq<Member>): (r: seq<Member>)
    ensures |r| == |ms|
    ensures forall i :: 0 <= i < |r| ==> r[i] == Member(ms[i].key, Canon(ms[i].value))
  {
    if ms == [] then []
    else [Member(ms[0].key, Canon(ms[0].value))] + CanonMembers(ms[1..])
  }

  /** `canonical_json`. */
  function CanonicalJson(v: Json): string {
    Render(Canon(v))
  }

  /** Python's `==` on parsed payloads: dicts agree key by key, in whatever order. */
  ghost predicate SameTree(v: Json, w: Json)
    decreases v, 1
  {
    match (v, w)
    case (Arr(a), Arr(b)) => |a| == |b| && forall i :: 0 <= i < |a| ==> SameTree(a[i], b[i])
    case (Obj(a), Obj(b)) =>
      && (forall m :: m in a ==> SomeRight(m, b))
      && (forall n :: n in b ==> SomeLeft(a, n))
    case _ => v == w
  }

  ghost predicate SomeRight(m: Member, b: seq<Member>)
    decreases m, 1
  {
    exists n :: n in b && SameMember(m, n)
  }

  ghost predicate SomeLeft(a: seq<Member>, n: Member)
    decreases a, 0
  {
    exists m :: m in a && SameMember(m, n)
  }

  ghost predicate SameMember(m: Member, n: Member)
    decreases m, 0
  {
    m.key == n.key && SameTree(m.value, n.value)
  }

  lemma KeyLessLaws()
    ensures Transitive(KeyLess) && Asymmetric(KeyLess)
  {
    StrLessLaws();
    assert forall a: Member, b: Member, c: Member :: KeyLess(a, b) && KeyLess(b, c) ==> KeyLess(a, c);
    assert forall a: Member, b: Member :: KeyLess(a, b) ==> !KeyLess(b, a);
  }

  lemma DistinctKeysNoTies(ms: seq<Member>)
    requires DistinctKeys(ms)
    ensures NoTies(KeyLess, ms)
  {
    StrLessLaws();
    forall x, y | x in ms && y in ms && x != y ensures KeyLess(x, y) || KeyLess(y, x) {
      StrLessTotal(x.key, y.key);
    }
  }

  lemma SortedMembers(ms: seq<Member>)
    requires DistinctKeys(ms)
    ensures var r := Sort(KeyLess, CanonMembers(ms));
            DistinctKeys(r) && SortedBy(KeyLess, r) && NoTies(KeyLess, r)
            && (forall m :: m in r <==> m in CanonMembers(ms))
  {
    var cs := CanonMembers(ms);
    var r := Sort(KeyLess, cs);
    DistinctKeysNoTies(cs);
    KeyLessLaws();
    SortSorted(KeyLess, cs);
    SameElements(r, cs);
    DistinctTransfer(cs, r);
    DistinctKeysNoTies(r);
  }

  lemma SameElements<T>(a: seq<T>, b: seq<T>)
    requires multiset(a) == multiset(b)
    ensures |a| == |b| && forall x :: x in a <==> x in b
  {
    assert |multiset(a)| == |a| && |multiset(b)| == |b|;
    forall x ensures x in a <==> x in b {
      assert x in a <==> x in multiset(a);
      assert x in b <==> x in multiset(b);
    }
  }

  /** Rearranging members keeps their keys distinct. */
  lemma {:induction false} DistinctTransfer(a: seq<Member>, b: seq<Member>)
    requires multiset(a) == multiset(b) && DistinctKeys(a)
    ensures DistinctKeys(b)
  {
    SameElements(a, b);
    forall i, j | 0 <= i < j < |b| ensures b[i].key != b[j].key {
      if b[i] == b[j] {
        var rest := b[..i] + b[i + 1..];
        assert b == b[..i] + [b[i]] + b[i + 1..];
        assert rest[j - 1] == b[j] && b[j] in multiset(rest);
        assert multiset(b)[b[j]] >= 2;
        MultiplicityAtMostOne(a, b[j]);
      } else {
        assert b[i] in a && b[j] in a;
      }
    }
  }

  lemma {:induction false} MultiplicityAtMostOne(a: seq<Member>, m: Member)
    requires DistinctKeys(a)
    ensures multiset(a)[m] <= 1
  {
    if a != [] {
      assert a == [a[0]] + a[1..];
      MultiplicityAtMostOne(a[1..], m);
      if m == a[0] {
        assert m !in a[1..];
        assert m !in multiset(a[1..]);
      }
    }
  }

  lemma {:induction false} CanonValid(v: Json)
    requires Valid(v)
    ensures Valid(Canon(v))
  {
    match v
    case Arr(items) =>
      forall i | 0 <= i < |items| ensures Valid(Canon(items[i])) {
        CanonValid(items[i]);
      }
    case Obj(ms) =>
      var r := Sort(KeyLess, CanonMembers(ms));
      SortedMembers(ms);
      forall k | 0 <= k < |r| ensures Valid(r[k].value) {
        assert r[k] in CanonMembers(ms);
        var i :| 0 <= i < |ms| && r[k] == CanonMembers(ms)[i];
        CanonValid(ms[i].value);
      }
    case _ =>
  }

  /** Members whose values are canonical already stay as they are once sorted. */
  lemma SortedCanonFixed(ms: seq<Member>)
    requires DistinctKeys(ms) && forall m :: m in CanonMembers(ms) ==> Canon(m.value) == m.value
    ensures var r := Sort(KeyLess, CanonMembers(ms)); Sort(KeyLess, CanonMembers(r)) == r
  {
    var r := Sort(KeyLess, CanonMembers(ms));
    SortedMembers(ms);
    forall k | 0 <= k < |r| ensures CanonMembers(r)[k] == r[k] {
      assert r[k] in CanonMembers(ms);
    }
    assert CanonMembers(r) == r;
    KeyLessLaws();
    SortIsIdentity(KeyLess, r);
  }

  lemma {:induction false} CanonIdempotent(v: Json)
    requires Valid(v)
    ensures Canon(Canon(v)) == Canon(v)
  {
    match v
    case Arr(items) =>
      forall i | 0 <= i < |items| ensures Canon(Canon(items[i])) == Canon(items[i]) {
        CanonIdempotent(items[i]);
      }
      assert CanonItems(CanonItems(items)) == CanonItems(items);
    case Obj(ms) =>
      forall m | m in CanonMembers(ms) ensures Canon(m.value) == m.value {
        var i :| 0 <= i < |ms| && m == CanonMembers(ms)[i];
        CanonIdempotent(ms[i].value);
      }
      SortedCanonFixed(ms);
    case _ =>
  }

  /** Print, parse, print is print: what is parsed from a canonical text is the payload in
      canonical form, and it prints as the very same text. */
  lemma CanonicalFixpoint(v: Json)
    requires Valid(v)
    ensures Loads(CanonicalJson(v)) == Some(Canon(v))
    ensures CanonicalJson(Canon(v)) == CanonicalJson(v)
  {
    CanonValid(v);
    LoadsDumps(Canon(v));
    CanonIdempotent(v);
  }

  lemma {:induction false} SameTreeThenCanon(v: Json, w: Json)
    requires Valid(v) && Valid(w) && SameTree(v, w)
    ensures Canon(v) == Canon(w)
    decreases v, 2
  {
    match (v, w)
    case (Arr(a), Arr(b)) =>
      forall i | 0 <= i < |a| ensures Canon(a[i]) == Canon(b[i]) {
        SameTreeThenCanon(a[i], b[i]);
      }
      assert CanonItems(a) == CanonItems(b);
    case (Obj(a), Obj(b)) =>
      MembersThenCanon(a, b);
    case _ =>
  }

  function CanonMember(m: Member): Member {
    Member(m.key, Canon(m.value))
  }

  /** The members of the canonical list are the canonical forms of the members. */
  lemma CanonMembersImage(ms: seq<Member>, c: Member)
    ensures c in CanonMembers(ms) <==> exists m :: m in ms && CanonMember(m) == c
  {
    var cs := CanonMembers(ms);
    if c in cs {
      var i :| 0 <= i < |ms| && c == cs[i];
      assert ms[i] in ms && CanonMember(ms[i]) == c;
    }
    if m :| m in ms && CanonMember(m) == c {
      var i :| 0 <= i < |ms| && m == ms[i];
      assert cs[i] == c;
    }
  }

  lemma {:induction false} MatchThenCanon(a: seq<Member>, b: seq<Member>, m: Member, n: Member)
    requires ValidValues(a) && ValidValues(b) && m in a && n in b && SameMember(m, n)
    ensures CanonMember(m) == CanonMember(n)
    decreases a, 0
  {
    SameTreeThenCanon(m.value, n.value);
  }

  lemma {:induction false} MembersThenCanon(a: seq<Member>, b: seq<Member>)
    requires Valid(Obj(a)) && Valid(Obj(b)) && SameTree(Obj(a), Obj(b))
    ensures Sort(KeyLess, CanonMembers(a)) == Sort(KeyLess, CanonMembers(b))
    decreases a, 1
  {
    forall c ensures c in CanonMembers(a) <==> c in CanonMembers(b) {
      CanonMembersImage(a, c);
      CanonMembersImage(b, c);
      if m :| m in a && CanonMember(m) == c {
        assert SomeRight(m, b);
        var n :| n in b && SameMember(m, n);
        MatchThenCanon(a, b, m, n);
      }
      if n :| n in b && CanonMember(n) == c {
        assert SomeLeft(a, n);
        var m :| m in a && SameMember(m, n);
        MatchThenCanon(a, b, m, n);
      }
    }
    SameMembersSameSort(CanonMembers(a), CanonMembers(b));
  }

  /** Two lists with distinct keys and the same members sort to the same list. */
  lemma SameMembersSameSort(a: seq<Member>, b: seq<Member>)
    requires DistinctKeys(a) && DistinctKeys(b) && forall m :: m in a <==> m in b
    ensures Sort(KeyLess, a) == Sort(KeyLess, b)
  {
    forall m ensures multiset(a)[m] == multiset(b)[m] {
      MultiplicityAtMostOne(a, m);
      MultiplicityAtMostOne(b, m);
      assert m in a <==> m in multiset(a);
      assert m in b <==> m in multiset(b);
    }
    assert multiset(a) == multiset(b);
    DistinctKeysNoTies(a);
    DistinctKeysNoTies(b);
    KeyLessLaws();
    SortSorted(KeyLess, a);
    SortSorted(KeyLess, b);
    SameElements(a, Sort(KeyLess, a));
    assert NoTies(KeyLess, Sort(KeyLess, a));
    SortedArrangementUnique(KeyLess, Sort(KeyLess, a), Sort(KeyLess, b));
  }

  lemma {:induction false} CanonThenSameTree(v: Json, w: Json)
    requires Valid(v) && Valid(w) && Canon(v) == Canon(w)
    ensures SameTree(v, w)
    decreases v, 2
  {
    match (v, w)
    case (Arr(a), Arr(b)) =>
      assert |a| == |CanonItems(a)| == |CanonItems(b)| == |b|;
      forall i | 0 <= i < |a| ensures SameTree(a[i], b[i]) {
        assert CanonItems(a)[i] == CanonItems(b)[i];
        CanonThenSameTree(a[i], b[i]);
      }
    case (Obj(a), Obj(b)) =>
      CanonThenMembers(a, b);
    case _ =>
  }

  lemma {:induction false} CanonThenMatch(a: seq<Member>, b: seq<Member>, m: Member, n: Member)
    requires ValidValues(a) && ValidValues(b) && m in a && n in b && CanonMember(m) == CanonMember(n)
    ensures SameMember(m, n)
    decreases a, 0
  {
    CanonThenSameTree(m.value, n.value);
  }

  lemma {:induction false} CanonThenMembers(a: seq<Member>, b: seq<Member>)
    requires Valid(Obj(a)) && Valid(Obj(b))
    requires Sort(KeyLess, CanonMembers(a)) == Sort(KeyLess, CanonMembers(b))
    ensures SameTree(Obj(a), Obj(b))
    decreases a, 1
  {
    SameElements(CanonMembers(a), Sort(KeyLess, CanonMembers(a)));
    SameElements(CanonMembers(b), Sort(KeyLess, CanonMembers(b)));
    forall m | m in a ensures SomeRight(m, b) {
      CanonMembersImage(a, CanonMember(m));
      CanonMembersImage(b, CanonMember(m));
      var n :| n in b && CanonMember(n) == CanonMember(m);
      CanonThenMatch(a, b, m, n);
    }
    forall n | n in b ensures SomeLeft(a, n) {
      CanonMembersImage(a, CanonMember(n));
      CanonMembersImage(b, CanonMember(n));
      var m :| m in a && CanonMember(m) == CanonMember(n);
      CanonThenMatch(a, b, m, n);
    }
  }

  /** Canonical JSON tells payloads apart exactly up to key order. */
  lemma CanonicalInjective(v: Json, w: Json)
    requires Valid(v) && Valid(w)
    ensures CanonicalJson(v) == CanonicalJson(w) <==> SameTree(v, w)
  {
    if CanonicalJson(v) == CanonicalJson(w) {
      CanonicalFixpoint(v);
      CanonicalFixpoint(w);
      CanonThenSameTree(v, w);
    }
    if SameTree(v, w) {
      SameTreeThenCanon(v, w);
    }
  }
}
