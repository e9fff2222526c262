/** The canonical JSON subset (RFC 8785 section 3.2 over integers and ASCII member
    names), the JSON reader it is read back with, and the re-serialise test that
    tells canonical bytes from any other spelling. Text is a sequence of Unicode
    scalar values; its UTF-8 encoding is outside the model. */
module CanonicalJson {
  import opened Basics

  /** `Inexact` is any number that is not an integer of 64 bits: a fraction, an
      exponent, a negative zero, a larger magnitude. */
  datatype Value =
    | Null | Bool(b: bool) | Num(n: int) | Inexact | Str(s: string)
    | Arr(items: seq<Value>) | Obj(members: seq<Member>)

  datatype Member = Member(name: string, value: Value)

  const MAX_MAGNITUDE: int := 0x1F_FFFF_FFFF_FFFF

  /** Arrays and objects the reader will open one inside another. */
  const MAX_DEPTH: nat := 127

  // ------------------------------------------------------------- validation

  predicate Ascii(name: string) {
    forall c <- name :: c as int < 128
  }

  /** The closed subset: no inexact number, no magnitude of 2^53 or more, ASCII
      member names. */
  predicate Permitted(v: Value)
    decreases v
  {
    match v
    case Num(n) => -MAX_MAGNITUDE <= n <= MAX_MAGNITUDE
    case Inexact => false
    case Arr(items) => forall i | 0 <= i < |items| :: Permitted(items[i])
    case Obj(members) => forall i | 0 <= i < |members| :: Ascii(members[i].name) && Permitted(members[i].value)
    case _ => true
  }

  /** Members in order of their names' characters. */
  predicate Ascending(members: seq<Member>) {
    forall i | 0 <= i < |members| - 1 :: TextLess(members[i].name, members[i + 1].name)
  }

  /** A document as the parsed tree holds it: each object's members in order,
      each name once. */
  predicate Ordered(v: Value)
    decreases v
  {
    match v
    case Arr(items) => forall i | 0 <= i < |items| :: Ordered(items[i])
    case Obj(members) => Ascending(members) && forall i | 0 <= i < |members| :: Ordered(members[i].value)
    case _ => true
  }

  /** No more than `room` arrays and objects are open at once. */
  predicate Within(v: Value, room: nat)
    decreases v
  {
    match v
    case Arr(items) => room > 0 && forall i | 0 <= i < |items| :: Within(items[i], room - 1)
    case Obj(members) => room > 0 && forall i | 0 <= i < |members| :: Within(members[i].value, room - 1)
    case _ => true
  }

  // ------------------------------------------------------------ serialising

  function Digit(n: int): (c: char)
    requires 0 <= n < 10
  {
    '0' + n as char
  }

  function NatText(n: nat): (s: string)
    ensures s != ""
  {
    if n < 10 then [Digit(n)] else NatText(n / 10) + [Digit(n % 10)]
  }

  function IntText(n: int): string {
    if n < 0 then "-" + NatText(-n) else NatText(n)
  }

  function Hex(n: int): char
    requires 0 <= n < 16
  {
    if n < 10 then '0' + n as char else 'a' + (n - 10) as char
  }

  /** The two-character escapes, `\u00xx` for other controls, all else as is. */
  function EscapeChar(c: char): (s: string)
    ensures s != ""
  {
    var n := c as int;
    if c == '"' then "\\\""
    else if c == '\\' then "\\\\"
    else if n == 8 then "\\b"
    else if n == 9 then "\\t"
    else if n == 10 then "\\n"
    else if n == 12 then "\\f"
    else if n == 13 then "\\r"
    else if n < 32 then "\\u00" + [Hex(n / 16), Hex(n % 16)]
    else [c]
  }

  function EscapeText(s: string): string {
    if s == "" then "" else EscapeChar(s[0]) + EscapeText(s[1..])
  }

  function Quote(s: string): string {
    "\"" + EscapeText(s) + "\""
  }

  function Serialize(v: Value): string
    decreases v
  {
    match v
    case Null => "null"
    case Bool(b) => if b then "true" else "false"
    case Num(n) => IntText(n)
    case Inexact => "0.0"
    case Str(s) => Quote(s)
    case Arr(items) => "[" + ItemsText(items) + "]"
    case Obj(members) => "{" + MembersText(members) + "}"
  }

  function ItemsText(items: seq<Value>): string
    decreases items
  {
    if items == [] then ""
    else if |items| == 1 then Serialize(items[0])
    else Serialize(items[0]) + "," + ItemsText(items[1..])
  }

  function MembersText(members: seq<Member>): string
    decreases members
  {
    if members == [] then ""
    else
      var first := members[0];
      var text := Quote(first.name) + ":" + Serialize(first.value);
      if |members| == 1 then text else text + "," + MembersText(members[1..])
  }

  /** `None` refuses the document as a defect. */
  function CanonicalText(v: Value): Option<string> {
    if Permitted(v) then Some(Serialize(v)) else None
  }

  // ----------------------------------------------------------------- reading

  predicate IsBlank(c: char) {
    c == ' ' || c == '\t' || c == '\n' || c == '\r'
  }

  function SkipBlanks(s: string): (r: string)
    ensures |r| <= |s|
  {
    if s != "" && IsBlank(s[0]) then SkipBlanks(s[1..]) else s
  }

  predicate IsDigit(c: char) {
    '0' <= c <= '9'
  }

  function Span(s: string): (n: nat)
    ensures n <= |s| && forall i | 0 <= i < n :: IsDigit(s[i])
  {
    if s != "" && IsDigit(s[0]) then 1 + Span(s[1..]) else 0
  }

  function FromDigits(s: string): nat
    requires forall i | 0 <= i < |s| :: IsDigit(s[i])
  {
    if s == "" then 0
    else
      assert IsDigit(s[|s| - 1]);
      10 * FromDigits(s[..|s| - 1]) + (s[|s| - 1] as int - '0' as int)
  }

  /** What follows an optional fraction. */
  function AfterFraction(s: string): (r: Option<string>)
    ensures r.Some? ==> |r.value| <= |s|
  {
    if s == "" || s[0] != '.' then Some(s)
    else if Span(s[1..]) == 0 then None
    else Some(s[1 + Span(s[1..])..])
  }

  /** What follows an optional exponent. */
  function AfterExponent(s: string): (r: Option<string>)
    ensures r.Some? ==> |r.value| <= |s|
  {
    if s == "" || (s[0] != 'e' && s[0] != 'E') then Some(s)
    else
      var t := if |s| > 1 && (s[1] == '+' || s[1] == '-') then s[2..] else s[1..];
      if Span(t) == 0 then None else Some(t[Span(t)..])
  }

  function Number(negative: bool, n: int): Value {
    if negative then if n == 0 || n > 0x8000_0000_0000_0000 then Inexact else Num(-n)
    else if n > 0xFFFF_FFFF_FFFF_FFFF then Inexact else Num(n)
  }

  function ReadMagnitude(negative: bool, t: string): (r: Option<(Value, string)>)
    ensures r.Some? ==> |r.value.1| < |t|
  {
    var n := Span(t);
    if n == 0 || (n > 1 && t[0] == '0') then None
    else
      var fraction := AfterFraction(t[n..]);
      if fraction.None? then None
      else
        var rest := AfterExponent(fraction.value);
        if rest.None? then None
        else if rest.value != t[n..] then Some((Inexact, rest.value))
        else Some((Number(negative, FromDigits(t[..n])), rest.value))
  }

  function ReadNumber(s: string): (r: Option<(Value, string)>)
    ensures r.Some? ==> |r.value.1| < |s|
  {
    if s != "" && s[0] == '-' then ReadMagnitude(true, s[1..]) else ReadMagnitude(false, s)
  }

  function HexValue(c: char): Option<int> {
    if '0' <= c <= '9' then Some(c as int - '0' as int)
    else if 'a' <= c <= 'f' then Some(c as int - 'a' as int + 10)
    else if 'A' <= c <= 'F' then Some(c as int - 'A' as int + 10)
    else None
  }

  function ReadHex(s: string, width: nat): (r: Option<int>)
    requires width <= |s|
    ensures r.Some? ==> 0 <= r.value
    decreases width
  {
    if width == 0 then Some(0)
    else
      var high, low := ReadHex(s, width - 1), HexValue(s[width - 1]);
      if high.None? || low.None? then None else Some(16 * high.value + low.value)
  }

  /** An escape, after its backslash. */
  function ReadEscape(s: string): (r: Option<(char, string)>)
    ensures r.Some? ==> |r.value.1| < |s|
  {
    if s == "" then None
    else match s[0]
      case '"' => Some(('"', s[1..]))
      case '\\' => Some(('\\', s[1..]))
      case '/' => Some(('/', s[1..]))
      case 'b' => Some((8 as char, s[1..]))
      case 'f' => Some((12 as char, s[1..]))
      case 'n' => Some(('\n', s[1..]))
      case 'r' => Some(('\r', s[1..]))
      case 't' => Some(('\t', s[1..]))
      case 'u' => ReadUnicode(s[1..])
      case _ => None
  }

  /** Four hexadecimal digits; a surrogate needs its other half. */
  function ReadUnicode(s: string): (r: Option<(char, string)>)
    ensures r.Some? ==> |r.value.1| <= |s|
  {
    if |s| < 4 || ReadHex(s, 4).None? then None
    else
      var n := ReadHex(s, 4).value;
      if n < 0xD800 || 0xE000 <= n < 0x10000 then Some((n as char, s[4..]))
      else if n >= 0xDC00 || |s| < 10 || s[4] != '\\' || s[5] != 'u' || ReadHex(s[6..], 4).None? then None
      else
        var low := ReadHex(s[6..], 4).value;
        if 0xDC00 <= low < 0xE000 then Some(((0x10000 + (n - 0xD800) * 0x400 + (low - 0xDC00)) as char, s[10..]))
        else None
  }

  /** A string, after its opening quote. */
  function ReadString(s: string): (r: Option<(string, string)>)
    ensures r.Some? ==> |r.value.1| < |s|
    decreases |s|
  {
    if s == "" || s[0] as int < 32 then None
    else if s[0] == '"' then Some(("", s[1..]))
    else
      var first := if s[0] == '\\' then ReadEscape(s[1..]) else Some((s[0], s[1..]));
      if first.None? then None
      else
        var rest := ReadString(first.value.1);
        if rest.None? then None else Some(([first.value.0] + rest.value.0, rest.value.1))
  }

  /** A member named again replaces the earlier one; members stay in order. */
  function Insert(members: seq<Member>, m: Member): seq<Member> {
    if members == [] then [m]
    else
      var last := members[|members| - 1];
      if TextLess(last.name, m.name) then members + [m]
      else if last.name == m.name then members[..|members| - 1] + [m]
      else Insert(members[..|members| - 1], m) + [last]
  }

  function ReadValue(text: string, room: nat): (r: Option<(Value, string)>)
    ensures r.Some? ==> |r.value.1| < |text|
    decreases |text|, 1
  {
    var s := SkipBlanks(text);
    if s == "" then None
    else if "null" <= s then Some((Null, s[4..]))
    else if "true" <= s then Some((Bool(true), s[4..]))
    else if "false" <= s then Some((Bool(false), s[5..]))
    else if s[0] == '"' then
      var read := ReadString(s[1..]);
      if read.None? then None else Some((Str(read.value.0), read.value.1))
    else if s[0] == '-' || IsDigit(s[0]) then ReadNumber(s)
    else if s[0] == '[' && room > 0 then
      var t := SkipBlanks(s[1..]);
      if t != "" && t[0] == ']' then Some((Arr([]), t[1..]))
      else
        var read := ReadItems(s[1..], room - 1);
        if read.None? then None else Some((Arr(read.value.0), read.value.1))
    else if s[0] == '{' && room > 0 then
      var t := SkipBlanks(s[1..]);
      if t != "" && t[0] == '}' then Some((Obj([]), t[1..]))
      else
        var read := ReadMembers(s[1..], room - 1, []);
        if read.None? then None else Some((Obj(read.value.0), read.value.1))
    else None
  }

  /** One item or more, to the closing bracket. */
  function ReadItems(text: string, room: nat): (r: Option<(seq<Value>, string)>)
    ensures r.Some? ==> |r.value.1| < |text|
    decreases |text|, 2
  {
    var first := ReadValue(text, room);
    if first.None? then None
    else
      var s := SkipBlanks(first.value.1);
      if s == "" then None
      else if s[0] == ']' then Some(([first.value.0], s[1..]))
      else if s[0] != ',' then None
      else
        var rest := ReadItems(s[1..], room);
        if rest.None? then None else Some(([first.value.0] + rest.value.0, rest.value.1))
  }

  /** A member's name and colon. */
  function ReadName(text: string): (r: Option<(string, string)>)
    ensures r.Some? ==> |r.value.1| < |text|
  {
    var s := SkipBlanks(text);
    if s == "" || s[0] != '"' then None
    else
      var name := ReadString(s[1..]);
      if name.None? then None
      else
        var t := SkipBlanks(name.value.1);
        if t == "" || t[0] != ':' then None else Some((name.value.0, t[1..]))
  }

  /** One member or more, to the closing brace. */
  function ReadMembers(text: string, room: nat, members: seq<Member>): (r: Option<(seq<Member>, string)>)
    ensures r.Some? ==> |r.value.1| < |text|
    decreases |text|, 2
  {
    var name := ReadName(text);
    if name.None? then None
    else
      var value := ReadValue(name.value.1, room);
      if value.None? then None
      else
        var grown := Insert(members, Member(name.value.0, value.value.0));
        var s := SkipBlanks(value.value.1);
        if s == "" then None
        else if s[0] == '}' then Some((grown, s[1..]))
        else if s[0] != ',' then None
        else ReadMembers(s[1..], room, grown)
  }

  /** A whole document: one value and nothing after it but blanks. */
  function Parse(text: string): Option<Value> {
    var read := ReadValue(text, MAX_DEPTH);
    if read.Some? && SkipBlanks(read.value.1) == "" then Some(read.value.0) else None
  }

  /** The re-serialise test a reader applies. */
  predicate PassesReserialise(text: string) {
    var document := Parse(text);
    document.Some? && CanonicalText(document.value) == Some(text)
  }

  // ------------------------------------------------ reading what was written

  /** Text after a value: nothing, or what closes or separates. */
  predicate Stops(rest: string) {
    rest == "" || rest[0] == ',' || rest[0] == ']' || rest[0] == '}'
  }

  lemma {:induction false} NatTextIsDigits(n: nat)
    ensures forall i | 0 <= i < |NatText(n)| :: IsDigit(NatText(n)[i])
    ensures FromDigits(NatText(n)) == n
    ensures |NatText(n)| > 1 ==> NatText(n)[0] != '0'
    ensures n > 0 ==> NatText(n)[0] != '0'
  {
    if n < 10 {
      assert NatText(n)[..0] == "";
    } else {
      NatTextIsDigits(n / 10);
      var s := NatText(n);
      assert s[..|s| - 1] == NatText(n / 10);
    }
  }

  lemma {:induction false} SpanStops(digits: string, rest: string)
    requires forall i | 0 <= i < |digits| :: IsDigit(digits[i])
    requires Stops(rest)
    ensures Span(digits + rest) == |digits|
  {
    if digits == "" {
      assert digits + rest == rest;
    } else {
      assert (digits + rest)[1..] == digits[1..] + rest;
      SpanStops(digits[1..], rest);
    }
  }

  lemma StopsPlainly(rest: string)
    requires Stops(rest)
    ensures AfterFraction(rest) == Some(rest) && AfterExponent(rest) == Some(rest)
  {
  }

  lemma PlainMagnitude(negative: bool, t: string, rest: string)
    requires Span(t) > 0 && (Span(t) > 1 ==> t[0] != '0') && t[Span(t)..] == rest
    requires AfterFraction(rest) == Some(rest) && AfterExponent(rest) == Some(rest)
    ensures ReadMagnitude(negative, t) == Some((Number(negative, FromDigits(t[..Span(t)])), rest))
  {
  }

  /** Digits without a leading zero read as their number, up to where they stop. */
  lemma DigitsRead(negative: bool, digits: string, rest: string)
    requires digits != "" && (forall i | 0 <= i < |digits| :: IsDigit(digits[i]))
    requires (|digits| > 1 ==> digits[0] != '0') && Stops(rest)
    ensures ReadMagnitude(negative, digits + rest) == Some((Number(negative, FromDigits(digits)), rest))
  {
    var t := digits + rest;
    SpanStops(digits, rest);
    StopsPlainly(rest);
    assert t[..|digits|] == digits && t[|digits|..] == rest && t[0] == digits[0];
    PlainMagnitude(negative, t, rest);
  }

  lemma NumberReads(n: int, rest: string)
    requires -MAX_MAGNITUDE <= n <= MAX_MAGNITUDE && Stops(rest)
    ensures ReadNumber(IntText(n) + rest) == Some((Num(n), rest))
    ensures IntText(n) != "" && (IntText(n)[0] == '-' || IsDigit(IntText(n)[0]))
  {
    var magnitude: nat := if n < 0 then -n else n;
    NatTextIsDigits(magnitude);
    var digits := NatText(magnitude);
    DigitsRead(n < 0, digits, rest);
    assert IsDigit(digits[0]);
    if n < 0 {
      assert IntText(n) == "-" + digits;
      assert (("-" + digits) + rest)[1..] == digits + rest;
    } else {
      assert (digits + rest)[0] == digits[0];
    }
  }

  lemma ReadHexDigits(a: int, b: int, rest: string)
    requires 0 <= a < 16 && 0 <= b < 16
    ensures ReadHex("00" + [Hex(a), Hex(b)] + rest, 4) == Some(16 * a + b)
  {
    var s := "00" + [Hex(a), Hex(b)] + rest;
    assert HexValue(s[0]) == Some(0) && HexValue(s[1]) == Some(0);
    assert HexValue(s[2]) == Some(a) && HexValue(s[3]) == Some(b);
    assert ReadHex(s, 1) == Some(0);
    assert ReadHex(s, 2) == Some(0);
    assert ReadHex(s, 3) == Some(a);
  }

  /** One escaped character reads back as itself. */
  lemma CharReads(c: char, rest: string)
    ensures var s := EscapeChar(c) + rest;
      && s[0] != '"' && s[0] as int >= 32
      && (if s[0] == '\\' then ReadEscape(s[1..]) == Some((c, rest)) else s[0] == c && s[1..] == rest)
  {
    var n, s := c as int, EscapeChar(c) + rest;
    if |EscapeChar(c)| == 2 {
      assert s[1..] == [EscapeChar(c)[1]] + rest;
      assert s[1..][1..] == rest;
    } else if |EscapeChar(c)| == 6 {
      assert s[1..] == "u" + ("00" + [Hex(n / 16), Hex(n % 16)] + rest);
      var t := s[1..][1..];
      assert t == "00" + [Hex(n / 16), Hex(n % 16)] + rest;
      ReadHexDigits(n / 16, n % 16, rest);
      assert t[4..] == rest;
    }
  }

  lemma {:induction false} StringReads(s: string, rest: string)
    ensures ReadString(EscapeText(s) + "\"" + rest) == Some((s, rest))
  {
    if s == "" {
      assert (EscapeText(s) + "\"" + rest)[1..] == rest;
    } else {
      var after := EscapeText(s[1..]) + "\"" + rest;
      assert EscapeText(s) + "\"" + rest == EscapeChar(s[0]) + after;
      CharReads(s[0], after);
      StringReads(s[1..], rest);
      assert [s[0]] + s[1..] == s;
    }
  }

  lemma QuoteReads(s: string, rest: string)
    ensures Quote(s) + rest != "" && (Quote(s) + rest)[0] == '"'
    ensures ReadString((Quote(s) + rest)[1..]) == Some((s, rest))
  {
    StringReads(s, rest);
    assert (Quote(s) + rest)[1..] == EscapeText(s) + "\"" + rest;
  }

  /** A serialised value starts with neither a blank nor a bracket that closes. */
  lemma StartsPlainly(v: Value)
    requires Permitted(v)
    ensures Serialize(v) != "" && !IsBlank(Serialize(v)[0]) && Serialize(v)[0] != ']' && Serialize(v)[0] != '}'
  {
    if v.Num? {
      NumberReads(v.n, "");
    }
  }

  lemma {:induction false} ValueReads(v: Value, rest: string, room: nat)
    requires Permitted(v) && Ordered(v) && Within(v, room) && Stops(rest)
    ensures ReadValue(Serialize(v) + rest, room) == Some((v, rest))
    decreases v
  {
    var text := Serialize(v) + rest;
    StartsPlainly(v);
    assert SkipBlanks(text) == text;
    match v
    case Null => assert text[4..] == rest;
    case Bool(b) => assert text[if b then 4 else 5..] == rest;
    case Num(n) => NumberReads(n, rest);
    case Str(s) => QuoteReads(s, rest);
    case Inexact =>
    case Arr(items) => ArrayReads(v, rest, room);
    case Obj(members) => ObjectReads(v, rest, room);
  }

  lemma {:induction false} ArrayReads(v: Value, rest: string, room: nat)
    requires v.Arr? && Permitted(v) && Ordered(v) && Within(v, room)
    ensures ReadValue(Serialize(v) + rest, room) == Some((v, rest))
    decreases v, 0
  {
    var text, inner := Serialize(v) + rest, ItemsText(v.items) + "]" + rest;
    assert text[1..] == inner;
    if v.items == [] {
      assert inner == "]" + rest;
      assert inner[1..] == rest;
    } else {
      StartsPlainly(v.items[0]);
      assert SkipBlanks(inner) == inner;
      ItemsRead(v.items, rest, room - 1);
    }
  }

  /** What follows the first item. */
  function AfterItem(items: seq<Value>, rest: string): (after: string)
    requires items != []
    ensures after != "" && Stops(after)
  {
    if |items| == 1 then "]" + rest else "," + (ItemsText(items[1..]) + "]" + rest)
  }

  lemma RegroupItems(a: string, b: string, c: string)
    ensures (a + "," + b) + "]" + c == a + ("," + (b + "]" + c))
    ensures a + "]" + c == a + ("]" + c)
  {
  }

  lemma ItemsUnfold(items: seq<Value>, rest: string)
    requires items != []
    ensures ItemsText(items) + "]" + rest == Serialize(items[0]) + AfterItem(items, rest)
  {
    RegroupItems(Serialize(items[0]), if |items| > 1 then ItemsText(items[1..]) else "", rest);
  }

  lemma ReadsOneItem(text: string, room: nat, v: Value, after: string)
    requires ReadValue(text, room) == Some((v, after)) && after != "" && (after[0] == ',' || after[0] == ']')
    ensures ReadItems(text, room) ==
      if after[0] == ']' then Some(([v], after[1..]))
      else
        var rest := ReadItems(after[1..], room);
        if rest.None? then None else Some(([v] + rest.value.0, rest.value.1))
  {
  }

  lemma FirstItemReads(items: seq<Value>, rest: string, room: nat)
    requires |items| > 1
    requires ReadValue(Serialize(items[0]) + AfterItem(items, rest), room) == Some((items[0], AfterItem(items, rest)))
    requires ReadItems(ItemsText(items[1..]) + "]" + rest, room) == Some((items[1..], rest))
    ensures ReadItems(ItemsText(items) + "]" + rest, room) == Some((items, rest))
  {
    var after, inner := AfterItem(items, rest), ItemsText(items[1..]) + "]" + rest;
    ItemsUnfold(items, rest);
    assert after[1..] == inner;
    ReadsOneItem(Serialize(items[0]) + after, room, items[0], after);
    assert [items[0]] + items[1..] == items;
  }

  lemma OnlyItemReads(items: seq<Value>, rest: string, room: nat)
    requires |items| == 1
    requires ReadValue(Serialize(items[0]) + AfterItem(items, rest), room) == Some((items[0], AfterItem(items, rest)))
    ensures ReadItems(ItemsText(items) + "]" + rest, room) == Some((items, rest))
  {
    var after := AfterItem(items, rest);
    ItemsUnfold(items, rest);
    ReadsOneItem(Serialize(items[0]) + after, room, items[0], after);
    assert after[1..] == rest;
    assert items == [items[0]];
  }

  lemma {:induction false} ItemsRead(items: seq<Value>, rest: string, room: nat)
    requires items != []
    requires forall i | 0 <= i < |items| :: Permitted(items[i]) && Ordered(items[i]) && Within(items[i], room)
    ensures ReadItems(ItemsText(items) + "]" + rest, room) == Some((items, rest))
    decreases items
  {
    ValueReads(items[0], AfterItem(items, rest), room);
    if |items| == 1 {
      OnlyItemReads(items, rest, room);
    } else {
      ItemsRead(items[1..], rest, room);
      FirstItemReads(items, rest, room);
    }
  }

  lemma OpensObject(inner: string, room: nat)
    requires room > 0 && inner != "" && SkipBlanks(inner) == inner
    ensures ReadValue("{" + inner, room) ==
      if inner[0] == '}' then Some((Obj([]), inner[1..]))
      else
        var read := ReadMembers(inner, room - 1, []);
        if read.None? then None else Some((Obj(read.value.0), read.value.1))
  {
    var text := "{" + inner;
    assert text[1..] == inner;
  }

  lemma MembersStart(members: seq<Member>, rest: string)
    requires members != []
    ensures var inner := MembersText(members) + "}" + rest;
      inner != "" && inner[0] == '"' && SkipBlanks(inner) == inner
  {
    MembersUnfold(members, rest);
  }

  lemma {:induction false} ObjectReads(v: Value, rest: string, room: nat)
    requires v.Obj? && Permitted(v) && Ordered(v) && Within(v, room)
    ensures ReadValue(Serialize(v) + rest, room) == Some((v, rest))
    decreases v, 0
  {
    var inner := MembersText(v.members) + "}" + rest;
    assert Serialize(v) + rest == "{" + inner;
    if v.members == [] {
      assert inner == "}" + rest;
      assert inner[1..] == rest;
    } else {
      MembersStart(v.members, rest);
      MembersRead([], v.members, rest, room - 1);
      assert [] + v.members == v.members;
    }
    OpensObject(inner, room);
  }

  lemma NameReads(name: string, after: string)
    ensures ReadName(Quote(name) + ":" + after) == Some((name, after))
  {
    var text := Quote(name) + ":" + after;
    assert text == Quote(name) + (":" + after);
    QuoteReads(name, ":" + after);
    assert (":" + after)[1..] == after;
  }

  lemma ReadsOneMember(text: string, room: nat, before: seq<Member>, m: Member, t: string, after: string)
    requires ReadName(text) == Some((m.name, t)) && ReadValue(t, room) == Some((m.value, after))
    requires after != "" && (after[0] == ',' || after[0] == '}')
    ensures ReadMembers(text, room, before) ==
      if after[0] == '}' then Some((Insert(before, m), after[1..])) else ReadMembers(after[1..], room, Insert(before, m))
  {
  }

  /** What follows the first member's value. */
  function AfterFirst(members: seq<Member>, rest: string): (after: string)
    requires members != []
    ensures after != "" && Stops(after)
  {
    if |members| == 1 then "}" + rest else "," + (MembersText(members[1..]) + "}" + rest)
  }

  lemma Regroup(a: string, b: string, c: string, d: string)
    ensures (a + ":" + b + "," + c) + "}" + d == a + ":" + (b + ("," + (c + "}" + d)))
    ensures (a + ":" + b) + "}" + d == a + ":" + (b + ("}" + d))
  {
  }

  lemma MembersUnfold(members: seq<Member>, rest: string)
    requires members != []
    ensures MembersText(members) + "}" + rest
      == Quote(members[0].name) + ":" + (Serialize(members[0].value) + AfterFirst(members, rest))
  {
    var tail := if |members| > 1 then MembersText(members[1..]) else "";
    Regroup(Quote(members[0].name), Serialize(members[0].value), tail, rest);
  }

  lemma InsertAppends(before: seq<Member>, members: seq<Member>)
    requires members != [] && Ascending(before + members)
    ensures Insert(before, members[0]) == before + [members[0]]
    ensures (before + [members[0]]) + members[1..] == before + members
  {
    if before != [] {
      var all := before + members;
      assert all[|before| - 1] == before[|before| - 1] && all[|before| - 1 + 1] == members[0];
    }
  }

  lemma FirstMemberReads(before: seq<Member>, members: seq<Member>, rest: string, room: nat)
    requires members != [] && Ascending(before + members)
    requires ReadValue(Serialize(members[0].value) + AfterFirst(members, rest), room)
      == Some((members[0].value, AfterFirst(members, rest)))
    ensures ReadMembers(MembersText(members) + "}" + rest, room, before) ==
      if |members| == 1 then Some((before + members, rest))
      else ReadMembers(MembersText(members[1..]) + "}" + rest, room, before + [members[0]])
  {
    var first, after := members[0], AfterFirst(members, rest);
    MembersUnfold(members, rest);
    NameReads(first.name, Serialize(first.value) + after);
    InsertAppends(before, members);
    ReadsOneMember(MembersText(members) + "}" + rest, room, before, first, Serialize(first.value) + after, after);
    if |members| == 1 {
      assert after[1..] == rest;
      assert before + members == before + [first];
    } else {
      assert after[1..] == MembersText(members[1..]) + "}" + rest;
    }
  }

  lemma {:induction false} MembersRead(before: seq<Member>, members: seq<Member>, rest: string, room: nat)
    requires members != [] && Ascending(before + members)
    requires forall i | 0 <= i < |members| ::
      Permitted(members[i].value) && Ordered(members[i].value) && Within(members[i].value, room)
    ensures ReadMembers(MembersText(members) + "}" + rest, room, before) == Some((before + members, rest))
    decreases members
  {
    ValueReads(members[0].value, AfterFirst(members, rest), room);
    FirstMemberReads(before, members, rest, room);
    if |members| > 1 {
      InsertAppends(before, members);
      MembersRead(before + [members[0]], members[1..], rest, room);
    }
  }

  // ---------------------------------------------- what the reader can produce

  lemma {:induction false} InsertKeepsOrder(members: seq<Member>, m: Member)
    requires Ascending(members)
    ensures Ascending(Insert(members, m)) && Insert(members, m) != []
    ensures var last := Insert(members, m)[|Insert(members, m)| - 1];
      last.name == m.name || (members != [] && last == members[|members| - 1])
  {
    if members != [] {
      var n := |members| - 1;
      var front, last := members[..n], members[n];
      assert Ascending(front);
      TextLessTotal(last.name, m.name);
      if TextLess(last.name, m.name) {
      } else if last.name == m.name {
        assert members[..n] + [m] == Insert(members, m);
      } else {
        InsertKeepsOrder(front, m);
        var inner := Insert(front, m);
        if inner[|inner| - 1].name != m.name {
          assert members[n - 1] == front[|front| - 1];
        }
        assert TextLess(inner[|inner| - 1].name, last.name);
      }
    }
  }

  lemma {:induction false} InsertKeepsValues(members: seq<Member>, m: Member, room: nat)
    requires forall i | 0 <= i < |members| :: Ordered(members[i].value) && Within(members[i].value, room)
    requires Ordered(m.value) && Within(m.value, room)
    ensures forall i | 0 <= i < |Insert(members, m)| ::
      Ordered(Insert(members, m)[i].value) && Within(Insert(members, m)[i].value, room)
  {
    if members != [] {
      InsertKeepsValues(members[..|members| - 1], m, room);
    }
  }

  lemma NumbersAreFlat(s: string, v: Value, rest: string)
    requires ReadNumber(s) == Some((v, rest))
    ensures v.Num? || v.Inexact?
  {
  }

  /** A non-empty array is what was read inside its brackets. */
  lemma WhatTheArrayHeld(text: string, room: nat, v: Value, rest: string)
    requires ReadValue(text, room) == Some((v, rest)) && v.Arr?
    ensures room > 0
    ensures var s := SkipBlanks(text);
      v.items != [] ==> s != "" && |s| <= |text| && ReadItems(s[1..], room - 1) == Some((v.items, rest))
  {
    var s := SkipBlanks(text);
    if s[0] == '-' || IsDigit(s[0]) {
      NumbersAreFlat(s, v, rest);
    }
  }

  lemma WhatTheObjectHeld(text: string, room: nat, v: Value, rest: string)
    requires ReadValue(text, room) == Some((v, rest)) && v.Obj?
    ensures room > 0
    ensures var s := SkipBlanks(text);
      v.members != [] ==> s != "" && |s| <= |text| && ReadMembers(s[1..], room - 1, []) == Some((v.members, rest))
  {
    var s := SkipBlanks(text);
    if s[0] == '-' || IsDigit(s[0]) {
      NumbersAreFlat(s, v, rest);
    }
  }

  ghost predicate MembersHold(members: seq<Member>, room: nat) {
    forall i | 0 <= i < |members| :: Ordered(members[i].value) && Within(members[i].value, room)
  }

  /** Whatever is read is ordered and no deeper than the reader allows. */
  lemma {:induction false} ReadIsOrdered(text: string, room: nat, v: Value, rest: string)
    requires ReadValue(text, room) == Some((v, rest))
    ensures Ordered(v) && Within(v, room)
    decreases |text|, 1
  {
    if v.Arr? {
      ArrayIsOrdered(text, room, v, rest);
    } else if v.Obj? {
      ObjectIsOrdered(text, room, v, rest);
    }
  }

  lemma {:induction false} ArrayIsOrdered(text: string, room: nat, v: Value, rest: string)
    requires ReadValue(text, room) == Some((v, rest)) && v.Arr?
    ensures Ordered(v) && Within(v, room)
    decreases |text|, 0
  {
    WhatTheArrayHeld(text, room, v, rest);
    if v.items != [] {
      var inner := SkipBlanks(text)[1..];
      ItemsAreOrdered(inner, room - 1, v.items, rest);
    }
  }

  lemma {:induction false} ObjectIsOrdered(text: string, room: nat, v: Value, rest: string)
    requires ReadValue(text, room) == Some((v, rest)) && v.Obj?
    ensures Ordered(v) && Within(v, room)
    decreases |text|, 0
  {
    WhatTheObjectHeld(text, room, v, rest);
    if v.members != [] {
      var inner := SkipBlanks(text)[1..];
      MembersAreOrdered(inner, room - 1, [], v.members, rest);
    }
  }

  lemma {:induction false} ItemsAreOrdered(text: string, room: nat, items: seq<Value>, rest: string)
    requires ReadItems(text, room) == Some((items, rest))
    ensures forall i | 0 <= i < |items| :: Ordered(items[i]) && Within(items[i], room)
    decreases |text|, 2
  {
    var first := ReadValue(text, room).value;
    ReadIsOrdered(text, room, first.0, first.1);
    var s := SkipBlanks(first.1);
    if s[0] != ']' {
      var more := ReadItems(s[1..], room).value;
      ItemsAreOrdered(s[1..], room, more.0, more.1);
    }
  }

  lemma {:induction false} MembersAreOrdered(text: string, room: nat, before: seq<Member>, members: seq<Member>, rest: string)
    requires ReadMembers(text, room, before) == Some((members, rest))
    requires Ascending(before) && MembersHold(before, room)
    ensures Ascending(members) && MembersHold(members, room)
    decreases |text|, 2
  {
    var name := ReadName(text).value;
    var value := ReadValue(name.1, room).value;
    ReadIsOrdered(name.1, room, value.0, value.1);
    var m := Member(name.0, value.0);
    InsertKeepsOrder(before, m);
    InsertKeepsValues(before, m, room);
    var s := SkipBlanks(value.1);
    if s[0] != '}' {
      MembersAreOrdered(s[1..], room, Insert(before, m), members, rest);
    }
  }

  // -------------------------------------------------------------- main results

  /** Parsing undoes serialising on every permitted document the reader has the
      depth for. */
  lemma ParseUndoesSerialize(v: Value)
    requires Permitted(v) && Ordered(v) && Within(v, MAX_DEPTH)
    ensures Parse(Serialize(v)) == Some(v)
  {
    assert Serialize(v) + "" == Serialize(v);
    ValueReads(v, "", MAX_DEPTH);
  }

  function Depth(v: Value): nat
    decreases v
  {
    match v
    case Arr(items) => 1 + DeepestItem(items)
    case Obj(members) => 1 + DeepestMember(members)
    case _ => 0
  }

  function DeepestItem(items: seq<Value>): nat
    decreases items
  {
    if items == [] then 0 else Max(Depth(items[0]), DeepestItem(items[1..]))
  }

  function DeepestMember(members: seq<Member>): nat
    decreases members
  {
    if members == [] then 0 else Max(Depth(members[0].value), DeepestMember(members[1..]))
  }

  lemma {:induction false} DepthIsEnough(v: Value, room: nat)
    ensures Within(v, room) <==> Depth(v) <= room
    decreases v
  {
    if v.Arr? && room > 0 {
      ItemsWithin(v.items, room - 1);
    } else if v.Obj? && room > 0 {
      MembersWithin(v.members, room - 1);
    }
  }

  lemma {:induction false} ItemsWithin(items: seq<Value>, room: nat)
    ensures (forall i | 0 <= i < |items| :: Within(items[i], room)) <==> DeepestItem(items) <= room
    decreases items
  {
    if items != [] {
      var rest := items[1..];
      DepthIsEnough(items[0], room);
      ItemsWithin(rest, room);
      assert (forall i | 0 <= i < |items| :: Within(items[i], room)) <==>
        Within(items[0], room) && (forall i | 0 <= i < |rest| :: Within(rest[i], room)) by {
        if Within(items[0], room) && (forall i | 0 <= i < |rest| :: Within(rest[i], room)) {
          forall i | 0 <= i < |items|
            ensures Within(items[i], room)
          {
            assert i > 0 ==> items[i] == rest[i - 1];
          }
        }
        assert forall i | 0 <= i < |rest| :: rest[i] == items[i + 1];
      }
    }
  }

  lemma {:induction false} MembersWithin(members: seq<Member>, room: nat)
    ensures (forall i | 0 <= i < |members| :: Within(members[i].value, room)) <==> DeepestMember(members) <= room
    decreases members
  {
    if members != [] {
      var rest := members[1..];
      DepthIsEnough(members[0].value, room);
      MembersWithin(rest, room);
      assert (forall i | 0 <= i < |members| :: Within(members[i].value, room)) <==>
        Within(members[0].value, room) && (forall i | 0 <= i < |rest| :: Within(rest[i].value, room)) by {
        if Within(members[0].value, room) && (forall i | 0 <= i < |rest| :: Within(rest[i].value, room)) {
          forall i | 0 <= i < |members|
            ensures Within(members[i].value, room)
          {
            assert i > 0 ==> members[i] == rest[i - 1];
          }
        }
        assert forall i | 0 <= i < |rest| :: rest[i] == members[i + 1];
      }
    }
  }

  /** The canonical form is unique: two permitted documents with one text are one
      document, however deep. */
  lemma SerializeIsInjective(v: Value, w: Value)
    requires Permitted(v) && Ordered(v) && Permitted(w) && Ordered(w)
    requires Serialize(v) == Serialize(w)
    ensures v == w
  {
    var room := Depth(v) + Depth(w);
    DepthIsEnough(v, room);
    DepthIsEnough(w, room);
    ValueReads(v, "", room);
    ValueReads(w, "", room);
  }

  /** A text passes the re-serialise test if and only if it is the serialisation
      of a permitted document no deeper than the reader allows. */
  lemma ReserialiseIsExact(text: string)
    ensures PassesReserialise(text) <==>
      exists v :: Permitted(v) && Ordered(v) && Depth(v) <= MAX_DEPTH && Serialize(v) == text
  {
    if PassesReserialise(text) {
      var v := Parse(text).value;
      ReadIsOrdered(text, MAX_DEPTH, v, ReadValue(text, MAX_DEPTH).value.1);
      DepthIsEnough(v, MAX_DEPTH);
      assert Permitted(v) && Ordered(v) && Depth(v) <= MAX_DEPTH && Serialize(v) == text;
    }
    if v :| Permitted(v) && Ordered(v) && Depth(v) <= MAX_DEPTH && Serialize(v) == text {
      DepthIsEnough(v, MAX_DEPTH);
      ParseUndoesSerialize(v);
    }
  }

  /** So canonical bytes verify exactly up to the reader's depth: the writer will
      serialise a deeper document, whose bytes no reader then accepts. */
  lemma CanonicalTextVerifiesUpToDepth(v: Value)
    requires Ordered(v) && CanonicalText(v).Some?
    ensures PassesReserialise(CanonicalText(v).value) <==> Depth(v) <= MAX_DEPTH
  {
    ReserialiseIsExact(Serialize(v));
    if PassesReserialise(Serialize(v)) {
      var w :| Permitted(w) && Ordered(w) && Depth(w) <= MAX_DEPTH && Serialize(w) == Serialize(v);
      SerializeIsInjective(v, w);
    }
  }

  function Nested(n: nat): Value {
    if n == 0 then Null else Arr([Nested(n - 1)])
  }

  lemma {:induction false} NestedIsPermitted(n: nat)
    ensures Permitted(Nested(n)) && Ordered(Nested(n)) && Depth(Nested(n)) == n
  {
    if n > 0 {
      NestedIsPermitted(n - 1);
      var items := [Nested(n - 1)];
      assert DeepestItem(items) == Max(Depth(items[0]), DeepestItem(items[1..]));
      assert items[1..] == [];
    }
  }

  /** One array inside another 128 times over is such a document. */
  lemma DeepDocumentIsRefused()
    ensures CanonicalText(Nested(128)).Some? && !PassesReserialise(CanonicalText(Nested(128)).value)
  {
    NestedIsPermitted(128);
    CanonicalTextVerifiesUpToDepth(Nested(128));
  }
}
