/** The canonical form itself, stated of texts and apart from the serialiser: what
    each character of a string is written as, plain decimal integers, no blank
    outside a string, members in ascending order of their names. The serialiser
    writes exactly this form, and exactly this form passes the re-serialise test. */
module CanonicalForm {
  import opened Basics
  import opened CanonicalJson

  // ----------------------------------------------------------------- strings

  /** The characters with an escape of their own, and its letter. */
  const SHORT_ESCAPES: map<char, char> := map[
    '"' := '"', '\\' := '\\', 8 as char := 'b', 9 as char := 't', 10 as char := 'n',
    12 as char := 'f', 13 as char := 'r']

  /** A lowercase hexadecimal digit of this value. */
  predicate IsHexOf(d: char, n: int) {
    0 <= n < 16 && d == "0123456789abcdef"[n]
  }

  /** How a character is written: the two-character escapes, `\u00` and two
      lowercase digits for every other control, everything else as itself. */
  predicate WritesChar(t: string, c: char) {
    if c in SHORT_ESCAPES then t == ['\\', SHORT_ESCAPES[c]]
    else if c as int < 32 then
      && |t| == 6 && t[..4] == ['\\', 'u', '0', '0']
      && IsHexOf(t[4], c as int / 16) && IsHexOf(t[5], c as int % 16)
    else t == [c]
  }

  ghost predicate WritesText(t: string, s: string)
    decreases |s|
  {
    if s == "" then t == ""
    else exists n | 0 < n <= |t| :: WritesChar(t[..n], s[0]) && WritesText(t[n..], s[1..])
  }

  ghost predicate WritesString(t: string, s: string) {
    |t| >= 2 && t[0] == '"' && t[|t| - 1] == '"' && WritesText(t[1..|t| - 1], s)
  }

  // ----------------------------------------------------------------- numbers

  /** Plain decimal: a minus sign only for a negative number, and digits without a
      leading zero. */
  predicate WritesInteger(t: string, n: int) {
    if n < 0 then t != "" && t[0] == '-' && WritesNatural(t[1..], -n) else WritesNatural(t, n)
  }

  predicate WritesNatural(digits: string, n: nat) {
    && digits != ""
    && (forall i | 0 <= i < |digits| :: IsDigit(digits[i]))
    && (|digits| > 1 ==> digits[0] != '0')
    && FromDigits(digits) == n
  }

  // --------------------------------------------------------------- documents

  /** This text writes this document. */
  ghost predicate Writes(t: string, v: Value)
    decreases v
  {
    match v
    case Null => t == "null"
    case Bool(b) => t == if b then "true" else "false"
    case Num(n) => WritesInteger(t, n)
    case Inexact => false
    case Str(s) => WritesString(t, s)
    case Arr(items) => |t| >= 2 && t[0] == '[' && t[|t| - 1] == ']' && WritesItems(t[1..|t| - 1], items)
    case Obj(members) => |t| >= 2 && t[0] == '{' && t[|t| - 1] == '}' && WritesMembers(t[1..|t| - 1], members)
  }

  /** The items one after another, a comma between two. */
  ghost predicate WritesItems(t: string, items: seq<Value>)
    decreases items
  {
    if items == [] then t == ""
    else if |items| == 1 then Writes(t, items[0])
    else exists n | 0 <= n < |t| :: Writes(t[..n], items[0]) && t[n] == ',' && WritesItems(t[n + 1..], items[1..])
  }

  ghost predicate WritesMember(t: string, m: Member)
    decreases m
  {
    exists n | 0 <= n < |t| :: WritesString(t[..n], m.name) && t[n] == ':' && Writes(t[n + 1..], m.value)
  }

  ghost predicate WritesMembers(t: string, members: seq<Member>)
    decreases members
  {
    if members == [] then t == ""
    else if |members| == 1 then WritesMember(t, members[0])
    else exists n | 0 <= n < |t| :: WritesMember(t[..n], members[0]) && t[n] == ',' && WritesMembers(t[n + 1..], members[1..])
  }

  /** A text in the canonical form: of some document within the subset, its
      objects' members in ascending order of their names. */
  ghost predicate IsCanonicalForm(t: string) {
    exists v :: Permitted(v) && Ordered(v) && Writes(t, v)
  }

  // ------------------------------------------------- the serialiser writes it

  lemma EscapesAreTheForm(t: string, c: char)
    ensures WritesChar(t, c) <==> t == EscapeChar(c)
  {
    var n := c as int;
    if c !in SHORT_ESCAPES && n < 32 {
      assert EscapeChar(c) == ['\\', 'u', '0', '0', Hex(n / 16), Hex(n % 16)];
      assert IsHexOf(Hex(n / 16), n / 16) && IsHexOf(Hex(n % 16), n % 16);
      assert WritesChar(t, c) ==> t == t[..4] + [t[4], t[5]];
    }
  }

  lemma TextCut(t: string, s: string, n: nat)
    requires s != "" && n <= |t| && t[..n] == EscapeChar(s[0]) && t[n..] == EscapeText(s[1..])
    ensures t == EscapeText(s)
  {
    assert t == t[..n] + t[n..];
  }

  lemma TextJoined(s: string, first: string, rest: string)
    requires s != "" && first == EscapeChar(s[0]) && rest == EscapeText(s[1..])
    ensures EscapeText(s)[..|first|] == first && EscapeText(s)[|first|..] == rest
  {
    assert EscapeText(s) == first + rest;
  }

  lemma {:induction false} WrittenTextIsEscaped(t: string, s: string)
    requires WritesText(t, s)
    ensures t == EscapeText(s)
    decreases |s|
  {
    if s != "" {
      var n :| 0 < n <= |t| && WritesChar(t[..n], s[0]) && WritesText(t[n..], s[1..]);
      EscapesAreTheForm(t[..n], s[0]);
      WrittenTextIsEscaped(t[n..], s[1..]);
      TextCut(t, s, n);
    }
  }

  lemma {:induction false} EscapedTextIsWritten(s: string)
    ensures WritesText(EscapeText(s), s)
    decreases |s|
  {
    if s != "" {
      var first := EscapeChar(s[0]);
      TextJoined(s, first, EscapeText(s[1..]));
      EscapesAreTheForm(first, s[0]);
      EscapedTextIsWritten(s[1..]);
    }
  }

  lemma TextIsTheForm(t: string, s: string)
    ensures WritesText(t, s) <==> t == EscapeText(s)
  {
    EscapedTextIsWritten(s);
    if WritesText(t, s) {
      WrittenTextIsEscaped(t, s);
    }
  }

  lemma StringIsTheForm(t: string, s: string)
    ensures WritesString(t, s) <==> t == Quote(s)
  {
    if |t| >= 2 {
      TextIsTheForm(t[1..|t| - 1], s);
      assert t == [t[0]] + t[1..|t| - 1] + [t[|t| - 1]];
    }
    if t == Quote(s) {
      assert t[1..|t| - 1] == EscapeText(s);
    }
  }

  lemma NaturalIsTheForm(digits: string, n: nat)
    ensures WritesNatural(digits, n) <==> digits == NatText(n)
  {
    NatTextIsDigits(n);
    if WritesNatural(digits, n) {
      DigitsAreNatText(digits, n);
    }
  }

  lemma {:induction false} DigitsAreNatText(digits: string, n: nat)
    requires WritesNatural(digits, n)
    ensures digits == NatText(n)
    decreases |digits|
  {
    var front, last := digits[..|digits| - 1], digits[|digits| - 1];
    assert digits == front + [last] && IsDigit(last);
    if front == "" {
      assert FromDigits(front) == 0;
      assert Digit(n) == last;
    } else {
      LeadingIsLess(front);
      DigitsAreNatText(front, FromDigits(front));
      assert n / 10 == FromDigits(front) && Digit(n % 10) == last;
    }
  }

  lemma {:induction false} LeadingIsLess(digits: string)
    requires digits != "" && forall i | 0 <= i < |digits| :: IsDigit(digits[i])
    requires digits[0] != '0'
    ensures FromDigits(digits) > 0
  {
    if |digits| > 1 {
      LeadingIsLess(digits[..|digits| - 1]);
    } else {
      assert FromDigits(digits[..0]) == 0;
    }
  }

  lemma IntegerIsTheForm(t: string, n: int)
    ensures WritesInteger(t, n) <==> t == IntText(n)
  {
    if n < 0 {
      if t != "" {
        NaturalIsTheForm(t[1..], -n);
        assert t == [t[0]] + t[1..];
      }
    } else {
      NaturalIsTheForm(t, n);
    }
  }

  lemma Enclosed(t: string, front: char, inner: string, back: char)
    ensures t == [front] + inner + [back] <==>
      |t| >= 2 && t[0] == front && t[|t| - 1] == back && t[1..|t| - 1] == inner
  {
    if |t| >= 2 {
      assert t == [t[0]] + t[1..|t| - 1] + [t[|t| - 1]];
    }
  }

  /** The canonical form of a document is one text: the one the serialiser writes. */
  lemma {:induction false} SerializeIsTheForm(t: string, v: Value)
    requires Permitted(v)
    ensures Writes(t, v) <==> t == Serialize(v)
    decreases v
  {
    match v
    case Num(n) => IntegerIsTheForm(t, n);
    case Str(s) => StringIsTheForm(t, s);
    case Arr(items) =>
      Enclosed(t, '[', ItemsText(items), ']');
      if |t| >= 2 {
        ItemsAreTheForm(t[1..|t| - 1], items);
      }
    case Obj(members) =>
      Enclosed(t, '{', MembersText(members), '}');
      if |t| >= 2 {
        MembersAreTheForm(t[1..|t| - 1], members);
      }
    case _ =>
  }

  lemma CutAt(t: string, n: nat, c: char, first: string, rest: string)
    ensures n == |first| && t == first + [c] + rest <==>
      n < |t| && t[..n] == first && t[n] == c && t[n + 1..] == rest
  {
    if n < |t| {
      assert t == t[..n] + [t[n]] + t[n + 1..];
    }
  }

  lemma {:induction false} ItemsAreTheForm(t: string, items: seq<Value>)
    requires forall i | 0 <= i < |items| :: Permitted(items[i])
    ensures WritesItems(t, items) <==> t == ItemsText(items)
    decreases items
  {
    if |items| == 1 {
      SerializeIsTheForm(t, items[0]);
    } else if |items| > 1 {
      var first, rest := Serialize(items[0]), ItemsText(items[1..]);
      if n :| 0 <= n < |t| && Writes(t[..n], items[0]) && t[n] == ',' && WritesItems(t[n + 1..], items[1..]) {
        SerializeIsTheForm(t[..n], items[0]);
        ItemsAreTheForm(t[n + 1..], items[1..]);
        CutAt(t, n, ',', first, rest);
      }
      if t == first + [','] + rest {
        var n := |first|;
        CutAt(t, n, ',', first, rest);
        SerializeIsTheForm(t[..n], items[0]);
        ItemsAreTheForm(t[n + 1..], items[1..]);
      }
    }
  }

  lemma {:induction false} MemberIsTheForm(t: string, m: Member)
    requires Permitted(m.value)
    ensures WritesMember(t, m) <==> t == Quote(m.name) + ":" + Serialize(m.value)
    decreases m
  {
    var first, rest := Quote(m.name), Serialize(m.value);
    if n :| 0 <= n < |t| && WritesString(t[..n], m.name) && t[n] == ':' && Writes(t[n + 1..], m.value) {
      StringIsTheForm(t[..n], m.name);
      SerializeIsTheForm(t[n + 1..], m.value);
      CutAt(t, n, ':', first, rest);
    }
    if t == first + [':'] + rest {
      var n := |first|;
      CutAt(t, n, ':', first, rest);
      StringIsTheForm(t[..n], m.name);
      SerializeIsTheForm(t[n + 1..], m.value);
    }
  }

  /** Cutting at a separator after a text that is fixed. */
  lemma MembersCut(t: string, members: seq<Member>, n: nat)
    requires |members| > 1 && n < |t| && t[n] == ','
    requires t[..n] == Quote(members[0].name) + ":" + Serialize(members[0].value)
    requires t[n + 1..] == MembersText(members[1..])
    ensures t == MembersText(members)
  {
    var first := Quote(members[0].name) + ":" + Serialize(members[0].value);
    CutAt(t, n, ',', first, MembersText(members[1..]));
    assert MembersText(members) == first + [','] + MembersText(members[1..]);
  }

  lemma MembersJoined(members: seq<Member>, first: string) returns (n: nat)
    requires |members| > 1 && first == Quote(members[0].name) + ":" + Serialize(members[0].value)
    ensures var t := MembersText(members);
      n < |t| && t[..n] == first && t[n] == ',' && t[n + 1..] == MembersText(members[1..])
  {
    n := |first|;
    var t := first + [','] + MembersText(members[1..]);
    CutAt(t, n, ',', first, MembersText(members[1..]));
  }

  lemma {:induction false} MembersAreTheForm(t: string, members: seq<Member>)
    requires forall i | 0 <= i < |members| :: Permitted(members[i].value)
    ensures WritesMembers(t, members) <==> t == MembersText(members)
    decreases members
  {
    if |members| == 1 {
      MemberIsTheForm(t, members[0]);
    } else if |members| > 1 {
      if n :| 0 <= n < |t| && WritesMember(t[..n], members[0]) && t[n] == ',' && WritesMembers(t[n + 1..], members[1..]) {
        MemberIsTheForm(t[..n], members[0]);
        MembersAreTheForm(t[n + 1..], members[1..]);
        MembersCut(t, members, n);
      }
      if t == MembersText(members) {
        var n := MembersJoined(members, Quote(members[0].name) + ":" + Serialize(members[0].value));
        MemberIsTheForm(t[..n], members[0]);
        MembersAreTheForm(t[n + 1..], members[1..]);
      }
    }
  }

  /** What the writer produces for a document is its canonical form and nothing
      else, and a document outside the subset it refuses. */
  lemma CanonicalTextIsTheForm(v: Value, t: string)
    ensures CanonicalText(v) == Some(t) <==> Permitted(v) && Writes(t, v)
  {
    if Permitted(v) {
      SerializeIsTheForm(t, v);
    }
  }

  /** And the texts that pass the re-serialise test are exactly those in the
      canonical form, of a document no deeper than the reader allows. */
  lemma OnlyTheFormVerifies(t: string)
    ensures PassesReserialise(t) <==>
      exists v :: Permitted(v) && Ordered(v) && Depth(v) <= MAX_DEPTH && Writes(t, v)
    ensures PassesReserialise(t) ==> IsCanonicalForm(t)
  {
    ReserialiseIsExact(t);
    if PassesReserialise(t) {
      var v :| Permitted(v) && Ordered(v) && Depth(v) <= MAX_DEPTH && Serialize(v) == t;
      SerializeIsTheForm(t, v);
    }
    if v :| Permitted(v) && Ordered(v) && Depth(v) <= MAX_DEPTH && Writes(t, v) {
      SerializeIsTheForm(t, v);
    }
  }

  // -------------------------------------------------------- outside strings

  /** What follows a string whose opening quote has been read. */
  function PastString(t: string): (rest: string)
    ensures |rest| <= |t|
    decreases |t|
  {
    if t == "" then t
    else if t[0] == '"' then t[1..]
    else if t[0] == '\\' && |t| > 1 then PastString(t[2..])
    else PastString(t[1..])
  }

  /** The characters of a text that stand in no string. */
  function Outside(t: string): string
    decreases |t|
  {
    if t == "" then ""
    else if t[0] == '"' then Outside(PastString(t[1..]))
    else [t[0]] + Outside(t[1..])
  }

  /** Brackets, separators, signs, digits and small letters. */
  predicate Plain(c: char) {
    || c == '{' || c == '}' || c == '[' || c == ']' || c == ',' || c == ':' || c == '-'
    || IsDigit(c) || 'a' <= c <= 'z'
  }

  ghost predicate AllPlain(t: string) {
    forall i | 0 <= i < |t| :: Plain(t[i])
  }

  /** Only plain characters stand outside strings. */
  ghost predicate Tidy(t: string) {
    AllPlain(Outside(t))
  }

  lemma {:induction false} EscapesStayInside(s: string, rest: string)
    ensures PastString(EscapeText(s) + "\"" + rest) == rest
  {
    if s == "" {
      assert (EscapeText(s) + "\"" + rest)[1..] == rest;
    } else {
      var after := EscapeText(s[1..]) + "\"" + rest;
      var first := EscapeChar(s[0]);
      assert EscapeText(s) + "\"" + rest == first + after;
      EscapesStayInside(s[1..], rest);
      if |first| == 1 {
        assert (first + after)[1..] == after;
      } else if |first| == 2 {
        assert (first + after)[2..] == after;
      } else {
        HexTailStaysInside(first[2..], after);
        assert (first + after)[2..] == first[2..] + after;
      }
    }
  }

  lemma {:induction false} HexTailStaysInside(tail: string, after: string)
    requires forall i | 0 <= i < |tail| :: tail[i] != '"' && tail[i] != '\\'
    ensures PastString(tail + after) == PastString(after)
  {
    if tail == "" {
      assert tail + after == after;
    } else {
      assert (tail + after)[1..] == tail[1..] + after;
      HexTailStaysInside(tail[1..], after);
    }
  }

  lemma QuoteIsTidy(s: string, rest: string)
    requires Tidy(rest)
    ensures Tidy(Quote(s) + rest)
  {
    EscapesStayInside(s, rest);
    assert (Quote(s) + rest)[1..] == EscapeText(s) + "\"" + rest;
  }

  lemma PlainCharIsTidy(c: char, rest: string)
    requires Plain(c) && Tidy(rest)
    ensures Tidy([c] + rest)
  {
    assert ([c] + rest)[1..] == rest;
  }

  lemma {:induction false} PlainIsTidy(t: string, rest: string)
    requires AllPlain(t) && Tidy(rest)
    ensures Tidy(t + rest)
  {
    if t == "" {
      assert t + rest == rest;
    } else {
      PlainIsTidy(t[1..], rest);
      PlainCharIsTidy(t[0], t[1..] + rest);
      assert t + rest == [t[0]] + (t[1..] + rest);
    }
  }

  lemma NumberIsTidy(n: int, rest: string)
    requires Tidy(rest)
    ensures Tidy(IntText(n) + rest)
  {
    NatTextIsDigits(if n < 0 then -n else n);
    PlainIsTidy(IntText(n), rest);
  }

  lemma {:induction false} ValueIsTidy(v: Value, rest: string)
    requires Permitted(v) && Tidy(rest)
    ensures Tidy(Serialize(v) + rest)
    decreases v, 1
  {
    match v
    case Str(s) => QuoteIsTidy(s, rest);
    case Num(n) => NumberIsTidy(n, rest);
    case Arr(items) => ListIsTidy(v, rest);
    case Obj(members) => ObjectIsTidy(v, rest);
    case _ => PlainIsTidy(Serialize(v), rest);
  }

  lemma {:induction false} ListIsTidy(v: Value, rest: string)
    requires v.Arr? && Permitted(v) && Tidy(rest)
    ensures Tidy(Serialize(v) + rest)
    decreases v, 0
  {
    PlainCharIsTidy(']', rest);
    ItemsAreTidy(v.items, [']'] + rest);
    PlainCharIsTidy('[', ItemsText(v.items) + ([']'] + rest));
    assert Serialize(v) + rest == ['['] + (ItemsText(v.items) + ([']'] + rest));
  }

  lemma {:induction false} ObjectIsTidy(v: Value, rest: string)
    requires v.Obj? && Permitted(v) && Tidy(rest)
    ensures Tidy(Serialize(v) + rest)
    decreases v, 0
  {
    PlainCharIsTidy('}', rest);
    MembersAreTidy(v.members, ['}'] + rest);
    PlainCharIsTidy('{', MembersText(v.members) + (['}'] + rest));
    assert Serialize(v) + rest == ['{'] + (MembersText(v.members) + (['}'] + rest));
  }

  lemma Regroup(a: string, c: char, b: string, rest: string)
    ensures a + [c] + b + rest == a + ([c] + (b + rest))
  {
  }

  lemma {:induction false} ItemsAreTidy(items: seq<Value>, rest: string)
    requires (forall i | 0 <= i < |items| :: Permitted(items[i])) && Tidy(rest)
    ensures Tidy(ItemsText(items) + rest)
    decreases items, 0
  {
    if items == [] {
      assert ItemsText(items) + rest == rest;
    } else if |items| == 1 {
      ValueIsTidy(items[0], rest);
    } else {
      var later := ItemsText(items[1..]);
      ItemsAreTidy(items[1..], rest);
      PlainCharIsTidy(',', later + rest);
      ValueIsTidy(items[0], [','] + (later + rest));
      Regroup(Serialize(items[0]), ',', later, rest);
    }
  }

  lemma {:induction false} MemberIsTidy(m: Member, rest: string)
    requires Permitted(m.value) && Tidy(rest)
    ensures Tidy(Quote(m.name) + ":" + Serialize(m.value) + rest)
    decreases m, 0
  {
    var text := Serialize(m.value);
    ValueIsTidy(m.value, rest);
    PlainCharIsTidy(':', text + rest);
    QuoteIsTidy(m.name, [':'] + (text + rest));
    Regroup(Quote(m.name), ':', text, rest);
  }

  lemma {:induction false} MembersAreTidy(members: seq<Member>, rest: string)
    requires (forall i | 0 <= i < |members| :: Permitted(members[i].value)) && Tidy(rest)
    ensures Tidy(MembersText(members) + rest)
    decreases members, 0
  {
    if members == [] {
      assert MembersText(members) + rest == rest;
    } else if |members| == 1 {
      MemberIsTidy(members[0], rest);
    } else {
      var later := MembersText(members[1..]);
      MembersAreTidy(members[1..], rest);
      PlainCharIsTidy(',', later + rest);
      MemberIsTidy(members[0], [','] + (later + rest));
      Regroup(Quote(members[0].name) + ":" + Serialize(members[0].value), ',', later, rest);
    }
  }

  /** Canonical text has no blank outside its strings, nor anything but brackets,
      separators, numbers and the letters of literals. */
  lemma NoBlankOutsideStrings(v: Value, t: string)
    requires CanonicalText(v) == Some(t)
    ensures Tidy(t) && forall c <- Outside(t) :: !IsBlank(c)
  {
    ValueIsTidy(v, "");
    assert Serialize(v) + "" == t;
  }

  // --------------------------------------------------------- what is refused

  /** `u` stands somewhere in `v`, or is all of it. */
  ghost predicate StandsIn(u: Value, v: Value)
    decreases v
  {
    || u == v
    || (v.Arr? && exists i | 0 <= i < |v.items| :: StandsIn(u, v.items[i]))
    || (v.Obj? && exists i | 0 <= i < |v.members| :: StandsIn(u, v.members[i].value))
  }

  /** A number that is no integer or whose magnitude reaches 2^53, or an object with
      a name outside ASCII. */
  ghost predicate Defective(u: Value) {
    || u.Inexact?
    || (u.Num? && (u.n >= 0x20_0000_0000_0000 || u.n <= -0x20_0000_0000_0000))
    || (u.Obj? && exists i | 0 <= i < |u.members| :: !Ascii(u.members[i].name))
  }

  lemma {:induction false} PartsOfThePermitted(u: Value, v: Value)
    requires Permitted(v) && StandsIn(u, v)
    ensures !Defective(u)
    decreases v
  {
    if u != v {
      if v.Arr? {
        var i :| 0 <= i < |v.items| && StandsIn(u, v.items[i]);
        PartsOfThePermitted(u, v.items[i]);
      } else {
        var i :| 0 <= i < |v.members| && StandsIn(u, v.members[i].value);
        PartsOfThePermitted(u, v.members[i].value);
      }
    }
  }

  lemma {:induction false} DefectFound(v: Value) returns (u: Value)
    requires !Permitted(v)
    ensures StandsIn(u, v) && Defective(u)
    decreases v
  {
    u := v;
    if v.Arr? {
      var i :| 0 <= i < |v.items| && !Permitted(v.items[i]);
      u := DefectFound(v.items[i]);
    } else if v.Obj? && forall i | 0 <= i < |v.members| :: Ascii(v.members[i].name) {
      var i :| 0 <= i < |v.members| && !Permitted(v.members[i].value);
      u := DefectFound(v.members[i].value);
    }
  }

  /** A document is refused as a defect if and only if something in it is one. */
  lemma RefusedExactly(v: Value)
    ensures CanonicalText(v) == None <==> exists u :: StandsIn(u, v) && Defective(u)
  {
    if Permitted(v) {
      forall u | StandsIn(u, v)
        ensures !Defective(u)
      {
        PartsOfThePermitted(u, v);
      }
    } else {
      var u := DefectFound(v);
    }
  }
}
