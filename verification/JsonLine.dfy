/** The one-line JSON objects both append-only files are made of: compact objects whose values
    are strings or integers, as the writers emit them (to_json_line in
    src/intentlog/intent_log.cpp, entry_to_line in src/ledger/ledger.cpp).

    `Print` is the compact dump with error_handler_t::replace; `Parse` accepts exactly what
    `Print` can produce, in any member order and with any keys. */
module JsonLine {
  import opened Characters
  import opened Options
  import Utf8

  datatype Value = Str(s: string) | Num(n: int)

  datatype Member = Member(key: string, value: Value)

  type Obj = seq<Member>

  // ---------------------------------------------------------------- writing

  function EscapeChar(c: char): (e: string)
    ensures e != ""
  {
    if c == '"' then "\\\""
    else if c == '\\' then "\\\\"
    else if c as int == 0x08 then "\\b"
    else if c as int == 0x09 then "\\t"
    else if c as int == 0x0A then "\\n"
    else if c as int == 0x0C then "\\f"
    else if c as int == 0x0D then "\\r"
    else if c as int < 0x20 then "\\u00" + [HEX[c as int / 16], HEX[c as int % 16]]
    else [c]
  }

  function EscapeAll(s: string): string {
    if s == "" then "" else EscapeChar(s[0]) + EscapeAll(s[1..])
  }

  function PrintString(s: string): string {
    "\"" + EscapeAll(Utf8.Canonical(s)) + "\""
  }

  function Digit(d: int): char
    requires 0 <= d < 10
  {
    ('0' as int + d) as char
  }

  /** Decimal text, as std::to_string. */
  function Decimal(n: nat): (s: string)
    ensures s != ""
    ensures forall k :: 0 <= k < |s| ==> IsDigit(s[k])
    ensures s[0] == '0' ==> n == 0
  {
    if n < 10 then [Digit(n)] else Decimal(n / 10) + [Digit(n % 10)]
  }

  function PrintInt(n: int): string {
    if n < 0 then "-" + Decimal(-n) else Decimal(n)
  }

  function PrintValue(v: Value): string {
    match v
    case Str(s) => PrintString(s)
    case Num(n) => PrintInt(n)
  }

  function PrintMember(m: Member): string {
    PrintString(m.key) + ":" + PrintValue(m.value)
  }

  /** The members and the closing brace. */
  function PrintMembers(o: Obj): string
    requires o != []
  {
    PrintMember(o[0]) + (if |o| == 1 then "}" else "," + PrintMembers(o[1..]))
  }

  function Print(o: Obj): string {
    if o == [] then "{}" else "{" + PrintMembers(o)
  }

  // ---------------------------------------------------------------- reading

  function HexValue(c: char): Option<int> {
    if '0' <= c <= '9' then Some(c as int - '0' as int)
    else if 'a' <= c <= 'f' then Some(c as int - 'a' as int + 10)
    else None
  }

  /** What an escape sequence at the front of `s` stands for, and its length. */
  function Unescape(s: string): (r: Option<(char, nat)>)
    requires s != "" && s[0] == '\\'
    ensures r.Some? ==> 2 <= r.value.1 <= |s|
  {
    if |s| < 2 then None
    else if s[1] == '"' then Some(('"', 2))
    else if s[1] == '\\' then Some(('\\', 2))
    else if s[1] == 'b' then Some((0x08 as char, 2))
    else if s[1] == 't' then Some((0x09 as char, 2))
    else if s[1] == 'n' then Some((0x0A as char, 2))
    else if s[1] == 'f' then Some((0x0C as char, 2))
    else if s[1] == 'r' then Some((0x0D as char, 2))
    else if s[1] == 'u' && |s| >= 6 && s[2] == '0' && s[3] == '0' then
      match (HexValue(s[4]), HexValue(s[5]))
      case (Some(h), Some(l)) => if h < 2 then Some(((16 * h + l) as char, 6)) else None
      case (_, _) => None
    else None
  }

  /** The rest of a string literal, after its opening quote: its value and what follows. */
  function ParseBody(s: string): (r: Option<(string, string)>)
    ensures r.Some? ==> |r.value.1| < |s|
  {
    if s == "" then None
    else if s[0] == '"' then Some(("", s[1..]))
    else if s[0] == '\\' then
      match Unescape(s)
      case None => None
      case Some((c, k)) =>
        match ParseBody(s[k..])
        case None => None
        case Some((v, rest)) => Some(([c] + v, rest))
    else if s[0] as int < 0x20 then None
    else
      match ParseBody(s[1..])
      case None => None
      case Some((v, rest)) => Some(([s[0]] + v, rest))
  }

  /** A string literal; an ill-formed one makes the whole line unreadable. */
  function ParseString(s: string): (r: Option<(string, string)>)
    ensures r.Some? ==> |r.value.1| < |s|
  {
    if s == "" || s[0] != '"' then None
    else
      match ParseBody(s[1..])
      case None => None
      case Some((v, rest)) => if Utf8.Canonical(v) == v then Some((v, rest)) else None
  }

  function DigitsLength(s: string): (k: nat)
    ensures k <= |s|
    ensures forall j :: 0 <= j < k ==> IsDigit(s[j])
    ensures k < |s| ==> !IsDigit(s[k])
  {
    if s == "" || !IsDigit(s[0]) then 0 else 1 + DigitsLength(s[1..])
  }

  function DecimalValue(s: string): nat
    requires forall k :: 0 <= k < |s| ==> IsDigit(s[k])
  {
    if s == "" then 0
    else
      assert IsDigit(s[|s| - 1]);
      10 * DecimalValue(s[..|s| - 1]) + (s[|s| - 1] as int - '0' as int)
  }

  /** An unsigned integer without a superfluous leading zero. */
  function ParseNat(s: string): (r: Option<(int, string)>)
    ensures r.Some? ==> |r.value.1| < |s|
  {
    var k := DigitsLength(s);
    if k == 0 || (k > 1 && s[0] == '0') then None
    else Some((DecimalValue(s[..k]), s[k..]))
  }

  function ParseInt(s: string): (r: Option<(int, string)>)
    ensures r.Some? ==> |r.value.1| < |s|
  {
    if s != "" && s[0] == '-' then
      match ParseNat(s[1..])
      case None => None
      case Some((n, rest)) => Some((-n, rest))
    else
      match ParseNat(s)
      case None => None
      case Some((n, rest)) => Some((n, rest))
  }

  function ParseValue(s: string): (r: Option<(Value, string)>)
    ensures r.Some? ==> |r.value.1| < |s|
  {
    if s != "" && s[0] == '"' then
      match ParseString(s)
      case None => None
      case Some((v, rest)) => Some((Str(v), rest))
    else
      match ParseInt(s)
      case None => None
      case Some((n, rest)) => Some((Num(n), rest))
  }

  function ParseMember(s: string): (r: Option<(Member, string)>)
    ensures r.Some? ==> |r.value.1| < |s|
  {
    match ParseString(s)
    case None => None
    case Some((key, rest)) =>
      if rest == "" || rest[0] != ':' then None
      else
        match ParseValue(rest[1..])
        case None => None
        case Some((v, rest')) => Some((Member(key, v), rest'))
  }

  function ParseMembers(s: string): Option<(Obj, string)>
    decreases |s|
  {
    match ParseMember(s)
    case None => None
    case Some((m, rest)) =>
      if rest == "" then None
      else if rest[0] == '}' then Some(([m], rest[1..]))
      else if rest[0] != ',' then None
      else
        match ParseMembers(rest[1..])
        case None => None
        case Some((ms, rest')) => Some(([m] + ms, rest'))
  }

  function ParseObject(s: string): Option<(Obj, string)> {
    if s == "" || s[0] != '{' then None
    else if |s| > 1 && s[1] == '}' then Some(([], s[2..]))
    else ParseMembers(s[1..])
  }

  /** A whole line: one object and nothing after it. */
  function Parse(line: string): Option<Obj> {
    match ParseObject(line)
    case None => None
    case Some((o, rest)) => if rest == "" then Some(o) else None
  }

  /** The value of a key; as in the parsed map of the source, the last occurrence wins. */
  function Lookup(o: Obj, key: string): Option<Value> {
    if o == [] then None
    else
      var later := Lookup(o[1..], key);
      if later.Some? then later
      else if o[0].key == key then Some(o[0].value) else None
  }

  lemma {:induction false} LookupAt(o: Obj, i: nat)
    requires i < |o|
    requires forall j :: i < j < |o| ==> o[j].key != o[i].key
    ensures Lookup(o, o[i].key) == Some(o[i].value)
  {
    if i > 0 {
      assert o[1..][i - 1] == o[i];
      LookupAt(o[1..], i - 1);
    } else {
      LookupAbsent(o[1..], o[0].key);
    }
  }

  lemma {:induction false} LookupAbsent(o: Obj, key: string)
    requires forall j :: 0 <= j < |o| ==> o[j].key != key
    ensures Lookup(o, key) == None
  {
    if o != [] {
      LookupAbsent(o[1..], key);
    }
  }

  // ---------------------------------------------------------------- round trip

  /** What a reader gets back: every string in canonical form. */
  function CanonicalValue(v: Value): Value {
    match v
    case Str(s) => Str(Utf8.Canonical(s))
    case Num(n) => v
  }

  function CanonicalObj(o: Obj): (c: Obj)
    ensures |c| == |o|
  {
    if o == [] then []
    else [Member(Utf8.Canonical(o[0].key), CanonicalValue(o[0].value))] + CanonicalObj(o[1..])
  }

  /** Text that is written and read back unchanged. */
  predicate Plain(s: string) {
    Utf8.Canonical(s) == s
  }

  lemma AsciiIsPlain(s: string)
    requires forall k :: 0 <= k < |s| ==> s[k] as int < 0x80
    ensures Plain(s)
  {
    Utf8.AsciiIsCanonical(s);
  }

  /** The member is written and read back unchanged. */
  predicate PlainMember(m: Member) {
    Plain(m.key) && CanonicalValue(m.value) == m.value
  }

  predicate PlainObj(o: Obj) {
    o == [] || (PlainMember(o[0]) && PlainObj(o[1..]))
  }

  lemma {:induction false} PlainObjOf(o: Obj)
    requires forall i :: 0 <= i < |o| ==> PlainMember(o[i])
    ensures PlainObj(o)
  {
    if o != [] {
      PlainObjOf(o[1..]);
    }
  }

  lemma {:induction false} CanonicalObjOfPlain(o: Obj)
    requires PlainObj(o)
    ensures CanonicalObj(o) == o
  {
    if o != [] {
      CanonicalObjOfPlain(o[1..]);
      assert o == [o[0]] + o[1..];
    }
  }

  lemma UnescapeEscaped(c: char, rest: string)
    ensures var e := EscapeChar(c);
      if c == '"' || c == '\\' || c as int < 0x20
      then e[0] == '\\' && Unescape(e + rest) == Some((c, |e|))
      else e == [c]
  {
    if c as int < 0x20 {
      ControlUnescaped(c, EscapeChar(c) + rest);
    }
  }

  lemma ControlUnescaped(c: char, s: string)
    requires c as int < 0x20 && EscapeChar(c) <= s
    ensures EscapeChar(c)[0] == '\\' && Unescape(s) == Some((c, |EscapeChar(c)|))
  {
    var e := EscapeChar(c);
    assert forall k :: 0 <= k < |e| ==> s[k] == e[k];
  }

  lemma {:induction false} BodyRoundTrip(v: string, rest: string)
    ensures ParseBody(EscapeAll(v) + "\"" + rest) == Some((v, rest))
  {
    if v == "" {
      assert EscapeAll(v) + "\"" + rest == "\"" + rest;
    } else {
      var e, tl := EscapeChar(v[0]), EscapeAll(v[1..]) + "\"" + rest;
      var s := EscapeAll(v) + "\"" + rest;
      assert s == e + tl;
      BodyRoundTrip(v[1..], rest);
      UnescapeEscaped(v[0], tl);
      assert s[|e|..] == tl;
      assert [v[0]] + v[1..] == v;
    }
  }

  lemma StringRoundTrip(s: string, rest: string)
    ensures ParseString(PrintString(s) + rest) == Some((Utf8.Canonical(s), rest))
  {
    var v := Utf8.Canonical(s);
    var text := PrintString(s) + rest;
    BodyRoundTrip(v, rest);
    assert text[1..] == EscapeAll(v) + "\"" + rest;
    Utf8.CanonicalIdempotent(s);
  }

  lemma {:induction false} DecimalRoundTrip(n: nat)
    ensures DecimalValue(Decimal(n)) == n
  {
    if n >= 10 {
      DecimalRoundTrip(n / 10);
      assert Decimal(n)[..|Decimal(n)| - 1] == Decimal(n / 10);
    }
  }

  lemma {:induction false} DigitsLengthOf(d: string, rest: string)
    requires forall k :: 0 <= k < |d| ==> IsDigit(d[k])
    requires rest != "" && !IsDigit(rest[0])
    ensures DigitsLength(d + rest) == |d|
  {
    if d == "" {
      assert d + rest == rest;
    } else {
      assert (d + rest)[1..] == d[1..] + rest;
      DigitsLengthOf(d[1..], rest);
    }
  }

  lemma NatRoundTrip(n: nat, rest: string)
    requires rest != "" && !IsDigit(rest[0])
    ensures ParseNat(Decimal(n) + rest) == Some((n, rest))
  {
    var d := Decimal(n);
    DigitsLengthOf(d, rest);
    DecimalRoundTrip(n);
    assert (d + rest)[..|d|] == d && (d + rest)[|d|..] == rest;
    assert n < 10 ==> |d| == 1;
  }

  lemma IntRoundTrip(n: int, rest: string)
    requires rest != "" && !IsDigit(rest[0])
    ensures ParseInt(PrintInt(n) + rest) == Some((n, rest))
  {
    var d := Decimal(if n < 0 then -n else n);
    assert IsDigit(d[0]);
    NatRoundTrip(if n < 0 then -n else n, rest);
    if n < 0 {
      MinusThen(d, rest);
    } else {
      assert (d + rest)[0] == d[0];
    }
  }

  lemma MinusThen(d: string, rest: string)
    ensures ("-" + d + rest)[0] == '-' && ("-" + d + rest)[1..] == d + rest
  {
  }

  lemma ValueRoundTrip(v: Value, rest: string)
    requires rest != "" && !IsDigit(rest[0])
    ensures ParseValue(PrintValue(v) + rest) == Some((CanonicalValue(v), rest))
  {
    match v
    case Str(s) =>
      StringRoundTrip(s, rest);
    case Num(n) =>
      IntRoundTrip(n, rest);
      assert IsDigit(Decimal(if n < 0 then -n else n)[0]);
  }

  lemma MemberRoundTrip(m: Member, rest: string)
    requires rest != "" && !IsDigit(rest[0])
    ensures ParseMember(PrintMember(m) + rest)
         == Some((Member(Utf8.Canonical(m.key), CanonicalValue(m.value)), rest))
  {
    var tl := PrintValue(m.value) + rest;
    assert PrintMember(m) + rest == PrintString(m.key) + (":" + tl);
    StringRoundTrip(m.key, ":" + tl);
    assert (":" + tl)[1..] == tl;
    ValueRoundTrip(m.value, rest);
  }

  lemma {:induction false} MembersRoundTrip(o: Obj, rest: string)
    requires o != []
    ensures ParseMembers(PrintMembers(o) + rest) == Some((CanonicalObj(o), rest))
  {
    if |o| == 1 {
      MemberThen(o[0], "}", "", rest);
      assert "}" + "" == "}" && "" + rest == rest;
      assert CanonicalObj(o) == [Member(Utf8.Canonical(o[0].key), CanonicalValue(o[0].value))];
    } else {
      MemberThen(o[0], ",", PrintMembers(o[1..]), rest);
      MembersRoundTrip(o[1..], rest);
    }
  }

  /** One printed member, the separator behind it and the text after that. */
  lemma MemberThen(m: Member, sep: string, tail: string, rest: string)
    requires sep == "}" || sep == ","
    ensures ParseMember(PrintMember(m) + (sep + tail) + rest)
         == Some((Member(Utf8.Canonical(m.key), CanonicalValue(m.value)), sep + (tail + rest)))
    ensures (sep + (tail + rest))[1..] == tail + rest
  {
    Associate(PrintMember(m), sep, tail, rest);
    MemberRoundTrip(m, sep + (tail + rest));
  }

  lemma Associate(a: string, b: string, c: string, d: string)
    ensures a + (b + c) + d == a + (b + (c + d))
  {
  }

  lemma PrintMembersStart(o: Obj)
    requires o != []
    ensures PrintMembers(o) != "" && PrintMembers(o)[0] == '"'
  {
  }

  lemma ObjectRoundTrip(o: Obj, rest: string)
    ensures ParseObject(Print(o) + rest) == Some((CanonicalObj(o), rest))
  {
    var s := Print(o) + rest;
    if o == [] {
      assert s[2..] == rest;
    } else {
      PrintMembersStart(o);
      BraceThen(PrintMembers(o), rest);
      MembersRoundTrip(o, rest);
    }
  }

  lemma BraceThen(ms: string, rest: string)
    requires ms != ""
    ensures var s := "{" + ms + rest;
      |s| > 1 && s[0] == '{' && s[1] == ms[0] && s[1..] == ms + rest
  {
  }

  /** Any printed object parses back to itself in canonical form. */
  lemma RoundTrip(o: Obj)
    ensures Parse(Print(o)) == Some(CanonicalObj(o))
  {
    ObjectRoundTrip(o, "");
    assert Print(o) + "" == Print(o);
  }

  /** An object whose strings are all canonical reads back as itself. */
  lemma PlainRoundTrip(o: Obj)
    requires PlainObj(o)
    ensures Parse(Print(o)) == Some(o)
  {
    RoundTrip(o);
    CanonicalObjOfPlain(o);
  }

  // ---------------------------------------------------------------- prefixes

  lemma UnescapeExtends(s: string, t: string)
    requires s != "" && s[0] == '\\' && Unescape(s).Some?
    ensures Unescape(s + t) == Unescape(s)
  {
  }

  lemma {:induction false} BodyExtends(s: string, t: string)
    requires ParseBody(s).Some?
    ensures ParseBody(s + t) == Some((ParseBody(s).value.0, ParseBody(s).value.1 + t))
  {
    if s[0] == '"' {
      assert (s + t)[1..] == s[1..] + t;
    } else if s[0] == '\\' {
      UnescapeExtends(s, t);
      var k := Unescape(s).value.1;
      assert (s + t)[k..] == s[k..] + t;
      BodyExtends(s[k..], t);
    } else {
      assert (s + t)[1..] == s[1..] + t;
      BodyExtends(s[1..], t);
    }
  }

  lemma StringExtends(s: string, t: string)
    requires ParseString(s).Some?
    ensures ParseString(s + t) == Some((ParseString(s).value.0, ParseString(s).value.1 + t))
  {
    assert (s + t)[1..] == s[1..] + t;
    BodyExtends(s[1..], t);
  }

  lemma {:induction false} DigitsLengthExtends(s: string, t: string)
    requires DigitsLength(s) < |s|
    ensures DigitsLength(s + t) == DigitsLength(s)
  {
    if IsDigit(s[0]) {
      assert (s + t)[1..] == s[1..] + t;
      DigitsLengthExtends(s[1..], t);
    }
  }

  lemma NatExtends(s: string, t: string)
    requires ParseNat(s).Some? && ParseNat(s).value.1 != ""
    ensures ParseNat(s + t) == Some((ParseNat(s).value.0, ParseNat(s).value.1 + t))
  {
    var k := DigitsLength(s);
    DigitsLengthExtends(s, t);
    assert (s + t)[..k] == s[..k] && (s + t)[k..] == s[k..] + t;
  }

  /** A number that is followed by something stays what it is when more text is appended. */
  lemma ValueExtends(s: string, t: string)
    requires ParseValue(s).Some? && ParseValue(s).value.1 != ""
    ensures ParseValue(s + t) == Some((ParseValue(s).value.0, ParseValue(s).value.1 + t))
  {
    if s[0] == '"' {
      StringExtends(s, t);
    } else if s[0] == '-' {
      assert (s + t)[1..] == s[1..] + t;
      NatExtends(s[1..], t);
    } else {
      NatExtends(s, t);
    }
  }

  lemma MemberExtends(s: string, t: string)
    requires ParseMember(s).Some? && ParseMember(s).value.1 != ""
    ensures ParseMember(s + t) == Some((ParseMember(s).value.0, ParseMember(s).value.1 + t))
  {
    StringExtends(s, t);
    var (key, rest) := ParseString(s).value;
    var (v, behind) := ParseValue(rest[1..]).value;
    ValueExtends(rest[1..], t);
    ParsesAsMember(s + t, key, rest + t, rest[1..] + t, v, behind + t);
  }

  lemma ParsesAsMember(s: string, key: string, rest: string, value: string, v: Value, behind: string)
    requires ParseString(s) == Some((key, rest)) && rest == ":" + value && ParseValue(value) == Some((v, behind))
    ensures ParseMember(s) == Some((Member(key, v), behind))
  {
    assert rest[1..] == value;
  }

  lemma {:induction false} MembersExtend(s: string, t: string)
    requires ParseMembers(s).Some?
    ensures ParseMembers(s + t) == Some((ParseMembers(s).value.0, ParseMembers(s).value.1 + t))
    decreases |s|
  {
    MemberExtends(s, t);
    var rest := ParseMember(s).value.1;
    assert (rest + t)[1..] == rest[1..] + t;
    if rest[0] == ',' {
      MembersExtend(rest[1..], t);
    }
  }

  lemma ObjectExtends(s: string, t: string)
    requires ParseObject(s).Some?
    ensures ParseObject(s + t) == Some((ParseObject(s).value.0, ParseObject(s).value.1 + t))
  {
    assert (s + t)[1..] == s[1..] + t;
    if |s| > 1 && s[1] == '}' {
      assert (s + t)[2..] == s[2..] + t;
    } else {
      assert ParseMember(s[1..]).Some?;
      assert |s| > 1;
      MembersExtend(s[1..], t);
    }
  }

  /** A torn line never reads as a record: no strict prefix of a printed object parses. */
  lemma StrictPrefixUnreadable(o: Obj, p: string)
    requires p < Print(o)
    ensures Parse(p) == None
  {
    if Parse(p).Some? {
      var t := Print(o)[|p|..];
      assert p + t == Print(o);
      ObjectExtends(p, t);
      RoundTrip(o);
      assert false;
    }
  }

  /** A complete object with anything glued behind it does not parse either. */
  lemma GluedUnreadable(o: Obj, t: string)
    requires t != ""
    ensures Parse(Print(o) + t) == None
  {
    ObjectRoundTrip(o, t);
  }

  // ------------------------------------------ a torn object followed by another object

  /** How a printed object with a lower-case first key begins. */
  predicate Opens(x: string) {
    |x| > 2 && x[0] == '{' && x[1] == '"' && 'a' <= x[2] <= 'z'
  }

  /** The rest of a parse cannot be continued by a separator. */
  predicate Stuck(rest: string) {
    rest != "" && (rest[0] == '{' || 'a' <= rest[0] <= 'z')
  }

  lemma {:induction false} TornBody(v: string, p: string, x: string)
    requires p <= EscapeAll(v) && Opens(x)
    ensures ParseBody(p + x).Some? ==> ParseBody(p + x).value.1 == x[2..]
  {
    if p == "" {
      assert p + x == x;
      assert x[1..][1..] == x[2..];
      assert ParseBody(x[1..]) == Some(("", x[2..]));
    } else {
      var e := EscapeChar(v[0]);
      if |p| < |e| {
        assert p <= e;
        TornEscape(v[0], p, x);
      } else {
        var q := p[|e|..];
        FrontOfBoth(p, e, EscapeAll(v[1..]), x);
        UnescapeEscaped(v[0], q + x);
        TornBody(v[1..], q, x);
      }
    }
  }

  lemma FrontOfBoth(p: string, e: string, b: string, x: string)
    requires p <= e + b && |e| <= |p|
    ensures p[|e|..] <= b && p + x == e + (p[|e|..] + x) && (p + x)[|e|..] == p[|e|..] + x
  {
    assert p[..|e|] == e;
  }

  lemma TornEscape(c: char, p: string, x: string)
    requires p < EscapeChar(c) && p != "" && Opens(x)
    ensures ParseBody(p + x) == None
  {
    var s := p + x;
    assert s[0] == '\\';
    assert s[|p|] == '{';
    assert |p| == 1 || |p| == 2 || |p| == 3 || |p| == 4 || |p| == 5;
    assert Unescape(s) == None;
  }

  lemma TornString(s: string, p: string, x: string)
    requires p < PrintString(s) && Opens(x)
    ensures ParseString(p + x).Some? ==> ParseString(p + x).value.1 == x[2..]
  {
    if p != "" {
      assert p[1..] <= EscapeAll(Utf8.Canonical(s));
      assert (p + x)[1..] == p[1..] + x;
      TornBody(Utf8.Canonical(s), p[1..], x);
    } else {
      assert p + x == x;
    }
  }

  lemma {:induction false} DigitsThenBrace(d: string, x: string)
    requires forall k :: 0 <= k < |d| ==> IsDigit(d[k])
    requires Opens(x)
    ensures DigitsLength(d + x) == |d| && (d + x)[|d|..] == x
  {
    DigitsLengthOf(d, x);
  }

  lemma TornNumber(n: int, p: string, x: string)
    requires p != "" && p <= PrintInt(n) && Opens(x)
    ensures ParseValue(p + x).Some? ==> Stuck(ParseValue(p + x).value.1)
  {
    if n < 0 {
      assert p[0] == '-' && p[1..] <= Decimal(-n);
      assert (p + x)[1..] == p[1..] + x;
      DigitsThenBrace(p[1..], x);
    } else {
      assert IsDigit(p[0]);
      DigitsThenBrace(p, x);
    }
  }

  lemma TornValue(v: Value, p: string, x: string)
    requires p <= PrintValue(v) && Opens(x)
    ensures ParseValue(p + x).Some? ==> Stuck(ParseValue(p + x).value.1)
  {
    if p == "" {
      assert p + x == x;
      DigitsThenBrace("", x);
    } else if v.Str? {
      if p == PrintValue(v) {
        StringRoundTrip(v.s, x);
      } else {
        TornString(v.s, p, x);
      }
    } else {
      TornNumber(v.n, p, x);
    }
  }

  /** A prefix of `a + sep + b` ends inside `a` or is `a`, the separator and a prefix of `b`. */
  lemma SplitPrefix(p: string, a: string, sep: string, b: string, x: string)
    requires p <= a + (sep + b) && |sep| == 1
    ensures |p| <= |a| ==> p <= a
    ensures |p| > |a| ==>
      var q := p[|a| + 1..];
      && q <= b
      && p + x == a + (sep + (q + x))
      && (sep + (q + x))[1..] == q + x
      && (p == a + (sep + b) <==> q == b)
  {
    if |p| > |a| {
      var q := p[|a| + 1..];
      assert p[..|a|] == a && p[|a|] == sep[0];
      assert p == a + (sep + q);
      assert q == (a + (sep + b))[|a| + 1..|p|];
    }
  }

  lemma TornBehindKey(m: Member, q: string, x: string, s: string)
    requires q <= PrintValue(m.value) && Opens(x) && s == PrintString(m.key) + (":" + (q + x))
    ensures ParseMember(s).Some? ==> Stuck(ParseMember(s).value.1)
  {
    StringRoundTrip(m.key, ":" + (q + x));
    assert (":" + (q + x))[1..] == q + x;
    TornValue(m.value, q, x);
  }

  lemma TornMember(m: Member, p: string, x: string)
    requires p <= PrintMember(m) && Opens(x)
    ensures ParseMember(p + x).Some? ==> Stuck(ParseMember(p + x).value.1)
  {
    var inKey, q := CutMember(m, p, x);
    if inKey {
      TornInKey(m.key, p, x);
    } else {
      TornBehindKey(m, q, x, p + x);
    }
  }

  /** A prefix of a member ends inside its key, or behind the colon. */
  lemma CutMember(m: Member, p: string, x: string) returns (inKey: bool, q: string)
    requires p <= PrintMember(m)
    ensures inKey ==> p <= PrintString(m.key)
    ensures !inKey ==> q <= PrintValue(m.value) && p + x == PrintString(m.key) + (":" + (q + x))
  {
    MemberText(PrintString(m.key), PrintValue(m.value));
    inKey, q := CutText(PrintString(m.key), PrintValue(m.value), p, x);
  }

  lemma MemberText(key: string, value: string)
    ensures key + ":" + value == key + (":" + value)
  {
  }

  lemma CutText(key: string, value: string, p: string, x: string) returns (inKey: bool, q: string)
    requires p <= key + (":" + value)
    ensures inKey ==> p <= key
    ensures !inKey ==> q <= value && p + x == key + (":" + (q + x))
  {
    SplitPrefix(p, key, ":", value, x);
    inKey := |p| <= |key|;
    q := if inKey then "" else p[|key| + 1..];
  }

  lemma TornInKey(key: string, p: string, x: string)
    requires p <= PrintString(key) && Opens(x)
    ensures ParseMember(p + x).Some? ==> Stuck(ParseMember(p + x).value.1)
  {
    if p == PrintString(key) {
      StringRoundTrip(key, x);
    } else {
      TornString(key, p, x);
    }
  }

  lemma {:induction false} TornMembers(o: Obj, p: string, x: string)
    requires o != [] && p < PrintMembers(o) && Opens(x)
    ensures ParseMembers(p + x) == None
  {
    var m := PrintMember(o[0]);
    if |o| == 1 {
      assert m + ("}" + "") == m + "}";
      SplitPrefix(p, m, "}", "", x);
      TornMember(o[0], p, x);
    } else {
      assert PrintMembers(o) == m + ("," + PrintMembers(o[1..]));
      SplitPrefix(p, m, ",", PrintMembers(o[1..]), x);
      if |p| <= |m| {
        TornMember(o[0], p, x);
      } else {
        var q := p[|m| + 1..];
        MemberRoundTrip(o[0], "," + (q + x));
        TornMembers(o[1..], q, x);
      }
    }
  }

  predicate StartsWithLetter(s: string) {
    s != "" && 'a' <= s[0] <= 'z'
  }

  lemma EscapeKeepsLetter(s: string)
    requires StartsWithLetter(s)
    ensures StartsWithLetter(EscapeAll(s))
  {
    assert EscapeChar(s[0]) == [s[0]];
  }

  lemma QuotedOpens(e: string, rest: string)
    requires StartsWithLetter(e)
    ensures Opens("{" + (("\"" + e + "\"") + rest))
  {
  }

  lemma PrintOpens(o: Obj)
    requires PlainObj(o) && o != [] && StartsWithLetter(o[0].key)
    ensures Opens(Print(o))
  {
    var e := EscapeAll(o[0].key);
    EscapeKeepsLetter(o[0].key);
    var behind := ":" + PrintValue(o[0].value);
    var rest := if |o| == 1 then "}" else "," + PrintMembers(o[1..]);
    QuotedOpens(e, behind + rest);
    assert PrintMembers(o) == ("\"" + e + "\"") + (behind + rest);
  }

  /** A torn object with a complete object glued behind it is unreadable: the second one
      cannot repair the first. */
  lemma TornThenGlued(o: Obj, p: string, x: string)
    requires p != "" && p < Print(o) && Opens(x)
    ensures Parse(p + x) == None
  {
    if o == [] {
      DropBrace(p, "}", x);
      assert ParseString(x) == None;
      UnreadableMembers(x);
    } else {
      PrintMembersStart(o);
      DropBrace(p, PrintMembers(o), x);
      TornMembers(o, p[1..], x);
      UnreadableMembers(p[1..] + x);
    }
  }

  lemma DropBrace(p: string, ms: string, x: string)
    requires p != "" && p < "{" + ms && Opens(x)
    ensures p[1..] < ms && p + x == "{" + (p[1..] + x)
    ensures p[1..] + x != "" && (p[1..] + x)[0] == (if |p| == 1 then '{' else ms[0])
    ensures |ms| == 1 ==> p + x == "{" + x
  {
    assert p[1..] == ms[..|p| - 1];
  }

  lemma UnreadableMembers(s: string)
    requires s != "" && s[0] != '}' && ParseMembers(s) == None
    ensures Parse("{" + s) == None
  {
    assert ("{" + s)[1..] == s;
  }

  lemma {:induction false} EscapeAllNoNewline(s: string)
    ensures '\n' !in EscapeAll(s)
  {
    if s != "" {
      EscapeAllNoNewline(s[1..]);
      EscapeCharNoNewline(s[0]);
    }
  }

  lemma EscapeCharNoNewline(c: char)
    ensures '\n' !in EscapeChar(c)
  {
  }

  lemma PrintIntNoNewline(n: int)
    ensures '\n' !in PrintInt(n)
  {
    var d := Decimal(if n < 0 then -n else n);
    assert forall k :: 0 <= k < |d| ==> d[k] != '\n';
  }

  lemma MemberNoNewline(m: Member)
    ensures '\n' !in PrintMember(m)
  {
    EscapeAllNoNewline(Utf8.Canonical(m.key));
    match m.value
    case Str(s) => EscapeAllNoNewline(Utf8.Canonical(s));
    case Num(n) => PrintIntNoNewline(n);
  }

  lemma {:induction false} MembersNoNewline(o: Obj)
    requires o != []
    ensures '\n' !in PrintMembers(o)
  {
    MemberNoNewline(o[0]);
    if |o| > 1 {
      MembersNoNewline(o[1..]);
    }
  }

  /** A printed object is one line. */
  lemma PrintIsOneLine(o: Obj)
    ensures '\n' !in Print(o) && Print(o) != ""
  {
    if o != [] {
      MembersNoNewline(o);
    }
  }

  // ---------------------------------------------------------------- the dump is valid UTF-8

  lemma AsciiIsWellFormed(s: string)
    requires forall k :: 0 <= k < |s| ==> s[k] as int < 0x80
    ensures Utf8.WellFormed(s)
  {
    Utf8.AsciiIsCanonical(s);
    Utf8.CanonicalIdentityIffWellFormed(s);
  }

  lemma {:induction false} EscapeAllAppend(a: string, b: string)
    ensures EscapeAll(a + b) == EscapeAll(a) + EscapeAll(b)
  {
    if a == "" {
      assert a + b == b;
    } else {
      assert (a + b)[1..] == a[1..] + b;
      EscapeAllAppend(a[1..], b);
    }
  }

  /** No byte of a multi-byte sequence is escaped. */
  lemma {:induction false} EscapeHigh(s: string)
    requires forall k :: 0 <= k < |s| ==> s[k] as int >= 0x80
    ensures EscapeAll(s) == s
  {
    if s != "" {
      EscapeHigh(s[1..]);
      assert s == [s[0]] + s[1..];
    }
  }

  lemma EscapeOne(e: string)
    requires |e| == 1
    ensures EscapeAll(e) == EscapeChar(e[0])
  {
    assert e[1..] == "";
    assert EscapeAll(e) == EscapeChar(e[0]) + "";
  }

  lemma EscapeIsAscii(c: char)
    requires c as int < 0x80
    ensures forall k :: 0 <= k < |EscapeChar(c)| ==> EscapeChar(c)[k] as int < 0x80
  {
  }

  lemma EscapeEncoded(cp: int)
    requires Utf8.Scalar(cp)
    ensures Utf8.WellFormed(EscapeAll(Utf8.Encode(cp)))
  {
    var e := Utf8.Encode(cp);
    if cp < 0x80 {
      EscapeOne(e);
      EscapeIsAscii(e[0]);
      AsciiIsWellFormed(EscapeAll(e));
    } else {
      EscapeHigh(e);
      Utf8.WellFormedEmpty();
      Utf8.WellFormedCons(cp, "");
      assert e + "" == e;
    }
  }

  lemma {:induction false} EscapedIsWellFormed(cps: seq<int>)
    requires forall cp :: cp in cps ==> Utf8.Scalar(cp)
    ensures Utf8.WellFormed(EscapeAll(Utf8.EncodeAll(cps)))
  {
    if cps == [] {
      Utf8.WellFormedEmpty();
    } else {
      EscapeAllAppend(Utf8.Encode(cps[0]), Utf8.EncodeAll(cps[1..]));
      EscapeEncoded(cps[0]);
      EscapedIsWellFormed(cps[1..]);
      Utf8.WellFormedAppend(EscapeAll(Utf8.Encode(cps[0])), EscapeAll(Utf8.EncodeAll(cps[1..])));
    }
  }

  lemma StringIsWellFormed(s: string)
    ensures Utf8.WellFormed(PrintString(s))
  {
    Utf8.CanonicalIsWellFormed(s);
    var cps: seq<int> :| (forall cp :: cp in cps ==> Utf8.Scalar(cp)) && Utf8.EncodeAll(cps) == Utf8.Canonical(s);
    EscapedIsWellFormed(cps);
    AsciiIsWellFormed("\"");
    Utf8.WellFormedAppend("\"", EscapeAll(Utf8.Canonical(s)));
    Utf8.WellFormedAppend("\"" + EscapeAll(Utf8.Canonical(s)), "\"");
  }

  lemma IntIsWellFormed(n: int)
    ensures Utf8.WellFormed(PrintInt(n))
  {
    var d := Decimal(if n < 0 then -n else n);
    assert forall k :: 0 <= k < |d| ==> IsDigit(d[k]);
    AsciiIsWellFormed(PrintInt(n));
  }

  lemma MemberIsWellFormed(m: Member)
    ensures Utf8.WellFormed(PrintMember(m))
  {
    StringIsWellFormed(m.key);
    AsciiIsWellFormed(":");
    match m.value {
      case Str(s) => StringIsWellFormed(s);
      case Num(n) => IntIsWellFormed(n);
    }
    Utf8.WellFormedAppend(PrintString(m.key), ":");
    Utf8.WellFormedAppend(PrintString(m.key) + ":", PrintValue(m.value));
  }

  lemma {:induction false} MembersAreWellFormed(o: Obj)
    requires o != []
    ensures Utf8.WellFormed(PrintMembers(o))
  {
    MemberIsWellFormed(o[0]);
    AsciiIsWellFormed("}");
    AsciiIsWellFormed(",");
    if |o| == 1 {
      Utf8.WellFormedAppend(PrintMember(o[0]), "}");
    } else {
      MembersAreWellFormed(o[1..]);
      Utf8.WellFormedAppend(",", PrintMembers(o[1..]));
      Utf8.WellFormedAppend(PrintMember(o[0]), "," + PrintMembers(o[1..]));
    }
  }

  /** Whatever bytes its strings hold, a printed object is valid UTF-8, so canonicalising it again
      changes nothing. */
  lemma PrintIsCanonical(o: Obj)
    ensures Utf8.Canonical(Print(o)) == Print(o)
  {
    if o == [] {
      AsciiIsWellFormed("{}");
    } else {
      AsciiIsWellFormed("{");
      MembersAreWellFormed(o);
      Utf8.WellFormedAppend("{", PrintMembers(o));
    }
    Utf8.CanonicalIdentityIffWellFormed(Print(o));
  }
}
