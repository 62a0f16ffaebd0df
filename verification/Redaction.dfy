/** The secret scrubber (src/domain/redaction.cpp). */
module Redaction {
  import opened Characters
  import opened Options
  import S = Sequences

  const MARKER: string := "***REDACTED***"

  function Lower(c: char): char {
    if 'A' <= c <= 'Z' then (c as int - 'A' as int + 'a' as int) as char else c
  }

  /** The alphabet of opaque credentials and of key names. */
  predicate IsToken(c: char) {
    IsLetter(c) || IsDigit(c) || c == '_' || c == '-'
  }

  predicate IsSpace(c: char) {
    c == ' ' || 0x09 <= c as int <= 0x0D
  }

  predicate IsQuote(c: char) {
    c == '"' || c == '\''
  }

  predicate IsSeparator(c: char) {
    c == ':' || c == '='
  }

  predicate EndsValue(c: char) {
    IsSpace(c) || IsQuote(c) || c == '&' || c == ',' || c == ';' || c == '}' || c == ']' || c == ')'
    || c == '<' || c == '>' || c == '|'
  }

  const SENSITIVE: seq<string> :=
    ["token", "secret", "password", "api_key", "api-key", "apikey", "mpin", "totp", "bearer"]

  const AUTH: seq<string> := ["mpin", "totp", "otp", "pin"]

  predicate OccursAt(s: string, i: nat, needle: string) {
    i + |needle| <= |s| && forall j :: 0 <= j < |needle| ==> Lower(s[i + j]) == needle[j]
  }

  predicate ContainsAny(s: string, needles: seq<string>) {
    needles != [] && ((exists i :: 0 <= i <= |s| && OccursAt(s, i, needles[0])) || ContainsAny(s, needles[1..]))
  }

  predicate IsSensitive(key: string) {
    ContainsAny(key, SENSITIVE)
  }

  /** The text just before a position. */
  function Window(before: string): string {
    if |before| > 10 then before[|before| - 10..] else before
  }

  /** The needle stands in the window as a word of its own. */
  predicate WordAt(window: string, i: nat, needle: string) {
    && OccursAt(window, i, needle)
    && (i == 0 || !IsLetter(window[i - 1]))
    && (i + |needle| == |window| || !IsLetter(window[i + |needle|]))
  }

  predicate AuthContext(before: string) {
    var window := Window(before);
    exists d, i :: 0 <= d < |AUTH| && 0 <= i <= |window| && WordAt(window, i, AUTH[d])
  }

  predicate IsMixed(run: string) {
    (exists i :: 0 <= i < |run| && IsLetter(run[i])) && (exists i :: 0 <= i < |run| && IsDigit(run[i]))
  }

  predicate AllDigits(run: string) {
    forall i :: 0 <= i < |run| ==> IsDigit(run[i])
  }

  predicate IsOpaque(run: string) {
    |run| >= 20 && IsMixed(run)
  }

  /** A bare run that is redacted for itself or for what stands before it. */
  predicate IsRedacted(before: string, run: string) {
    IsOpaque(run) || (4 <= |run| <= 8 && AllDigits(run) && AuthContext(before))
  }

  // ---------------------------------------------------------------- scanning

  /** What a scan runs over. */
  datatype Class = Tokens | Spaces | Unquoted | Until(quote: char)

  predicate In(c: char, cl: Class) {
    match cl
    case Tokens => IsToken(c)
    case Spaces => IsSpace(c)
    case Unquoted => !EndsValue(c)
    case Until(q) => c != q
  }

  /** Where the run of the class that starts at `i` ends. */
  function Span(cl: Class, s: string, i: nat): (e: nat)
    requires i <= |s|
    ensures i <= e <= |s|
    ensures forall k :: i <= k < e ==> In(s[k], cl)
    ensures e < |s| ==> !In(s[e], cl)
    decreases |s| - i
  {
    if i < |s| && In(s[i], cl) then Span(cl, s, i + 1) else i
  }

  method SpanFrom(cl: Class, s: string, i: nat) returns (e: nat)
    requires i <= |s|
    ensures e == Span(cl, s, i)
  {
    e := i;
    while e < |s| && In(s[e], cl)
      invariant i <= e <= |s|
      invariant forall k :: i <= k < e ==> In(s[k], cl)
    {
      e := e + 1;
    }
    SpanIs(cl, s, i, e);
  }

  lemma SpanIs(cl: Class, s: string, i: nat, e: nat)
    requires i <= e <= |s| && (forall k :: i <= k < e ==> In(s[k], cl)) && (e < |s| ==> !In(s[e], cl))
    ensures Span(cl, s, i) == e
  {
  }

  /** Behind the separator of a key that ends at `k`, if there is one. */
  function AfterSeparator(s: string, k: nat): (c: Option<nat>)
    requires k <= |s|
    ensures c.Some? ==> k < c.value <= |s|
  {
    var c1 := if k < |s| && IsQuote(s[k]) then k + 1 else k;
    var c2 := Span(Spaces, s, c1);
    if c2 < |s| && IsSeparator(s[c2]) then Some(Span(Spaces, s, c2 + 1)) else None
  }

  /** A sensitive pair at the front: how much of it is kept, and where its value ends. */
  datatype Pair = Pair(keep: nat, end: nat)

  function KeyValue(s: string): (p: Option<Pair>)
    ensures p.Some? ==> 0 < p.value.keep <= p.value.end <= |s|
  {
    var k := Span(Tokens, s, 0);
    if k == 0 || !IsSensitive(s[..k]) then None
    else
      match AfterSeparator(s, k)
      case None => None
      case Some(c) =>
        if c < |s| && IsQuote(s[c]) then Some(Pair(c + 1, Span(Until(s[c]), s, c + 1)))
        else Some(Pair(c, Span(Unquoted, s, c)))
  }

  /** The parts of a pair: the key ends at `k`, what separates it from its value at `c`. */
  predicate PairAt(s: string, k: nat, c: nat, p: Pair) {
    && 0 < k < c <= |s|
    && Span(Tokens, s, 0) == k && IsSensitive(s[..k]) && AfterSeparator(s, k) == Some(c)
    && ValueAt(s, c, p)
  }

  /** The value behind a separator that ends at `c`. */
  predicate ValueAt(s: string, c: nat, p: Pair) {
    && c <= |s| && p.keep <= p.end <= |s|
    && (c < |s| ==> !IsSpace(s[c]))
    && (if c < |s| && IsQuote(s[c]) then p.keep == c + 1 && p.end == Span(Until(s[c]), s, c + 1)
        else p.keep == c && p.end == Span(Unquoted, s, c))
  }

  lemma PairIs(s: string, k: nat, c: nat, p: Pair)
    requires PairAt(s, k, c, p)
    ensures KeyValue(s) == Some(p)
  {
  }

  lemma PairParts(s: string) returns (k: nat, c: nat)
    requires KeyValue(s).Some?
    ensures PairAt(s, k, c, KeyValue(s).value)
    ensures k == Span(Tokens, s, 0)
  {
    k := Span(Tokens, s, 0);
    c := AfterSeparator(s, k).value;
  }

  /** Scrubbing of the rest `s` of a text, behind `before`. */
  function ScrubFrom(before: string, s: string): string
    decreases |s|
  {
    if s == "" then ""
    else if !IsToken(s[0]) then [s[0]] + ScrubFrom(before + [s[0]], s[1..])
    else
      match KeyValue(s)
      case Some(p) =>
        s[..p.keep] + (if p.end > p.keep then MARKER else "") + ScrubFrom(before + s[..p.end], s[p.end..])
      case None =>
        var k := Span(Tokens, s, 0);
        (if IsRedacted(before, s[..k]) then MARKER else s[..k]) + ScrubFrom(before + s[..k], s[k..])
  }

  function Scrubbed(text: string): string {
    ScrubFrom("", text)
  }

  /** The scan never stops inside a token run. */
  lemma StopsBetweenRuns(s: string)
    requires s != "" && IsToken(s[0])
    ensures var k := Span(Tokens, s, 0); k > 0 && (k < |s| ==> !IsToken(s[k]))
    ensures KeyValue(s).Some? ==> var e := KeyValue(s).value.end; e < |s| ==> !IsToken(s[e])
  {
    if KeyValue(s).Some? {
      var k, c := PairParts(s);
      ValueEnds(s, c, KeyValue(s).value);
    }
  }

  lemma ValueEnds(s: string, c: nat, p: Pair)
    requires ValueAt(s, c, p)
    ensures p.end < |s| ==> !IsToken(s[p.end])
    ensures p.end == p.keep && p.end < |s| ==> !IsSpace(s[p.end]) || IsQuote(s[c])
  {
  }

  /** `out` is what the scan has written when it stands at `i`. */
  ghost predicate WrittenAt(text: string, i: nat, out: string) {
    i <= |text| && out + ScrubFrom(text[..i], text[i..]) == Scrubbed(text)
  }

  /** The next `size` characters are written as `piece`. */
  ghost predicate Takes(text: string, i: nat, size: nat, piece: string) {
    i + size <= |text| && ScrubFrom(text[..i], text[i..]) == piece + ScrubFrom(text[..i + size], text[i + size..])
  }

  lemma WrittenStep(text: string, i: nat, size: nat, out: string, piece: string)
    requires WrittenAt(text, i, out) && Takes(text, i, size, piece)
    ensures WrittenAt(text, i + size, out + piece)
  {
    S.Regroup(out, piece, ScrubFrom(text[..i + size], text[i + size..]));
  }

  lemma WrittenEnds(text: string, out: string)
    ensures out == "" ==> WrittenAt(text, 0, out)
    ensures WrittenAt(text, |text|, out) ==> out == Scrubbed(text)
  {
    assert text[..0] == "" && text[0..] == text && text[|text|..] == "";
    assert "" + Scrubbed(text) == Scrubbed(text) && out + "" == out;
  }

  /** The loop of the source. */
  method Scrub(text: string) returns (out: string)
    ensures out == Scrubbed(text)
  {
    out := "";
    var i := 0;
    WrittenEnds(text, out);
    while i < |text|
      invariant 0 <= i <= |text|
      invariant WrittenAt(text, i, out)
      invariant 0 < i < |text| && IsToken(text[i]) ==> !IsToken(text[i - 1])
    {
      i, out := WriteNext(text, i, out);
    }
    WrittenEnds(text, out);
  }

  /** One round of the loop: a run with what belongs to it, or one other character. */
  method WriteNext(text: string, i: nat, out: string) returns (next: nat, out': string)
    requires i < |text| && WrittenAt(text, i, out)
    requires 0 < i && IsToken(text[i]) ==> !IsToken(text[i - 1])
    ensures i < next <= |text| && WrittenAt(text, next, out')
    ensures next < |text| && IsToken(text[next]) ==> !IsToken(text[next - 1])
  {
    var piece, size := [text[i]], 1;
    if IsToken(text[i]) && (i == 0 || !IsToken(text[i - 1])) {
      piece, size := TakeRun(text, i);
    } else {
      CopyOne(text, i);
    }
    WrittenStep(text, i, size, out, piece);
    return i + size, out + piece;
  }

  lemma CopyOne(text: string, i: nat)
    requires i < |text| && !IsToken(text[i])
    ensures Takes(text, i, 1, [text[i]])
  {
    assert text[i..][1..] == text[i + 1..] && text[..i] + [text[i]] == text[..i + 1];
  }

  lemma TakesRest(text: string, i: nat, size: nat, piece: string)
    requires i + size <= |text|
    requires ScrubFrom(text[..i], text[i..])
      == piece + ScrubFrom(text[..i] + text[i..][..size], text[i..][size..])
    ensures Takes(text, i, size, piece)
  {
    assert text[i..][size..] == text[i + size..] && text[..i] + text[i..][..size] == text[..i + size];
  }

  /** One token run, with its value if it is a sensitive key: what is written for how much text. */
  method TakeRun(text: string, i: nat) returns (piece: string, size: nat)
    requires i < |text| && IsToken(text[i])
    ensures 0 < size && i + size <= |text|
    ensures i + size < |text| ==> !IsToken(text[i + size])
    ensures Takes(text, i, size, piece)
  {
    var s := text[i..];
    StopsBetweenRuns(s);
    var pair := TryKeyValue(s);
    if pair.Some? {
      size := pair.value.end;
      piece := s[..pair.value.keep] + (if pair.value.end > pair.value.keep then MARKER else "");
      TakesRest(text, i, size, piece);
      return;
    }
    size := SpanFrom(Tokens, s, 0);
    var run := s[..size];
    if |run| >= 20 && IsMixed(run) {
      piece := MARKER;
    } else if 4 <= |run| <= 8 && AllDigits(run) && AuthContext(text[..i]) {
      piece := MARKER;
    } else {
      piece := run;
    }
    TakesRest(text, i, size, piece);
  }

  method TryKeyValue(s: string) returns (p: Option<Pair>)
    ensures p == KeyValue(s)
  {
    var k := SpanFrom(Tokens, s, 0);
    if k == 0 || !IsSensitive(s[..k]) {
      return None;
    }
    var c := SkipSeparator(s, k);
    if c.None? {
      return None;
    }
    var cur := c.value;
    if cur < |s| && IsQuote(s[cur]) {
      var end := SpanFrom(Until(s[cur]), s, cur + 1);
      return Some(Pair(cur + 1, end));
    }
    var end := SpanFrom(Unquoted, s, cur);
    return Some(Pair(cur, end));
  }

  method SkipSeparator(s: string, k: nat) returns (c: Option<nat>)
    requires k <= |s|
    ensures c == AfterSeparator(s, k)
  {
    var cur := k;
    if cur < |s| && IsQuote(s[cur]) {
      cur := cur + 1;
    }
    cur := SpanFrom(Spaces, s, cur);
    if cur >= |s| || !IsSeparator(s[cur]) {
      return None;
    }
    cur := SpanFrom(Spaces, s, cur + 1);
    return Some(cur);
  }

  // ---------------------------------------------------------------- what the output starts with

  /** The output starts as the text does, unless a run is redacted at once. */
  lemma OutputStarts(before: string, s: string)
    ensures var out := ScrubFrom(before, s);
      if s == "" then out == ""
      else out != "" && (if IsToken(s[0]) then IsToken(out[0]) || out[0] == '*' else out[0] == s[0])
  {
    if s != "" && IsToken(s[0]) {
      StopsBetweenRuns(s);
    }
  }

  /** Characters outside token runs are copied. */
  lemma {:induction false} LeadingCopied(before: string, s: string, m: nat)
    requires m <= |s| && forall k :: 0 <= k < m ==> !IsToken(s[k])
    ensures ScrubFrom(before, s) == s[..m] + ScrubFrom(before + s[..m], s[m..])
    decreases m
  {
    if m == 0 {
      assert s[..0] == "" && s[0..] == s && before + "" == before;
    } else {
      LeadingCopied(before + [s[0]], s[1..], m - 1);
      LeadingParts(before, s, m, ScrubFrom(before + s[..m], s[m..]));
    }
  }

  lemma LeadingParts(before: string, s: string, m: nat, r: string)
    requires 0 < m <= |s|
    ensures s[1..][m - 1..] == s[m..] && before + [s[0]] + s[1..][..m - 1] == before + s[..m]
    ensures [s[0]] + (s[1..][..m - 1] + r) == s[..m] + r
  {
    assert [s[0]] + s[1..][..m - 1] == s[..m];
  }

  // ---------------------------------------------------------------- the second pass sees the same pairs

  predicate IsPlain(c: char) {
    !IsSpace(c) && !IsQuote(c) && !IsSeparator(c)
  }

  /** At `b` the text ends, or goes on with something that cannot be part of a separator. */
  predicate Stops(s: string, b: nat) {
    b == |s| || (b < |s| && IsPlain(s[b]))
  }

  /** Two texts that agree up to such a place agree on whether a separator follows a key. */
  lemma SameSeparator(s: string, t: string, k: nat, b: nat)
    requires k <= b <= |s| && b <= |t| && s[..b] == t[..b] && Stops(s, b) && Stops(t, b)
    ensures AfterSeparator(s, k).Some? <==> AfterSeparator(t, k).Some?
  {
    assert forall i :: 0 <= i < b ==> s[i] == t[i];
    var c1 := if k < |s| && IsQuote(s[k]) then k + 1 else k;
    assert c1 == if k < |t| && IsQuote(t[k]) then k + 1 else k;
    var c2 := Span(Spaces, s, c1);
    assert c2 <= b;
    SpanIs(Spaces, t, c1, c2);
  }

  /** Behind a run, text and output agree up to the next token run of the text. */
  lemma AgreeBehindRun(s: string, k: nat, before: string, out: string) returns (b: nat)
    requires k <= |s| && out == s[..k] + ScrubFrom(before, s[k..])
    ensures k <= b <= |s| && b <= |out| && s[..b] == out[..b] && Stops(s, b) && Stops(out, b)
  {
    var m, tail := SplitOutput(before, s[k..]);
    b := AgreeAt(s, k, m, tail, out);
  }

  lemma AgreeAt(s: string, k: nat, m: nat, tail: string, out: string) returns (b: nat)
    requires k <= |s| && m <= |s[k..]| && out == s[..k] + (s[k..][..m] + tail)
    requires if m == |s[k..]| then tail == ""
             else IsToken(s[k..][m]) && tail != "" && (IsToken(tail[0]) || tail[0] == '*')
    ensures k <= b <= |s| && b <= |out| && s[..b] == out[..b] && Stops(s, b) && Stops(out, b)
  {
    b := k + m;
    assert b < |s| ==> s[k..][m] == s[b];
    JoinAt(s, k, m, tail, out);
  }

  /** The output up to the first token run of the text, and what follows. */
  lemma SplitOutput(before: string, rest: string) returns (m: nat, tail: string)
    ensures m <= |rest| && ScrubFrom(before, rest) == rest[..m] + tail
    ensures if m == |rest| then tail == "" else IsToken(rest[m]) && tail != "" && (IsToken(tail[0]) || tail[0] == '*')
  {
    m := NonTokens(rest);
    LeadingCopied(before, rest, m);
    OutputStarts(before + rest[..m], rest[m..]);
    tail := ScrubFrom(before + rest[..m], rest[m..]);
  }

  lemma JoinAt(s: string, k: nat, m: nat, tail: string, out: string)
    requires k + m <= |s| && out == s[..k] + (s[k..][..m] + tail)
    requires k + m < |s| ==> IsToken(s[k + m])
    requires if k + m == |s| then tail == "" else tail != "" && (IsToken(tail[0]) || tail[0] == '*')
    ensures k + m <= |out| && s[..k + m] == out[..k + m] && Stops(s, k + m) && Stops(out, k + m)
  {
    assert out[..k + m] == s[..k] + s[k..][..m] == s[..k + m];
    assert out[k + m..] == tail;
    assert k + m < |out| ==> out[k + m] == tail[0];
  }

  /** A run that is no key of a pair is none in the output either. */
  lemma NoPairAgain(s: string, k: nat, before: string)
    requires s != "" && IsToken(s[0]) && k == Span(Tokens, s, 0) && KeyValue(s).None?
    ensures Span(Tokens, s[..k] + ScrubFrom(before, s[k..]), 0) == k
    ensures KeyValue(s[..k] + ScrubFrom(before, s[k..])).None?
  {
    var out := s[..k] + ScrubFrom(before, s[k..]);
    OutputStarts(before, s[k..]);
    assert out[k..] == ScrubFrom(before, s[k..]);
    SpanIs(Tokens, out, 0, k);
    assert out[..k] == s[..k];
    if IsSensitive(s[..k]) {
      var b := AgreeBehindRun(s, k, before, out);
      SameSeparator(s, out, k, b);
    }
  }

  /** The length of the leading part without token characters. */
  function NonTokens(s: string): (m: nat)
    ensures m <= |s| && (forall k :: 0 <= k < m ==> !IsToken(s[k])) && (m < |s| ==> IsToken(s[m]))
  {
    if s == "" || IsToken(s[0]) then 0 else 1 + NonTokens(s[1..])
  }

  /** The output of a pair: what is kept, `n` characters of the marker, and what follows. */
  ghost predicate PairOutput(s: string, out: string, p: Pair, n: nat) {
    && p.keep <= p.end <= |s| && p.keep + n <= |out|
    && n == (if p.end > p.keep then |MARKER| else 0)
    && (forall i :: 0 <= i < p.keep ==> out[i] == s[i])
    && (forall i :: p.keep <= i < p.keep + n ==> out[i] == MARKER[i - p.keep])
    && (p.keep + n == |out| <==> p.end == |s|)
    && (p.keep + n < |out| && p.end < |s| ==> out[p.keep + n] == s[p.end])
  }

  /** What stands between key and value is read in the same way. */
  lemma SeparatorAgain(s: string, out: string, k: nat, c: nat)
    requires k < c <= |s| && c <= |out| && AfterSeparator(s, k) == Some(c)
    requires forall i :: 0 <= i < c ==> out[i] == s[i]
    requires c < |out| ==> !IsSpace(out[c])
    ensures AfterSeparator(out, k) == Some(c)
  {
    var c1 := if k < |s| && IsQuote(s[k]) then k + 1 else k;
    var c2 := Span(Spaces, s, c1);
    SpanIs(Spaces, out, c1, c2);
    SpanIs(Spaces, out, c2 + 1, c);
  }

  lemma KeyAgain(s: string, out: string, k: nat)
    requires k < |s| && k < |out| && Span(Tokens, s, 0) == k
    requires forall i :: 0 <= i <= k ==> out[i] == s[i]
    ensures Span(Tokens, out, 0) == k && out[..k] == s[..k]
  {
    SpanIs(Tokens, out, 0, k);
  }

  lemma MarkerChars()
    ensures |MARKER| == 14
    ensures forall i :: 0 <= i < 14 ==> !EndsValue(MARKER[i]) && (3 <= i < 11 <==> IsToken(MARKER[i]))
    ensures MARKER[0] == '*' && MARKER[13] == '*'
  {
    assert MARKER[..7] == "***REDA" && MARKER[7..] == "CTED***";
  }

  lemma PairOutputAgain(s: string, out: string, k: nat, c: nat, p: Pair, n: nat)
    requires PairAt(s, k, c, p) && PairOutput(s, out, p, n)
    ensures PairAt(out, k, c, Pair(p.keep, p.keep + n))
  {
    assert k < p.keep;
    KeyAgain(s, out, k);
    ValueAgain(s, out, c, p, n);
    SeparatorAgain(s, out, k, c);
  }

  lemma ValueAgain(s: string, out: string, c: nat, p: Pair, n: nat)
    requires ValueAt(s, c, p) && PairOutput(s, out, p, n)
    ensures ValueAt(out, c, Pair(p.keep, p.keep + n))
  {
    ValueEnds(s, c, p);
    if c < |s| && IsQuote(s[c]) {
      assert out[c] == s[c];
      QuotedAgain(out, c, n, s[c]);
    } else {
      UnquotedAgain(out, c, n);
    }
  }

  lemma QuotedAgain(out: string, c: nat, n: nat, q: char)
    requires IsQuote(q) && n <= |MARKER| && c + 1 + n <= |out|
    requires forall i :: c + 1 <= i < c + 1 + n ==> out[i] == MARKER[i - (c + 1)]
    requires c + 1 + n < |out| ==> out[c + 1 + n] == q
    ensures Span(Until(q), out, c + 1) == c + 1 + n
  {
    MarkerChars();
    SpanIs(Until(q), out, c + 1, c + 1 + n);
  }

  lemma UnquotedAgain(out: string, c: nat, n: nat)
    requires n <= |MARKER| && c + n <= |out|
    requires forall i :: c <= i < c + n ==> out[i] == MARKER[i - c]
    requires c + n < |out| ==> EndsValue(out[c + n])
    ensures Span(Unquoted, out, c) == c + n
    ensures n > 0 ==> out[c] == '*'
  {
    MarkerChars();
    SpanIs(Unquoted, out, c, c + n);
  }

  /** What is written behind a pair starts as the text does behind it. */
  predicate Resumes(s: string, end: nat, rest: string)
    requires end <= |s|
  {
    if end == |s| then rest == "" else rest != "" && rest[0] == s[end]
  }

  /** A sensitive pair is found again, with the marker for its value. */
  lemma PairAgain(s: string, p: Pair, value: string, rest: string, kept: string, out: string)
    requires s != "" && IsToken(s[0]) && KeyValue(s) == Some(p)
    requires value == if p.end > p.keep then MARKER else ""
    requires Resumes(s, p.end, rest)
    requires kept == s[..p.keep] && out == kept + value + rest
    ensures kept != "" && IsToken(kept[0])
    ensures KeyValue(out) == Some(Pair(|kept|, |kept| + |value|))
  {
    OutputOfPair(s, p, value, rest, out);
    KeyValueAgain(s, p, |value|, out, |kept|);
  }

  lemma KeyValueAgain(s: string, p: Pair, n: nat, out: string, keep: nat)
    requires KeyValue(s) == Some(p) && PairOutput(s, out, p, n) && keep == p.keep
    ensures KeyValue(out) == Some(Pair(keep, keep + n))
  {
    var k, c := PairParts(s);
    FoundAgain(s, out, k, c, p, n);
  }

  lemma RestBehindPair(s: string, p: Pair, rest: string, before: string)
    requires s != "" && IsToken(s[0]) && KeyValue(s) == Some(p) && rest == ScrubFrom(before, s[p.end..])
    ensures Resumes(s, p.end, rest)
  {
    StopsBetweenRuns(s);
    OutputStarts(before, s[p.end..]);
  }

  lemma FoundAgain(s: string, out: string, k: nat, c: nat, p: Pair, n: nat)
    requires PairAt(s, k, c, p) && PairOutput(s, out, p, n)
    ensures KeyValue(out) == Some(Pair(p.keep, p.keep + n))
  {
    PairOutputAgain(s, out, k, c, p, n);
    PairIs(out, k, c, Pair(p.keep, p.keep + n));
  }

  lemma OutputOfPair(s: string, p: Pair, value: string, rest: string, out: string)
    requires p.keep <= p.end <= |s| && value == if p.end > p.keep then MARKER else ""
    requires Resumes(s, p.end, rest)
    requires out == s[..p.keep] + value + rest
    ensures PairOutput(s, out, p, |value|)
  {
    ThreePieces(s[..p.keep], value, rest);
  }

  lemma ThreePieces(a: string, b: string, c: string)
    ensures var out := a + b + c;
      && (forall i :: 0 <= i < |a| ==> out[i] == a[i])
      && (forall i :: |a| <= i < |a| + |b| ==> out[i] == b[i - |a|])
      && (c != "" ==> out[|a| + |b|] == c[0])
  {
  }

  // ---------------------------------------------------------------- the second pass sees the same context

  lemma CannotOccur(s: string, needle: string, c: nat)
    requires c < |needle| && forall q :: 0 <= q < |s| ==> Lower(s[q]) != needle[c]
    ensures forall i :: 0 <= i <= |s| ==> !OccursAt(s, i, needle)
  {
    forall i | 0 <= i <= |s|
      ensures !OccursAt(s, i, needle)
    {
      assert i + |needle| <= |s| ==> Lower(s[i + c]) != needle[c];
    }
  }

  /** None of the letters that every needle needs one of occurs in the marker. */
  predicate Harmless(s: string) {
    forall q :: 0 <= q < |s| ==> Lower(s[q]) !in "ospmb"
  }

  lemma MarkerIsHarmless()
    ensures Harmless(MARKER)
  {
    assert MARKER == "***REDA" + "CTED***";
    BothHarmless("***REDA", "CTED***");
  }

  lemma BothHarmless(a: string, b: string)
    requires Harmless(a) && Harmless(b)
    ensures Harmless(a + b)
  {
  }

  lemma HarmlessIsNotSensitive(s: string)
    requires Harmless(s)
    ensures !IsSensitive(s)
  {
    CannotOccur(s, SENSITIVE[0], 1);
    CannotOccur(s, SENSITIVE[1], 0);
    CannotOccur(s, SENSITIVE[2], 0);
    CannotOccur(s, SENSITIVE[3], 1);
    CannotOccur(s, SENSITIVE[4], 1);
    CannotOccur(s, SENSITIVE[5], 1);
    CannotOccur(s, SENSITIVE[6], 0);
    CannotOccur(s, SENSITIVE[7], 1);
    CannotOccur(s, SENSITIVE[8], 0);
    ContainsNone(s, SENSITIVE);
  }

  lemma {:induction false} ContainsNone(s: string, needles: seq<string>)
    requires forall d, i :: 0 <= d < |needles| && 0 <= i <= |s| ==> !OccursAt(s, i, needles[d])
    ensures !ContainsAny(s, needles)
  {
    if needles != [] {
      ContainsNone(s, needles[1..]);
    }
  }

  /** Every auth keyword is made of lower-case letters and has one that the marker lacks. */
  lemma AuthNeedles(d: nat) returns (c: nat)
    requires d < |AUTH|
    ensures c < |AUTH[d]| && AUTH[d][c] in "ospmb"
    ensures forall j :: 0 <= j < |AUTH[d]| ==> 'a' <= AUTH[d][j] <= 'z'
  {
    if d == 0 {
      assert AUTH[d] == "mpin";
      c := 0;
    } else if d == 1 {
      assert AUTH[d] == "totp";
      c := 1;
    } else if d == 2 {
      assert AUTH[d] == "otp";
      c := 0;
    } else {
      assert AUTH[d] == "pin";
      c := 0;
    }
  }

  /** How the contexts of the two passes differ: not at all, or up to a marker, behind which both
      go on in the same way and not with a letter. */
  datatype Drift = Same | Marked(y0: string, x0: string, w: string)

  predicate Alike(y: string, x: string, m: Drift) {
    match m
    case Same => x == y
    case Marked(y0, x0, w) => y == y0 + w && x == x0 + MARKER + w && (w == "" || !IsLetter(w[0]))
  }

  function Further(m: Drift, t: string): Drift {
    match m
    case Same => Same
    case Marked(y0, x0, w) => Marked(y0, x0, w + t)
  }

  lemma AlikeFurther(y: string, x: string, m: Drift, t: string)
    requires Alike(y, x, m)
    requires m.Marked? && m.w == "" && t != "" ==> !IsLetter(t[0])
    ensures Alike(y + t, x + t, Further(m, t))
  {
    if m.Marked? {
      assert m.y0 + m.w + t == m.y0 + (m.w + t);
      assert m.x0 + MARKER + m.w + t == m.x0 + MARKER + (m.w + t);
    }
  }

  lemma AlikeBehindMarker(y: string, x: string, t: string, u: string)
    ensures Alike(y + t, x + u + MARKER, Marked(y + t, x + u, ""))
  {
    assert y + t + "" == y + t && x + u + MARKER + "" == x + u + MARKER;
  }

  /** A window that reaches into the marker holds no keyword there. */
  lemma WordBehindMarker(window: string, b: nat, i: nat, needle: string, c: nat)
    requires 0 < b <= |window| && window[b - 1] == '*'
    requires forall q :: 0 <= q < b ==> Lower(window[q]) !in "ospmb"
    requires b < |window| ==> !IsLetter(window[b])
    requires c < |needle| && needle[c] in "ospmb" && forall j :: 0 <= j < |needle| ==> 'a' <= needle[j] <= 'z'
    requires OccursAt(window, i, needle)
    ensures i > b
  {
    forall q | i <= q < i + |needle|
      ensures IsLetter(window[q]) && Lower(window[q]) == needle[q - i]
    {
      assert Lower(window[i + (q - i)]) == needle[q - i];
    }
  }

  lemma WindowEndsWith(x: string, w: string)
    requires |w| <= |x| && x[|x| - |w|..] == w
    ensures if |w| >= 10 then Window(x) == Window(w)
            else |Window(x)| >= |w| && Window(x)[|Window(x)| - |w|..] == w
  {
  }

  /** What stands before a run in the output sets no auth context that the text does not. */
  lemma ContextAgain(y: string, x: string, m: Drift)
    requires Alike(y, x, m) && AuthContext(x)
    ensures AuthContext(y)
  {
    if m.Marked? {
      assert x[|x| - |m.w|..] == m.w && y[|y| - |m.w|..] == m.w;
      WindowEndsWith(x, m.w);
      WindowEndsWith(y, m.w);
      if |m.w| < 10 {
        var d, i := ContextWord(x);
        ShortContextAgain(y, x, m, d, i);
      }
    }
  }

  lemma ContextWord(x: string) returns (d: nat, i: nat)
    requires AuthContext(x)
    ensures d < |AUTH| && i <= |Window(x)| && WordAt(Window(x), i, AUTH[d])
  {
    d, i :| 0 <= d < |AUTH| && 0 <= i <= |Window(x)| && WordAt(Window(x), i, AUTH[d]);
  }

  lemma MarkerTail(x: string, m: Drift)
    requires m.Marked? && x == m.x0 + MARKER + m.w && |m.w| < 10
    ensures |Window(x)| == 10
    ensures var b := 10 - |m.w|;
      Window(x)[b..] == m.w && Window(x)[b - 1] == '*' && forall q :: 0 <= q < b ==> Lower(Window(x)[q]) !in "ospmb"
  {
    MarkerIsHarmless();
    MarkerChars();
    var b := 10 - |m.w|;
    assert |x| == |m.x0| + 14 + |m.w|;
    assert forall q :: 0 <= q < b ==> Window(x)[q] == MARKER[14 - b + q];
  }

  lemma ShortContextAgain(y: string, x: string, m: Drift, d: nat, i: nat)
    requires Alike(y, x, m) && m.Marked? && |m.w| < 10
    requires d < |AUTH| && i <= |Window(x)| && WordAt(Window(x), i, AUTH[d])
    requires |Window(y)| >= |m.w| && Window(y)[|Window(y)| - |m.w|..] == m.w
    ensures AuthContext(y)
  {
    var wx, wy := Window(x), Window(y);
    var b := 10 - |m.w|;
    MarkerTail(x, m);
    var c := AuthNeedles(d);
    assert b < 10 ==> wx[b] == m.w[0];
    WordBehindMarker(wx, b, i, AUTH[d], c);
    ShiftedWord(wx, b, wy, |wy| - |m.w|, i, AUTH[d]);
  }

  /** Two windows that end alike hold the same words behind the first character of what they share. */
  lemma ShiftedWord(wx: string, b: nat, wy: string, c: nat, i: nat, needle: string)
    requires b <= |wx| && c <= |wy| && wx[b..] == wy[c..] && b < i && WordAt(wx, i, needle)
    ensures WordAt(wy, i - b + c, needle)
  {
    assert |wx| - b == |wy| - c;
    assert forall q :: b <= q < |wx| ==> wx[q] == wx[b..][q - b] && wy[q - b + c] == wy[c..][q - b];
    forall j | 0 <= j < |needle|
      ensures Lower(wy[i - b + c + j]) == needle[j]
    {
      assert wx[i + j] == wy[i + j - b + c];
    }
    assert wx[i - 1] == wy[i - 1 - b + c];
    assert i + |needle| < |wx| ==> wx[i + |needle|] == wy[i + |needle| - b + c];
  }

  // ---------------------------------------------------------------- scrubbing twice

  const STARS: string := "***"
  const WORD: string := "REDACTED"

  /** The marker passes unchanged. */
  lemma MarkerPasses(x: string, rest: string)
    ensures ScrubFrom(x, MARKER + rest) == MARKER + ScrubFrom(x + MARKER, rest)
  {
    var tail, r := STARS + rest, ScrubFrom(x + MARKER, rest);
    MarkerParts(x, rest, r);
    StarsPass(x, WORD + tail);
    WordPasses(x + STARS, tail);
    StarsPass(x + STARS + WORD, rest);
  }

  lemma MarkerParts(x: string, rest: string, r: string)
    ensures MARKER + rest == STARS + (WORD + (STARS + rest))
    ensures x + STARS + WORD + STARS == x + MARKER
    ensures STARS + (WORD + (STARS + r)) == MARKER + r
  {
    assert MARKER == STARS + WORD + STARS;
  }

  lemma StarsPass(x: string, rest: string)
    ensures ScrubFrom(x, STARS + rest) == STARS + ScrubFrom(x + STARS, rest)
  {
    var s := STARS + rest;
    assert s[..3] == STARS && s[3..] == rest;
    LeadingCopied(x, s, 3);
  }

  lemma WordPasses(x: string, tail: string)
    requires tail != "" && tail[0] == '*'
    ensures ScrubFrom(x, WORD + tail) == WORD + ScrubFrom(x + WORD, tail)
  {
    var s := WORD + tail;
    assert WORD == MARKER[3..11];
    MarkerChars();
    MarkerIsHarmless();
    assert forall k :: 0 <= k < 8 ==> s[k] == MARKER[3 + k];
    SpanIs(Tokens, s, 0, 8);
    assert s[..8] == WORD && s[8..] == tail;
    HarmlessIsNotSensitive(WORD);
    assert !IsDigit(WORD[0]);
  }

  /** Scrubbing what was scrubbed changes nothing, in any pair of contexts that are alike. */
  lemma {:induction false} ScrubAgain(y: string, x: string, m: Drift, s: string)
    requires Alike(y, x, m)
    requires m.Marked? && m.w == "" ==> s == "" || !IsToken(s[0])
    ensures ScrubFrom(x, ScrubFrom(y, s)) == ScrubFrom(y, s)
    decreases |s|
  {
    if s == "" {
    } else if !IsToken(s[0]) {
      var rest := ScrubFrom(y + [s[0]], s[1..]);
      AlikeFurther(y, x, m, [s[0]]);
      ScrubAgain(y + [s[0]], x + [s[0]], Further(m, [s[0]]), s[1..]);
      assert ([s[0]] + rest)[1..] == rest;
    } else {
      StopsBetweenRuns(s);
      if KeyValue(s).Some? {
        PairScrubbedAgain(y, x, m, s);
      } else {
        RunScrubbedAgain(y, x, m, s);
      }
    }
  }

  lemma {:induction false} PairScrubbedAgain(y: string, x: string, m: Drift, s: string)
    requires Alike(y, x, m) && s != "" && IsToken(s[0]) && KeyValue(s).Some?
    requires m.Marked? ==> m.w != ""
    ensures ScrubFrom(x, ScrubFrom(y, s)) == ScrubFrom(y, s)
    decreases |s|, 0
  {
    StopsBetweenRuns(s);
    var p := KeyValue(s).value;
    var kept, value := s[..p.keep], if p.end > p.keep then MARKER else "";
    var y', x' := y + s[..p.end], x + (kept + value);
    var m' := PairContext(y, x, m, s[..p.end], kept, value);
    var rest := ScrubFrom(y', s[p.end..]);
    ScrubAgain(y', x', m', s[p.end..]);
    ScrubOfPair(y, s, p, value, rest);
    RestBehindPair(s, p, rest, y');
    PairPasses(x, s, p, value, rest);
  }

  lemma PairPasses(x: string, s: string, p: Pair, value: string, rest: string)
    requires s != "" && IsToken(s[0]) && KeyValue(s) == Some(p)
    requires value == if p.end > p.keep then MARKER else ""
    requires Resumes(s, p.end, rest) && ScrubFrom(x + (s[..p.keep] + value), rest) == rest
    ensures ScrubFrom(x, s[..p.keep] + value + rest) == s[..p.keep] + value + rest
  {
    var kept := s[..p.keep];
    PairAgain(s, p, value, rest, kept, kept + value + rest);
    PairEmittedAgain(x, kept, value, rest);
  }

  lemma PairEmittedAgain(x: string, kept: string, value: string, rest: string)
    requires kept != "" && IsToken(kept[0]) && (value == "" || value == MARKER)
    requires KeyValue(kept + value + rest) == Some(Pair(|kept|, |kept| + |value|))
    requires ScrubFrom(x + (kept + value), rest) == rest
    ensures ScrubFrom(x, kept + value + rest) == kept + value + rest
  {
    PairEmitted(x, kept + value + rest, kept, value, rest);
  }

  lemma ScrubOfPair(y: string, s: string, p: Pair, value: string, rest: string)
    requires s != "" && IsToken(s[0]) && KeyValue(s) == Some(p)
    requires value == (if p.end > p.keep then MARKER else "") && rest == ScrubFrom(y + s[..p.end], s[p.end..])
    ensures ScrubFrom(y, s) == s[..p.keep] + value + rest
  {
  }

  /** The contexts behind a pair are alike again. */
  lemma PairContext(y: string, x: string, m: Drift, read: string, kept: string, value: string) returns (m': Drift)
    requires Alike(y, x, m) && (m.Marked? ==> m.w != "")
    requires if value == MARKER then true else value == "" && read == kept
    ensures Alike(y + read, x + (kept + value), m')
    ensures m'.Marked? && m'.w == "" ==> value == MARKER
  {
    if value == MARKER {
      AlikeBehindMarker(y, x, read, kept);
      assert x + kept + MARKER == x + (kept + value);
      m' := Marked(y + read, x + kept, "");
    } else {
      AlikeFurther(y, x, m, kept);
      assert kept + value == kept;
      m' := Further(m, kept);
    }
  }

  /** What the second pass makes of a pair it has found. */
  lemma PairEmitted(x: string, out: string, kept: string, value: string, rest: string)
    requires kept != "" && IsToken(kept[0]) && (value == "" || value == MARKER)
    requires out == kept + value + rest
    requires KeyValue(out) == Some(Pair(|kept|, |kept| + |value|))
    ensures ScrubFrom(x, out) == kept + value + ScrubFrom(x + (kept + value), rest)
  {
    MarkerChars();
    OutParts(out, kept, value, rest);
  }

  lemma OutParts(out: string, kept: string, value: string, rest: string)
    requires out == kept + value + rest
    ensures out[..|kept|] == kept && out[..|kept| + |value|] == kept + value && out[|kept| + |value|..] == rest
  {
  }

  lemma {:induction false} RunScrubbedAgain(y: string, x: string, m: Drift, s: string)
    requires Alike(y, x, m) && s != "" && IsToken(s[0]) && KeyValue(s).None?
    requires m.Marked? ==> m.w != ""
    ensures ScrubFrom(x, ScrubFrom(y, s)) == ScrubFrom(y, s)
    decreases |s|, 0
  {
    StopsBetweenRuns(s);
    var k := Span(Tokens, s, 0);
    var run, rest := s[..k], ScrubFrom(y + s[..k], s[k..]);
    if IsRedacted(y, run) {
      AlikeBehindMarker(y, x, run, "");
      assert x + "" == x;
      ScrubAgain(y + run, x + MARKER, Marked(y + run, x, ""), s[k..]);
      MarkerPasses(x, rest);
    } else {
      AlikeFurther(y, x, m, run);
      ScrubAgain(y + run, x + run, Further(m, run), s[k..]);
      NoPairAgain(s, k, y + run);
      if AuthContext(x) {
        ContextAgain(y, x, m);
      }
      assert (run + rest)[..k] == run && (run + rest)[k..] == rest;
    }
  }

  /** Scrubbing is idempotent. */
  lemma ScrubIsIdempotent(text: string)
    ensures Scrubbed(Scrubbed(text)) == Scrubbed(text)
  {
    ScrubAgain("", "", Same, text);
  }

  // ---------------------------------------------------------------- what is left in the output

  /** A token run that extends to neither side. */
  predicate IsRun(s: string, i: nat, j: nat) {
    && i < j <= |s| && (forall k :: i <= k < j ==> IsToken(s[k]))
    && (i == 0 || !IsToken(s[i - 1])) && (j == |s| || !IsToken(s[j]))
  }

  /** Every opaque run is the key of a sensitive pair. */
  ghost predicate IsClean(s: string) {
    forall i: nat, j: nat :: IsRun(s, i, j) && IsOpaque(s[i..j]) ==> KeyValue(s[i..]).Some?
  }

  /** A clean rest stays clean behind a piece whose own runs are harmless. */
  lemma CleanBehind(piece: string, rest: string)
    requires piece != "" && IsClean(rest)
    requires rest == "" || !IsToken(rest[0]) || !IsToken(piece[|piece| - 1])
    requires forall i: nat, j: nat :: IsRun(piece + rest, i, j) && i < |piece| && IsOpaque((piece + rest)[i..j]) ==>
      KeyValue((piece + rest)[i..]).Some?
    ensures IsClean(piece + rest)
  {
    var s := piece + rest;
    forall i: nat, j: nat | IsRun(s, i, j) && IsOpaque(s[i..j])
      ensures KeyValue(s[i..]).Some?
    {
      if i >= |piece| {
        var i', j' := i - |piece|, j - |piece|;
        assert s[i..] == rest[i'..] && s[i..j] == rest[i'..j'];
        RunBehind(piece, rest, i', j');
      }
    }
  }

  lemma RunBehind(piece: string, rest: string, i: nat, j: nat)
    requires IsRun(piece + rest, |piece| + i, |piece| + j)
    ensures IsRun(rest, i, j)
  {
    var s := piece + rest;
    assert forall k :: 0 <= k < |rest| ==> rest[k] == s[|piece| + k];
  }

  /** A piece that is one run, not opaque. */
  lemma CleanBehindRun(run: string, rest: string)
    requires run != "" && (forall k :: 0 <= k < |run| ==> IsToken(run[k])) && !IsOpaque(run)
    requires (rest == "" || !IsToken(rest[0])) && IsClean(rest)
    ensures IsClean(run + rest)
  {
    var s := run + rest;
    assert forall q :: 0 <= q < |run| ==> s[q] == run[q];
    assert |run| < |s| ==> s[|run|] == rest[0];
    forall i: nat, j: nat | IsRun(s, i, j) && i < |run|
      ensures !IsOpaque(s[i..j])
    {
      assert i == 0 && j == |run|;
      assert s[i..j] == run;
    }
    CleanBehind(run, rest);
  }

  /** A piece that is a key run with what separates it from its value, and perhaps the marker. */
  lemma CleanBehindPair(piece: string, rest: string, k: nat)
    requires 0 < k < |piece| && !IsToken(piece[|piece| - 1]) && IsClean(rest)
    requires forall q :: 0 <= q < k ==> IsToken(piece[q])
    requires !IsToken(piece[k])
    requires forall i: nat, j: nat :: IsRun(piece, i, j) && i > 0 ==> j - i < 20
    requires KeyValue(piece + rest).Some?
    ensures IsClean(piece + rest)
  {
    var s := piece + rest;
    forall i: nat, j: nat | IsRun(s, i, j) && i < |piece| && IsOpaque(s[i..j])
      ensures KeyValue(s[i..]).Some?
    {
      if i == 0 {
        assert s[0..] == s;
      } else {
        RunWithin(piece, rest, i, j);
      }
    }
    CleanBehind(piece, rest);
  }

  lemma RunWithin(piece: string, rest: string, i: nat, j: nat)
    requires i < |piece| && !IsToken(piece[|piece| - 1]) && IsRun(piece + rest, i, j)
    ensures IsRun(piece, i, j)
  {
    var s := piece + rest;
    assert forall q :: 0 <= q < |piece| ==> s[q] == piece[q];
    assert !IsToken(s[|piece| - 1]);
  }

  /** The runs of a pair's output behind its key are inside the marker. */
  lemma PairRunsAreShort(kept: string, value: string, k: nat)
    requires 0 < k < |kept| && (value == "" || value == MARKER)
    requires forall q :: k <= q < |kept| ==> !IsToken(kept[q])
    requires forall q :: 0 <= q < k ==> IsToken(kept[q])
    ensures forall i: nat, j: nat :: IsRun(kept + value, i, j) && i > 0 ==> j - i < 20
    ensures !IsToken((kept + value)[|kept + value| - 1])
  {
    MarkerChars();
    var s := kept + value;
    assert forall q :: 0 <= q < |kept| ==> s[q] == kept[q];
    assert forall q :: |kept| <= q < |s| ==> s[q] == value[q - |kept|];
    assert forall q :: 0 <= q < k ==> IsToken(s[q]);
    assert forall q :: k <= q < |kept| ==> !IsToken(s[q]);
    forall i: nat, j: nat | IsRun(s, i, j) && i > 0
      ensures j - i < 20
    {
      assert IsToken(s[i]);
      assert i >= |kept|;
      assert |s| == |kept| + 14;
    }
  }

  /** What separates a key from its value holds no token characters. */
  lemma NoTokensBetween(s: string, k: nat, c: nat, p: Pair)
    requires PairAt(s, k, c, p)
    ensures forall q :: k <= q < p.keep ==> !IsToken(s[q])
    ensures forall q :: 0 <= q < k ==> IsToken(s[q])
  {
    var c1 := if k < |s| && IsQuote(s[k]) then k + 1 else k;
    var c2 := Span(Spaces, s, c1);
    assert c == Span(Spaces, s, c2 + 1);
  }

  /** The piece a pair is written as: a key run, and no long run behind it. */
  lemma PairPiece(s: string, p: Pair, value: string, piece: string) returns (k: nat)
    requires s != "" && IsToken(s[0]) && KeyValue(s) == Some(p) && (value == "" || value == MARKER)
    requires piece == s[..p.keep] + value
    ensures
      && 0 < k < |piece| && !IsToken(piece[|piece| - 1]) && !IsToken(piece[k])
      && (forall q :: 0 <= q < k ==> IsToken(piece[q]))
      && (forall i: nat, j: nat :: IsRun(piece, i, j) && i > 0 ==> j - i < 20)
  {
    var c;
    k, c := PairParts(s);
    NoTokensBetween(s, k, c, p);
    PairRunsAreShort(s[..p.keep], value, k);
  }

  lemma CleanPair(before: string, s: string)
    requires s != "" && IsToken(s[0]) && KeyValue(s).Some?
    requires var p := KeyValue(s).value; IsClean(ScrubFrom(before + s[..p.end], s[p.end..]))
    ensures IsClean(ScrubFrom(before, s))
  {
    var p := KeyValue(s).value;
    var value := if p.end > p.keep then MARKER else "";
    var rest := ScrubFrom(before + s[..p.end], s[p.end..]);
    RestBehindPair(s, p, rest, before + s[..p.end]);
    CleanPairOutput(s, p, value, rest);
    ScrubOfPair(before, s, p, value, rest);
  }

  lemma CleanPairOutput(s: string, p: Pair, value: string, rest: string)
    requires s != "" && IsToken(s[0]) && KeyValue(s) == Some(p)
    requires value == if p.end > p.keep then MARKER else ""
    requires Resumes(s, p.end, rest) && IsClean(rest)
    ensures IsClean(s[..p.keep] + value + rest)
  {
    var kept := s[..p.keep];
    var piece := kept + value;
    var k := PairPiece(s, p, value, piece);
    PairAgain(s, p, value, rest, kept, piece + rest);
    CleanBehindPair(piece, rest, k);
  }

  lemma CleanMarker(rest: string)
    requires IsClean(rest)
    ensures IsClean(MARKER + rest)
  {
    MarkerChars();
    var s := MARKER + rest;
    assert forall q :: 0 <= q < 14 ==> s[q] == MARKER[q] && (IsToken(s[q]) <==> 3 <= q < 11);
    assert !IsToken(s[11]);
    forall i: nat, j: nat | IsRun(s, i, j) && i < 14
      ensures j - i < 20
    {
      assert IsToken(s[i]);
    }
    CleanBehind(MARKER, rest);
  }

  lemma {:induction false} OutputIsCleanFrom(before: string, s: string)
    ensures IsClean(ScrubFrom(before, s))
    decreases |s|
  {
    if s == "" {
    } else if !IsToken(s[0]) {
      OutputIsCleanFrom(before + [s[0]], s[1..]);
      CleanBehind([s[0]], ScrubFrom(before + [s[0]], s[1..]));
    } else {
      StopsBetweenRuns(s);
      match KeyValue(s)
      case Some(p) =>
        OutputIsCleanFrom(before + s[..p.end], s[p.end..]);
        CleanPair(before, s);
      case None =>
        var k := Span(Tokens, s, 0);
        OutputIsCleanFrom(before + s[..k], s[k..]);
        OutputStarts(before + s[..k], s[k..]);
        var rest := ScrubFrom(before + s[..k], s[k..]);
        if IsRedacted(before, s[..k]) {
          CleanMarker(rest);
        } else {
          CleanBehindRun(s[..k], rest);
        }
    }
  }

  /** No opaque credential is left: in the output every token run of twenty characters or more that
      mixes letters and digits is the key of a sensitive pair. */
  lemma OutputIsClean(text: string)
    ensures IsClean(Scrubbed(text))
  {
    OutputIsCleanFrom("", text);
  }
}
