/** What scrubbing does, in terms of the secrets of the text and of the output. */
module SecretsHidden {
  import opened Options
  import opened Redaction
  import opened Secrets
  import C = Characters

  // ---------------------------------------------------------------- the rules of the code are the documented ones

  lemma SameCharacters(c: char)
    ensures InKey(c) <==> IsToken(c)
    ensures Blank(c) <==> IsSpace(c)
    ensures Quotes(c) <==> IsQuote(c)
    ensures Delimits(c) <==> EndsValue(c)
    ensures Letter(c) <==> C.IsLetter(c)
    ensures Digit(c) <==> C.IsDigit(c)
  {
  }

  /** No keyword has capitals. */
  predicate LowerCase(word: string) {
    forall j :: 0 <= j < |word| ==> !('A' <= word[j] <= 'Z')
  }

  lemma SpellsIff(s: string, i: nat, word: string)
    requires LowerCase(word)
    ensures Spells(s, i, word) <==> OccursAt(s, i, word)
  {
    if i + |word| <= |s| {
      forall j | 0 <= j < |word|
        ensures SameLetter(s[i + j], word[j]) <==> Lower(s[i + j]) == word[j]
      {
        SameLetterIff(s[i + j], word[j]);
      }
    }
  }

  lemma SameLetterIff(c: char, w: char)
    requires !('A' <= w <= 'Z')
    ensures SameLetter(c, w) <==> Lower(c) == w
  {
  }

  lemma Keywords()
    ensures |SENSITIVE| == 9 && SENSITIVE[0] == "token" && SENSITIVE[1] == "secret" && SENSITIVE[2] == "password"
    ensures SENSITIVE[3] == "api_key" && SENSITIVE[4] == "api-key" && SENSITIVE[5] == "apikey"
    ensures SENSITIVE[6] == "mpin" && SENSITIVE[7] == "totp" && SENSITIVE[8] == "bearer"
    ensures |AUTH| == 4 && AUTH[0] == "mpin" && AUTH[1] == "totp" && AUTH[2] == "otp" && AUTH[3] == "pin"
  {
  }

  lemma KeywordIsLower(d: nat)
    requires d < |SENSITIVE|
    ensures LowerCase(SENSITIVE[d])
  {
    Keywords();
  }

  lemma {:induction false} FoundIn(s: string, needles: seq<string>, d: nat)
    requires d < |needles| && LowerCase(needles[d]) && HasWord(s, needles[d])
    ensures ContainsAny(s, needles)
  {
    if d == 0 {
      var i :| 0 <= i <= |s| && Spells(s, i, needles[0]);
      SpellsIff(s, i, needles[0]);
    } else {
      FoundIn(s, needles[1..], d - 1);
    }
  }

  lemma {:induction false} FoundWhich(s: string, needles: seq<string>) returns (d: nat)
    requires ContainsAny(s, needles) && forall d :: 0 <= d < |needles| ==> LowerCase(needles[d])
    ensures d < |needles| && HasWord(s, needles[d])
  {
    if i :| 0 <= i <= |s| && OccursAt(s, i, needles[0]) {
      SpellsIff(s, i, needles[0]);
      d := 0;
    } else {
      d := FoundWhich(s, needles[1..]);
      d := d + 1;
    }
  }

  /** A key is sensitive exactly if it contains one of the nine words, in any case. */
  lemma NamesSecretIff(key: string)
    ensures NamesSecret(key) <==> IsSensitive(key)
  {
    Keywords();
    forall d: nat | d < |SENSITIVE|
      ensures LowerCase(SENSITIVE[d])
      ensures HasWord(key, SENSITIVE[d]) ==> ContainsAny(key, SENSITIVE)
    {
      KeywordIsLower(d);
      if HasWord(key, SENSITIVE[d]) {
        FoundIn(key, SENSITIVE, d);
      }
    }
    assert HasWord(key, SENSITIVE[0]) || HasWord(key, SENSITIVE[1]) || HasWord(key, SENSITIVE[2])
      || HasWord(key, SENSITIVE[3]) || HasWord(key, SENSITIVE[4]) || HasWord(key, SENSITIVE[5])
      || HasWord(key, SENSITIVE[6]) || HasWord(key, SENSITIVE[7]) || HasWord(key, SENSITIVE[8])
      <==> NamesSecret(key);
    if IsSensitive(key) {
      var d := FoundWhich(key, SENSITIVE);
    }
  }

  lemma SpellsBehind(before: string, start: nat, i: nat, word: string)
    requires start <= |before|
    ensures Spells(before[start..], i, word) <==> Spells(before, start + i, word)
  {
    assert forall q :: 0 <= q < |before| - start ==> before[start..][q] == before[start + q];
  }

  lemma OwnWordIff(before: string, start: nat, i: nat, word: string)
    requires LowerCase(word) && start <= |before| && Window(before) == before[start..] && i <= |Window(before)|
    requires start == if |before| > 10 then |before| - 10 else 0
    ensures WordAt(Window(before), i, word) <==> OwnWordAt(before, start + i, word)
  {
    SpellsIff(before[start..], i, word);
    SpellsBehind(before, start, i, word);
  }

  lemma OwnWordInWindow(before: string, word: string)
    requires LowerCase(word)
    ensures HasOwnWord(before, word) <==> exists i :: 0 <= i <= |Window(before)| && WordAt(Window(before), i, word)
  {
    var start := if |before| > 10 then |before| - 10 else 0;
    assert before[0..] == before;
    if i :| 0 <= i <= |Window(before)| && WordAt(Window(before), i, word) {
      OwnWordIff(before, start, i, word);
    }
    if i :| 0 <= i <= |before| && OwnWordAt(before, i, word) {
      OwnWordIff(before, start, i - start, word);
    }
  }

  lemma NearAuthIff(before: string)
    ensures NearAuth(before) <==> AuthContext(before)
  {
    Keywords();
    forall d: nat | d < |AUTH|
      ensures HasOwnWord(before, AUTH[d]) <==>
        exists i :: 0 <= i <= |Window(before)| && WordAt(Window(before), i, AUTH[d])
    {
      OwnWordInWindow(before, AUTH[d]);
    }
    assert NearAuth(before) <==> HasOwnWord(before, AUTH[0]) || HasOwnWord(before, AUTH[1])
                                 || HasOwnWord(before, AUTH[2]) || HasOwnWord(before, AUTH[3]);
    if AuthContext(before) {
      var d, i := ContextWord(before);
    }
  }

  /** A bare run is redacted exactly if it is a credential. */
  lemma CredentialIff(before: string, run: string)
    ensures Credential(before, run) <==> IsRedacted(before, run)
  {
    NearAuthIff(before);
    forall i | 0 <= i < |run|
      ensures (Letter(run[i]) <==> C.IsLetter(run[i])) && (Digit(run[i]) <==> C.IsDigit(run[i]))
    {
      SameCharacters(run[i]);
    }
  }

  lemma LeadingRunIff(s: string, k: nat)
    ensures LeadingRun(s, k) <==> k > 0 && k <= |s| && Span(Tokens, s, 0) == k
  {
    if LeadingRun(s, k) {
      SpanIs(Tokens, s, 0, k);
    }
  }

  lemma SeparatesMeans(s: string, k: nat, m: nat, c: nat)
    requires Separates(s, k, m, c)
    ensures AfterSeparator(s, k) == Some(c)
  {
    var c1 := if IsQuote(s[k]) then k + 1 else k;
    SpanIs(Spaces, s, c1, m);
    SpanIs(Spaces, s, m + 1, c);
  }

  lemma SeparatorMeans(s: string, k: nat, c: nat) returns (m: nat)
    requires k <= |s| && AfterSeparator(s, k) == Some(c)
    ensures Separates(s, k, m, c)
  {
    var c1 := if k < |s| && IsQuote(s[k]) then k + 1 else k;
    m := Span(Spaces, s, c1);
  }

  lemma ValueIff(s: string, c: nat, v: nat, e: nat)
    requires c <= |s| && (c < |s| ==> !IsSpace(s[c]))
    ensures ValueIs(s, c, v, e) <==> ValueAt(s, c, Pair(v, e))
  {
    if ValueIs(s, c, v, e) {
      if c < |s| && IsQuote(s[c]) {
        SpanIs(Until(s[c]), s, v, e);
      } else {
        SpanIs(Unquoted, s, v, e);
      }
    }
  }

  /** The pairs the code finds are the named secrets. */
  lemma SecretIsPair(s: string, p: Parts)
    requires Secret(s, p)
    ensures KeyValue(s) == Some(Pair(p.value, p.end))
    ensures p.key == Span(Tokens, s, 0)
  {
    LeadingRunIff(s, p.key);
    NamesSecretIff(s[..p.key]);
    SeparatesMeans(s, p.key, p.sep, p.blanks);
    ValueIff(s, p.blanks, p.value, p.end);
    PairIs(s, p.key, p.blanks, Pair(p.value, p.end));
  }

  lemma PairIsSecret(s: string) returns (p: Parts)
    requires KeyValue(s).Some?
    ensures Secret(s, p) && KeyValue(s) == Some(Pair(p.value, p.end))
  {
    var k, c := PairParts(s);
    var pair := KeyValue(s).value;
    LeadingRunIff(s, k);
    NamesSecretIff(s[..k]);
    var m := SeparatorMeans(s, k, c);
    ValueIff(s, c, pair.keep, pair.end);
    p := Parts(k, m, c, pair.keep, pair.end);
  }

  /** The first `n` characters of `s` are written as `piece`. */
  ghost predicate WrittenAs(before: string, s: string, n: nat, piece: string) {
    n <= |s| && ScrubFrom(before, s) == piece + ScrubFrom(before + s[..n], s[n..])
  }

  /** What is written for a value. */
  function Hidden(value: string): string {
    if value == "" then "" else "***REDACTED***"
  }

  lemma PairWrittenAs(before: string, s: string, p: Parts, piece: string)
    requires Secret(s, p) && piece == s[..p.value] + Hidden(s[p.value..p.end])
    ensures WrittenAs(before, s, p.end, piece)
  {
    SecretIsPair(s, p);
    assert InKey(s[0]);
  }

  lemma RunWrittenAs(before: string, s: string, k: nat, piece: string)
    requires LeadingRun(s, k) && !NamesValue(s)
    requires piece == if Credential(before, s[..k]) then "***REDACTED***" else s[..k]
    ensures WrittenAs(before, s, k, piece)
  {
    LeadingRunIff(s, k);
    CredentialIff(before, s[..k]);
    if KeyValue(s).Some? {
      var p := PairIsSecret(s);
      assert NamesValue(s);
    }
  }

  lemma OtherWrittenAs(before: string, s: string, piece: string)
    requires s != "" && !InKey(s[0]) && piece == [s[0]]
    ensures WrittenAs(before, s, 1, piece)
  {
    assert s[..1] == [s[0]];
  }

  /** Scrubbing, step by step, in terms of the secrets of the text. */
  lemma ScrubSays(before: string, s: string)
    requires s != ""
    ensures !InKey(s[0]) ==> WrittenAs(before, s, 1, [s[0]])
    ensures forall p :: Secret(s, p) ==>
      WrittenAs(before, s, p.end, s[..p.value] + Hidden(s[p.value..p.end]))
    ensures forall k: nat :: LeadingRun(s, k) && !NamesValue(s) ==>
      WrittenAs(before, s, k, if Credential(before, s[..k]) then "***REDACTED***" else s[..k])
  {
    if !InKey(s[0]) {
      OtherWrittenAs(before, s, [s[0]]);
    }
    forall p | Secret(s, p)
      ensures WrittenAs(before, s, p.end, s[..p.value] + Hidden(s[p.value..p.end]))
    {
      PairWrittenAs(before, s, p, s[..p.value] + Hidden(s[p.value..p.end]));
    }
    forall k: nat | LeadingRun(s, k) && !NamesValue(s)
      ensures WrittenAs(before, s, k, if Credential(before, s[..k]) then "***REDACTED***" else s[..k])
    {
      RunWrittenAs(before, s, k, if Credential(before, s[..k]) then "***REDACTED***" else s[..k]);
    }
  }

  // ---------------------------------------------------------------- which texts pass unchanged

  /** `safe` holds of every token run of `s`, which stands behind `x`. */
  ghost predicate Throughout(safe: (string, string) -> bool, x: string, s: string) {
    forall i: nat :: RunStart(s, i) ==> safe(x + s[..i], s[i..])
  }

  ghost predicate UpTo(safe: (string, string) -> bool, x: string, s: string, n: nat) {
    forall i: nat :: i < n && RunStart(s, i) ==> safe(x + s[..i], s[i..])
  }

  ghost function Safe(): (string, string) -> bool {
    (before: string, s: string) => SafeHere(before, s)
  }

  /** No run goes on across `n`. */
  predicate Boundary(s: string, n: nat) {
    0 < n <= |s| && (n == |s| || !InKey(s[n]) || !InKey(s[n - 1]))
  }

  lemma RunsBehind(s: string, n: nat, i: nat)
    requires Boundary(s, n)
    ensures RunStart(s[n..], i) <==> RunStart(s, n + i)
  {
  }

  lemma CutBehind(x: string, s: string, n: nat, i: nat)
    requires n + i <= |s|
    ensures x + s[..n] + s[n..][..i] == x + s[..n + i] && s[n..][i..] == s[n + i..]
  {
  }

  /** The runs of a text are those before a boundary and those behind it. */
  lemma ThroughoutParts(safe: (string, string) -> bool, x: string, s: string, n: nat)
    requires Boundary(s, n)
    ensures Throughout(safe, x, s) <==> Throughout(safe, x + s[..n], s[n..]) && UpTo(safe, x, s, n)
  {
    if Throughout(safe, x, s) {
      forall i: nat | RunStart(s[n..], i)
        ensures safe(x + s[..n] + s[n..][..i], s[n..][i..])
      {
        RunsBehind(s, n, i);
        CutBehind(x, s, n, i);
      }
    }
    if Throughout(safe, x + s[..n], s[n..]) && UpTo(safe, x, s, n) {
      forall i: nat | RunStart(s, i)
        ensures safe(x + s[..i], s[i..])
      {
        if i >= n {
          RunsBehind(s, n, i - n);
          CutBehind(x, s, n, i - n);
        }
      }
    }
  }

  /** A text passes unchanged exactly if no secret shows in it. */
  lemma {:induction false} UnchangedFromIff(x: string, s: string)
    ensures ScrubFrom(x, s) == s <==> Throughout(Safe(), x, s)
    decreases |s|
  {
    if s == "" {
    } else if !InKey(s[0]) {
      UnchangedFromIff(x + [s[0]], s[1..]);
      OtherUnchangedIff(Safe(), x, s);
    } else if KeyValue(s).Some? {
      var p := PairIsSecret(s);
      UnchangedFromIff(x + s[..p.end], s[p.end..]);
      PairIsSafeIff(x, s, p);
      PairUnchangedIff(Safe(), x, s, p);
    } else {
      var k := Span(Tokens, s, 0);
      LeadingRunIff(s, k);
      UnchangedFromIff(x + s[..k], s[k..]);
      RunIsSafeIff(x, s, k);
      RunUnchangedIff(Safe(), x, s, k);
    }
  }

  lemma OtherUnchangedIff(safe: (string, string) -> bool, x: string, s: string)
    requires s != "" && !InKey(s[0])
    requires ScrubFrom(x + [s[0]], s[1..]) == s[1..] <==> Throughout(safe, x + [s[0]], s[1..])
    ensures ScrubFrom(x, s) == s <==> Throughout(safe, x, s)
  {
    ThroughoutParts(safe, x, s, 1);
    assert s[..1] == [s[0]];
    FrontCancels(s, 1, [s[0]], ScrubFrom(x + [s[0]], s[1..]));
  }

  lemma FrontCancels(s: string, n: nat, front: string, rest: string)
    requires n <= |s| && |front| == n
    ensures front + rest == s <==> front == s[..n] && rest == s[n..]
  {
    assert (front + rest)[..n] == front && (front + rest)[n..] == rest;
    assert s == s[..n] + s[n..];
  }

  lemma RunUnchangedIff(safe: (string, string) -> bool, x: string, s: string, k: nat)
    requires LeadingRun(s, k) && KeyValue(s).None?
    requires UpTo(safe, x, s, k) <==> !Credential(x, s[..k])
    requires ScrubFrom(x + s[..k], s[k..]) == s[k..] <==> Throughout(safe, x + s[..k], s[k..])
    ensures ScrubFrom(x, s) == s <==> Throughout(safe, x, s)
  {
    LeadingRunIff(s, k);
    CredentialIff(x, s[..k]);
    ThroughoutParts(safe, x, s, k);
    var rest := ScrubFrom(x + s[..k], s[k..]);
    if Credential(x, s[..k]) {
      assert (MARKER + rest)[0] == '*';
    } else {
      FrontCancels(s, k, s[..k], rest);
    }
  }

  lemma RunIsSafeIff(x: string, s: string, k: nat)
    requires LeadingRun(s, k) && KeyValue(s).None?
    ensures UpTo(Safe(), x, s, k) <==> !Credential(x, s[..k])
  {
    assert x + s[..0] == x && s[0..] == s;
    LeadingRunIff(s, k);
    forall p: Parts
      ensures !Secret(s, p)
    {
      if Secret(s, p) {
        SecretIsPair(s, p);
      }
    }
    forall n: nat | LeadingRun(s, n)
      ensures n == k
    {
      LeadingRunIff(s, n);
    }
    assert RunStart(s, 0);
    assert Safe()(x + s[..0], s[0..]) <==> !Credential(x, s[..k]);
    forall i: nat | i < k && RunStart(s, i)
      ensures i == 0
    {
    }
  }

  lemma PairUnchangedIff(safe: (string, string) -> bool, x: string, s: string, p: Parts)
    requires Secret(s, p)
    requires UpTo(safe, x, s, p.end) <==> s[p.value..p.end] == Hidden(s[p.value..p.end])
    requires ScrubFrom(x + s[..p.end], s[p.end..]) == s[p.end..] <==> Throughout(safe, x + s[..p.end], s[p.end..])
    ensures ScrubFrom(x, s) == s <==> Throughout(safe, x, s)
  {
    SecretIsPair(s, p);
    var rest := ScrubFrom(x + s[..p.end], s[p.end..]);
    RestBehindPair(s, Pair(p.value, p.end), rest, x + s[..p.end]);
    ValueCancels(s, p, Hidden(s[p.value..p.end]), rest);
    StopsBetweenRuns(s);
    ThroughoutParts(safe, x, s, p.end);
  }

  /** What stands behind a value is in neither the value nor the marker. */
  lemma ValueStops(s: string, p: Parts)
    requires Secret(s, p) && p.end < |s|
    ensures EndsValue(s[p.end]) && forall q :: p.value <= q < p.end ==> s[q] != s[p.end]
  {
  }

  lemma CancelledLength(s: string, v: nat, e: nat, value: string, rest: string)
    requires v < e <= |s| && |value| == 14 && forall i :: 0 <= i < 14 ==> !EndsValue(value[i])
    requires e < |s| ==> EndsValue(s[e]) && forall q :: v <= q < e ==> s[q] != s[e]
    requires Resumes(s, e, rest) && s[..v] + value + rest == s
    ensures e - v == 14
  {
    ThreePieces(s[..v], value, rest);
  }

  /** A pair comes out as it went in exactly if its value was the marker already, or empty. */
  lemma ValueCancels(s: string, p: Parts, value: string, rest: string)
    requires Secret(s, p) && value == Hidden(s[p.value..p.end]) && Resumes(s, p.end, rest)
    ensures s[..p.value] + value + rest == s <==> s[p.value..p.end] == value && rest == s[p.end..]
  {
    var v, e := p.value, p.end;
    if v < e && s[..v] + value + rest == s {
      MarkerChars();
      if e < |s| {
        ValueStops(s, p);
      }
      CancelledLength(s, v, e, value, rest);
    }
    PiecesCancel(s, v, e, value, rest);
  }

  lemma PiecesCancel(s: string, v: nat, e: nat, value: string, rest: string)
    requires v <= e <= |s|
    ensures |value| == e - v && s[..v] + value + rest == s ==> s[v..e] == value && rest == s[e..]
    ensures s[v..e] == value && rest == s[e..] ==> s[..v] + value + rest == s
  {
    if |value| == e - v && s[..v] + value + rest == s {
      assert s[v..e] == (s[..v] + value + rest)[v..e] == value;
      assert s[e..] == (s[..v] + value + rest)[e..] == rest;
    }
  }

  /** Of the runs up to the end of a pair, the key is safe exactly if the value is hidden, and then so
      are the others. */
  lemma PairIsSafeIff(x: string, s: string, p: Parts)
    requires Secret(s, p)
    ensures UpTo(Safe(), x, s, p.end) <==> s[p.value..p.end] == Hidden(s[p.value..p.end])
  {
    KeyIsSafeIff(x, s, p);
    assert RunStart(s, 0) && Safe()(x + s[..0], s[0..]) == SafeHere(x + s[..0], s[0..]);
    if s[p.value..p.end] == Hidden(s[p.value..p.end]) {
      forall i: nat | i < p.end && RunStart(s, i)
        ensures Safe()(x + s[..i], s[i..])
      {
        RunOfPairIsSafe(x, s, p, i);
      }
    }
  }

  lemma RunOfPairIsSafe(x: string, s: string, p: Parts, i: nat)
    requires Secret(s, p) && s[p.value..p.end] == Hidden(s[p.value..p.end]) && i < p.end && RunStart(s, i)
    ensures SafeHere(x + s[..i], s[i..])
  {
    if i > 0 {
      RunsOfPair(s, p, i);
      assert s[i..][..8] == s[i..i + 8];
      MarkerRunIsSafe(x + s[..i], s[i..]);
    } else {
      KeyIsSafeIff(x, s, p);
    }
  }

  lemma KeyIsSafeIff(x: string, s: string, p: Parts)
    requires Secret(s, p)
    ensures SafeHere(x + s[..0], s[0..]) <==> s[p.value..p.end] == Hidden(s[p.value..p.end])
  {
    assert s[0..] == s;
    assert NamesValue(s);
    SecretIsPair(s, p);
    forall q | Secret(s, q)
      ensures q.value == p.value && q.end == p.end
    {
      SecretIsPair(s, q);
    }
  }

  /** The only run behind the key is the one inside the marker. */
  lemma RunsOfPair(s: string, p: Parts, i: nat)
    requires Secret(s, p) && s[p.value..p.end] == Hidden(s[p.value..p.end]) && 0 < i < p.end && RunStart(s, i)
    ensures i + 8 < |s| && s[i..i + 8] == WORD && s[i + 8] == '*'
  {
    MarkerChars();
    assert i >= p.key;
    assert i >= p.value;
    WordInMarker(s, p.value, p.end, i);
  }

  lemma WordInMarker(s: string, v: nat, e: nat, i: nat)
    requires v <= i < e <= |s| && s[v..e] == MARKER && RunStart(s, i)
    ensures i + 8 < |s| && s[i..i + 8] == WORD && s[i + 8] == '*'
  {
    MarkerChars();
    assert forall q :: v <= q < e ==> s[q] == s[v..e][q - v];
    assert i == v + 3;
    assert s[i..i + 8] == s[v..e][3..11];
    assert WORD == MARKER[3..11];
  }

  lemma MarkerRunIsSafe(before: string, s: string)
    requires |s| > 8 && s[..8] == WORD && s[8] == '*'
    ensures SafeHere(before, s)
  {
    WordIsNoSecret(before, WORD);
    assert forall q :: 0 <= q < 8 ==> s[q] == s[..8][q];
    SpanIs(Tokens, s, 0, 8);
    forall p: Parts
      ensures !Secret(s, p)
    {
      if Secret(s, p) {
        SecretIsPair(s, p);
      }
    }
    forall k: nat | LeadingRun(s, k)
      ensures k == 8
    {
      LeadingRunIff(s, k);
    }
  }

  lemma WordIsNoSecret(before: string, word: string)
    requires word == WORD
    ensures |word| == 8 && (forall q :: 0 <= q < 8 ==> IsToken(word[q]))
    ensures !IsSensitive(word) && !NamesSecret(word) && !Credential(before, word)
  {
    MarkerChars();
    MarkerIsHarmless();
    assert word == MARKER[3..11];
    HarmlessIsNotSensitive(word);
    NamesSecretIff(word);
    assert !Digit(word[0]);
  }

  /** A text passes unchanged exactly if it hides its secrets already: every named value is empty or the
      marker, and every bare credential is a key of one. */
  lemma UnchangedIff(text: string)
    ensures Scrubbed(text) == text <==> HidesSecrets(text)
  {
    UnchangedFromIff("", text);
    forall i: nat | RunStart(text, i)
      ensures Safe()("" + text[..i], text[i..]) <==> SafeHere(text[..i], text[i..])
    {
      assert "" + text[..i] == text[..i];
    }
  }

  /** No secret shows in what was scrubbed, whatever the text was. */
  lemma OutputHidesSecrets(text: string)
    ensures HidesSecrets(Scrubbed(text))
  {
    ScrubIsIdempotent(text);
    UnchangedIff(Scrubbed(text));
  }

  // ---------------------------------------------------------------- where the secrets of a text went

  /** What is written for a secret: its key and separator, and the marker for its value. */
  function PieceOf(s: string, p: Parts): string
    requires Secret(s, p)
  {
    s[..p.value] + Hidden(s[p.value..p.end])
  }

  /** What is written for a run that is no key of a secret. */
  ghost function RunPiece(before: string, run: string): string {
    if Credential(before, run) then "***REDACTED***" else run
  }

  /** One step of the scan: how far it goes, what it writes, and the secret it hides, if it does. */
  datatype Move = Move(n: nat, piece: string, hidden: Option<Parts>)

  /** A step from `j`: over a character outside runs, a secret, or a run that is no key of one. */
  ghost predicate Moves(text: string, j: nat, v: Move) {
    && 0 < v.n && j + v.n <= |text|
    && if !InKey(text[j]) then v == Move(1, [text[j]], None)
       else
         match v.hidden
         case Some(p) => Secret(text[j..], p) && v.n == p.end && v.piece == PieceOf(text[j..], p)
         case None => BareRun(text[j..], v.n) && v.piece == RunPiece(text[..j], text[j..][..v.n])
  }

  ghost predicate BareRun(s: string, k: nat) {
    LeadingRun(s, k) && !NamesValue(s)
  }

  type Steps = (nat, Move) -> bool

  ghost function MovesOf(text: string): Steps {
    (j: nat, v: Move) => Moves(text, j, v)
  }

  /** What is written when the scan stands at a position. */
  type Trail = (nat, string) -> bool

  ghost function Written(text: string): Trail {
    (i: nat, out: string) => WrittenAt(text, i, out)
  }

  ghost predicate Goes(w: Trail, m: Steps, j: nat, out: string, v: Move) {
    w(j, out) && m(j, v) ==> w(j + v.n, out + v.piece)
  }

  /** How many of the next characters are written as what. */
  type Taker = (nat, nat, string) -> bool

  ghost function TakenOf(text: string): Taker {
    (j: nat, n: nat, piece: string) => Takes(text, j, n, piece)
  }

  lemma MoveTaken(text: string, j: nat, v: Move)
    requires MovesOf(text)(j, v)
    ensures TakenOf(text)(j, v.n, v.piece)
  {
    if !InKey(text[j]) {
      OtherWrittenAs(text[..j], text[j..], v.piece);
    } else if v.hidden.Some? {
      PairWrittenAs(text[..j], text[j..], v.hidden.value, v.piece);
    } else {
      RunWrittenAs(text[..j], text[j..], v.n, v.piece);
    }
    TakesRest(text, j, v.n, v.piece);
  }

  lemma TakenWritten(text: string, j: nat, out: string, n: nat, piece: string)
    requires Written(text)(j, out) && TakenOf(text)(j, n, piece)
    ensures Written(text)(j + n, out + piece)
  {
    WrittenStep(text, j, n, out, piece);
  }

  ghost predicate Yields(t: Taker, m: Steps, j: nat, v: Move) {
    m(j, v) ==> t(j, v.n, v.piece)
  }

  ghost predicate Extends(w: Trail, t: Taker, j: nat, out: string, n: nat, piece: string) {
    w(j, out) && t(j, n, piece) ==> w(j + n, out + piece)
  }

  ghost predicate Shows(w: Trail, shown: Trail, i: nat, out: string) {
    w(i, out) ==> shown(i, out)
  }

  /** What the scan takes and has written, as far as its moves are concerned. */
  lemma TakesAndTrail(text: string) returns (t: Taker, w: Trail)
    ensures forall j: nat, v: Move :: Yields(t, MovesOf(text), j, v)
    ensures forall j: nat, out: string, n: nat, piece: string :: Extends(w, t, j, out, n, piece)
    ensures w(0, "") && forall i: nat, out: string :: Shows(w, Written(text), i, out)
  {
    t, w := TakenOf(text), Written(text);
    WrittenEnds(text, "");
    forall j: nat, v: Move
      ensures Yields(t, MovesOf(text), j, v)
    {
      if MovesOf(text)(j, v) {
        MoveTaken(text, j, v);
      }
    }
    forall j: nat, out: string, n: nat, piece: string
      ensures Extends(w, t, j, out, n, piece)
    {
      if w(j, out) && t(j, n, piece) {
        TakenWritten(text, j, out, n, piece);
      }
    }
  }

  lemma ScrubFollows(text: string) returns (w: Trail)
    ensures forall j: nat, out: string, v: Move :: Goes(w, MovesOf(text), j, out, v)
    ensures w(0, "") && forall i: nat, out: string :: Shows(w, Written(text), i, out)
  {
    var t;
    t, w := TakesAndTrail(text);
    forall j: nat, out: string, v: Move
      ensures Goes(w, MovesOf(text), j, out, v)
    {
      assert Yields(t, MovesOf(text), j, v);
      assert Extends(w, t, j, out, v.n, v.piece);
    }
  }

  /** Where the scan stands: at the end, behind a run, or at the start of one. */
  predicate Stands(text: string, j: nat) {
    j <= |text| && (j < |text| && InKey(text[j]) ==> RunStart(text, j))
  }

  lemma BehindRun(text: string, j: nat, k: nat, i: nat)
    requires j < i && RunStart(text, i) && j <= |text| && LeadingRun(text[j..], k)
    ensures j + k <= i && Stands(text, j + k)
  {
    assert forall q :: j <= q < |text| ==> text[q] == text[j..][q - j];
    assert forall q :: j <= q < j + k ==> InKey(text[q]);
  }

  lemma BehindPair(text: string, j: nat, p: Parts, i: nat)
    requires j < i && RunStart(text, i) && j <= |text| && Secret(text[j..], p)
    ensures j < j + p.end && Stands(text, j + p.end) && (j + p.end <= i || j + p.value <= i < j + p.end)
  {
    assert forall q :: j <= q < |text| ==> text[q] == text[j..][q - j];
    assert forall q :: j <= q < j + p.key ==> InKey(text[q]);
    assert forall q :: j + p.key <= q < j + p.value ==> !InKey(text[q]);
  }

  lemma LeadingRunOf(s: string) returns (k: nat)
    requires s != "" && InKey(s[0])
    ensures LeadingRun(s, k)
  {
    k := Span(Tokens, s, 0);
    LeadingRunIff(s, k);
  }

  function StandsOf(text: string): nat -> bool {
    (j: nat) => Stands(text, j)
  }

  /** Position `i` is in the value that the move from `j` hides. */
  predicate Inside(j: nat, v: Move, i: nat) {
    v.hidden.Some? && j + v.hidden.value.value <= i < j + v.hidden.value.end
  }

  /** From `j` there is a move that does not go beyond `i`, unless `i` is in the value it hides. */
  ghost predicate CanMove(m: Steps, stands: nat -> bool, i: nat, j: nat) {
    stands(j) && j < i ==> exists v :: m(j, v) && v.n > 0 && stands(j + v.n) && (j + v.n <= i || Inside(j, v, i))
  }

  lemma SecretMoves(text: string, j: nat, p: Parts, v: Move)
    requires j < |text| && InKey(text[j]) && Secret(text[j..], p)
    requires v == Move(p.end, PieceOf(text[j..], p), Some(p))
    ensures MovesOf(text)(j, v)
  {
  }

  lemma BareMoves(text: string, j: nat, k: nat, v: Move)
    requires j < |text| && InKey(text[j]) && BareRun(text[j..], k)
    requires v == Move(k, RunPiece(text[..j], text[j..][..k]), None)
    ensures MovesOf(text)(j, v)
  {
  }

  lemma SecretMove(text: string, j: nat, i: nat, p: Parts) returns (v: Move)
    requires j < i && RunStart(text, i) && InKey(text[j]) && Secret(text[j..], p)
    ensures MovesOf(text)(j, v) && v.n > 0 && StandsOf(text)(j + v.n) && (j + v.n <= i || Inside(j, v, i))
  {
    BehindPair(text, j, p, i);
    v := Move(p.end, PieceOf(text[j..], p), Some(p));
    SecretMoves(text, j, p, v);
  }

  lemma BareMove(text: string, j: nat, i: nat) returns (v: Move)
    requires j < i && RunStart(text, i) && InKey(text[j]) && !NamesValue(text[j..])
    ensures MovesOf(text)(j, v) && v.n > 0 && StandsOf(text)(j + v.n) && j + v.n <= i
  {
    var k := LeadingRunOf(text[j..]);
    BehindRun(text, j, k, i);
    v := Move(k, RunPiece(text[..j], text[j..][..k]), None);
    BareMoves(text, j, k, v);
  }

  lemma MoveExists(text: string, i: nat, j: nat)
    requires RunStart(text, i)
    ensures CanMove(MovesOf(text), StandsOf(text), i, j)
  {
    var m := MovesOf(text);
    if StandsOf(text)(j) && j < i {
      var v := Move(1, [text[j]], None);
      if !InKey(text[j]) {
      } else if p :| Secret(text[j..], p) {
        v := SecretMove(text, j, i, p);
      } else {
        v := BareMove(text, j, i);
      }
      assert m(j, v);
    }
  }

  lemma MovesExist(text: string, i: nat)
    requires RunStart(text, i)
    ensures forall j: nat :: CanMove(MovesOf(text), StandsOf(text), i, j)
  {
    forall j: nat
      ensures CanMove(MovesOf(text), StandsOf(text), i, j)
    {
      MoveExists(text, i, j);
    }
  }

  /** The scan comes to every token run that is not inside a value it hides. */
  lemma {:induction false} ScanReaches(w: Trail, m: Steps, stands: nat -> bool, j: nat, out: string, i: nat)
    returns (a: nat, v: Move, written: string)
    requires forall j: nat, out: string, v: Move :: Goes(w, m, j, out, v)
    requires forall j: nat :: CanMove(m, stands, i, j)
    requires w(j, out) && stands(j) && j <= i
    ensures w(a, written)
    ensures a == i || (m(a, v) && Inside(a, v, i) && w(a + v.n, written + v.piece))
    decreases i - j
  {
    a, v, written := j, Move(0, "", None), out;
    if j < i {
      assert CanMove(m, stands, i, j);
      v :| m(j, v) && v.n > 0 && stands(j + v.n) && (j + v.n <= i || Inside(j, v, i));
      assert Goes(w, m, j, out, v);
      if j + v.n <= i {
        a, v, written := ScanReaches(w, m, stands, j + v.n, out + v.piece, i);
      }
    }
  }

  /** The move `v` from `i` is made, or one before that hides the value that `i` is in. */
  lemma MadeOrHidden(w: Trail, shown: Trail, m: Steps, stands: nat -> bool, i: nat, v: Move)
    returns (a: nat, made: Move, written: string)
    requires forall j: nat, out: string, v: Move :: Goes(w, m, j, out, v)
    requires forall j: nat, out: string :: Shows(w, shown, j, out)
    requires forall j: nat :: CanMove(m, stands, i, j)
    requires w(0, "") && stands(0) && m(i, v)
    ensures (a == i && made == v) || Inside(a, made, i)
    ensures m(a, made) && shown(a + made.n, written + made.piece)
  {
    a, made, written := ScanReaches(w, m, stands, 0, "", i);
    if a == i {
      made := v;
      assert Goes(w, m, i, written, v);
    }
    assert Shows(w, shown, a + made.n, written + made.piece);
  }

  lemma MoveIsMade(text: string, i: nat, v: Move) returns (a: nat, made: Move, written: string)
    requires RunStart(text, i) && MovesOf(text)(i, v)
    ensures (a == i && made == v) || Inside(a, made, i)
    ensures MovesOf(text)(a, made) && Written(text)(a + made.n, written + made.piece)
  {
    var w := ScrubFollows(text);
    MovesExist(text, i);
    a, made, written := MadeOrHidden(w, Written(text), MovesOf(text), StandsOf(text), i, v);
  }

  /** Behind `written`, the secret at `a` is written as its key and separator and the marker. */
  ghost predicate HiddenAt(text: string, a: nat, p: Parts, written: string) {
    && a <= |text| && Secret(text[a..], p)
    && Written(text)(a + p.end, written + PieceOf(text[a..], p))
  }

  lemma MoveHides(text: string, a: nat, v: Move, written: string)
    requires MovesOf(text)(a, v) && v.hidden.Some? && Written(text)(a + v.n, written + v.piece)
    ensures HiddenAt(text, a, v.hidden.value, written)
  {
  }

  /** Every named secret of the text is written as its key and separator, as they are, and the marker
      for its value, unless it stands inside a value that is hidden in this way. */
  lemma SecretIsHidden(text: string, i: nat, p: Parts) returns (a: nat, q: Parts, written: string)
    requires RunStart(text, i) && Secret(text[i..], p)
    ensures HiddenAt(text, a, q, written)
    ensures (a == i && q == p) || a + q.value <= i < a + q.end
  {
    var v := Move(p.end, PieceOf(text[i..], p), Some(p));
    SecretMoves(text, i, p, v);
    a, v, written := MoveIsMade(text, i, v);
    q := v.hidden.value;
    MoveHides(text, a, v, written);
  }

  /** Every other run is written as the marker if it is a credential, and as it is if not, unless it
      stands inside a value that is hidden. */
  lemma BareRunIsWritten(text: string, i: nat, k: nat) returns (a: nat, q: Option<Parts>, written: string)
    requires RunStart(text, i) && BareRun(text[i..], k)
    ensures
      match q
      case Some(p) => HiddenAt(text, a, p, written) && a + p.value <= i < a + p.end
      case None => Written(text)(i + k, written + RunPiece(text[..i], text[i..][..k]))
  {
    var v := Move(k, RunPiece(text[..i], text[i..][..k]), None);
    BareMoves(text, i, k, v);
    a, v, written := MoveIsMade(text, i, v);
    q := v.hidden;
    if q.Some? {
      MoveHides(text, a, v, written);
    }
  }
}
