/** Ids that may be shown in full, the strategy names they are minted from, and the block they are
    shown in (src/domain/redaction.cpp, src/idempotency/idempotency.cpp). */
module Provenance {
  import opened Characters
  import opened Options
  import R = Redaction
  import C = ClientRef
  import J = JsonLine
  import U = Uuid
  import H = Sha256
  import Utf8

  const MAX_ID := 128
  const MAX_NAME := 64
  const MAX_SYMBOL := 32

  predicate IsAlnum(c: char) {
    IsLetter(c) || IsDigit(c)
  }

  predicate IsHex(c: char) {
    IsDigit(c) || 'a' <= c <= 'f' || 'A' <= c <= 'F'
  }

  predicate IsIdChar(c: char) {
    R.IsToken(c) || c == '#'
  }

  predicate AllLetters(s: string) {
    forall k :: 0 <= k < |s| ==> IsLetter(s[k])
  }

  predicate AllHex(s: string) {
    forall k :: 0 <= k < |s| ==> IsHex(s[k])
  }

  predicate AllAlnum(s: string) {
    forall k :: 0 <= k < |s| ==> IsAlnum(s[k])
  }

  predicate AllToken(s: string) {
    forall k :: 0 <= k < |s| ==> R.IsToken(s[k])
  }

  predicate IsHomogeneous(s: string) {
    AllLetters(s) || AllHex(s)
  }

  // ---------------------------------------------------------------- the id shape

  /** The state of the one pass over an id. */
  datatype Scan = Failed | Scan(segments: nat, open: bool, letters: bool, hex: bool)

  const START := Scan(0, false, false, false)

  function Feed(st: Scan, c: char): Scan {
    if st.Failed? || !IsIdChar(c) then Failed
    else if !IsAlnum(c) then st.(open := false)
    else
      var begun := if st.open then st else Scan(st.segments + 1, true, true, true);
      var letters, hex := begun.letters && IsLetter(c), begun.hex && IsHex(c);
      if !letters && !hex then Failed else begun.(letters := letters, hex := hex)
  }

  function Scanned(st: Scan, s: string): Scan
    decreases |s|
  {
    if s == "" then st else Scanned(Feed(st, s[0]), s[1..])
  }

  predicate IsIdShape(value: string) {
    0 < |value| <= MAX_ID && Scanned(START, value).Scan? && Scanned(START, value).segments >= 2
  }

  /** The loop of the source, with its early returns. */
  method IsProvenanceIdShape(value: string) returns (ok: bool)
    ensures ok == IsIdShape(value)
  {
    if value == "" || |value| > MAX_ID {
      return false;
    }
    var st := START;
    var i := 0;
    while i < |value|
      invariant 0 <= i <= |value| && st.Scan?
      invariant Scanned(START, value) == Scanned(st, value[i..])
    {
      var c := value[i];
      assert value[i..][0] == c && value[i..][1..] == value[i + 1..];
      ghost var next := Feed(st, c);
      if !IsIdChar(c) {
        FailedStays(value[i + 1..]);
        return false;
      }
      if IsAlnum(c) {
        if !st.open {
          st := Scan(st.segments + 1, true, true, true);
        }
        st := st.(letters := st.letters && IsLetter(c), hex := st.hex && IsHex(c));
        if !st.letters && !st.hex {
          FailedStays(value[i + 1..]);
          return false;
        }
      } else {
        st := st.(open := false);
      }
      assert st == next;
      i := i + 1;
    }
    ok := st.segments >= 2;
  }

  lemma {:induction false} FailedStays(s: string)
    ensures Scanned(Failed, s) == Failed
  {
    if s != "" {
      FailedStays(s[1..]);
    }
  }

  lemma {:induction false} ScanAppend(st: Scan, a: string, b: string)
    ensures Scanned(st, a + b) == Scanned(Scanned(st, a), b)
    decreases |a|
  {
    if a == "" {
      assert a + b == b;
    } else {
      assert (a + b)[1..] == a[1..] + b;
      ScanAppend(Feed(st, a[0]), a[1..], b);
    }
  }

  lemma ScanSnoc(st: Scan, s: string)
    requires s != ""
    ensures Scanned(st, s) == Feed(Scanned(st, s[..|s| - 1]), s[|s| - 1])
  {
    var front, last := s[..|s| - 1], s[|s| - 1];
    assert s == front + [last] && [last][1..] == "";
    ScanAppend(st, front, [last]);
  }

  /** One segment behind a separator passes if and only if it is homogeneous. */
  lemma {:induction false} SegmentScan(st: Scan, seg: string)
    requires st.Scan? && !st.open && seg != "" && AllAlnum(seg)
    ensures Scanned(st, seg)
      == if IsHomogeneous(seg) then Scan(st.segments + 1, true, AllLetters(seg), AllHex(seg)) else Failed
    decreases |seg|
  {
    var front, last := seg[..|seg| - 1], seg[|seg| - 1];
    ScanSnoc(st, seg);
    assert forall k :: 0 <= k < |seg| ==> seg[k] == if k < |front| then front[k] else last;
    assert AllLetters(seg) <==> AllLetters(front) && IsLetter(last);
    assert AllHex(seg) <==> AllHex(front) && IsHex(last);
    if front != "" {
      SegmentScan(st, front);
    }
  }

  // ---------------------------------------------------------------- segments of a name

  /** The length of the leading part of letters and digits. */
  function AlnumLength(s: string): (j: nat)
    ensures j <= |s| && AllAlnum(s[..j]) && (j < |s| ==> !IsAlnum(s[j]))
  {
    if s == "" || !IsAlnum(s[0]) then 0
    else
      assert forall k :: 0 < k < |s| ==> s[k] == s[1..][k - 1];
      1 + AlnumLength(s[1..])
  }

  /** The first segment that is neither all letters nor all hex, or nothing. */
  function FirstMixed(name: string): string
    decreases |name|
  {
    if name == "" then ""
    else if !IsAlnum(name[0]) then FirstMixed(name[1..])
    else
      var j := AlnumLength(name);
      if IsHomogeneous(name[..j]) then FirstMixed(name[j..]) else name[..j]
  }

  /** A '-' at every change between letters and digits. */
  function Spaced(seg: string): string {
    if |seg| <= 1 then seg
    else [seg[0]] + (if IsLetter(seg[0]) != IsLetter(seg[1]) then "-" else "") + Spaced(seg[1..])
  }

  function SplitMixed(name: string): string
    decreases |name|
  {
    if name == "" then ""
    else if !IsAlnum(name[0]) then [name[0]] + SplitMixed(name[1..])
    else
      var j := AlnumLength(name);
      (if IsHomogeneous(name[..j]) then name[..j] else Spaced(name[..j])) + SplitMixed(name[j..])
  }

  /** For text in the charset of names, the pass fails exactly if there is a mixed segment. */
  lemma {:induction false} MixedIffFails(st: Scan, name: string)
    requires st.Scan? && AllToken(name) && (name == "" || !IsAlnum(name[0]) || !st.open)
    ensures FirstMixed(name) == "" <==> Scanned(st, name).Scan?
    ensures Scanned(st, name).Scan? ==> Scanned(st, name).segments >= st.segments
    ensures Scanned(st, name).Scan? && (exists k :: 0 <= k < |name| && IsAlnum(name[k])) ==>
      Scanned(st, name).segments > st.segments
    decreases |name|
  {
    if name == "" {
    } else if !IsAlnum(name[0]) {
      assert AllToken(name[1..]);
      MixedIffFails(Feed(st, name[0]), name[1..]);
      assert forall k :: 1 <= k < |name| ==> name[k] == name[1..][k - 1];
    } else {
      var j := AlnumLength(name);
      var seg, rest := name[..j], name[j..];
      assert name == seg + rest && AllToken(rest);
      ScanAppend(st, seg, rest);
      SegmentScan(st, seg);
      if IsHomogeneous(seg) {
        MixedIffFails(Scanned(st, seg), rest);
      } else {
        FailedStays(rest);
      }
    }
  }

  /** Spacing leaves pieces of one kind. */
  lemma {:induction false} SpacedPasses(st: Scan, seg: string, rest: string) returns (st': Scan)
    requires st.Scan? && seg != "" && AllAlnum(seg) && AllToken(rest) && (rest == "" || !IsAlnum(rest[0]))
    requires st.open ==> if IsLetter(seg[0]) then st.letters else st.hex
    ensures st'.Scan? && Scanned(st, Spaced(seg) + rest) == Scanned(st', rest)
    decreases |seg|
  {
    var c := seg[0];
    var st1 := Feed(st, c);
    FeedsOn(st, c);
    SpacedHead(seg, rest);
    var tail := Spaced(seg[1..]) + rest;
    if |seg| == 1 {
      ScannedCons(st, c, rest);
      st' := st1;
    } else if IsLetter(c) != IsLetter(seg[1]) {
      ScannedCons(st, c, ['-'] + tail);
      ScannedCons(st1, '-', tail);
      st' := SpacedPasses(Feed(st1, '-'), seg[1..], rest);
    } else {
      ScannedCons(st, c, tail);
      st' := SpacedPasses(st1, seg[1..], rest);
    }
  }

  /** A letter behind letters, or a digit behind hexadecimal digits, is accepted. */
  lemma FeedsOn(st: Scan, c: char)
    requires st.Scan? && IsAlnum(c) && (st.open ==> if IsLetter(c) then st.letters else st.hex)
    ensures var st1 := Feed(st, c);
      st1.Scan? && st1.open && (if IsLetter(c) then st1.letters else st1.hex)
  {
  }

  lemma SpacedHead(seg: string, rest: string)
    requires seg != ""
    ensures Spaced(seg) + rest
      == if |seg| == 1 then [seg[0]] + rest
         else if IsLetter(seg[0]) != IsLetter(seg[1]) then [seg[0]] + (['-'] + (Spaced(seg[1..]) + rest))
         else [seg[0]] + (Spaced(seg[1..]) + rest)
  {
    if |seg| == 1 {
      assert seg == [seg[0]];
    } else {
      FourPieces([seg[0]], if IsLetter(seg[0]) != IsLetter(seg[1]) then "-" else "", Spaced(seg[1..]), rest);
    }
  }

  lemma FourPieces(a: string, b: string, c: string, d: string)
    ensures a + b + c + d == a + (b + (c + d))
    ensures b == "" ==> a + (b + (c + d)) == a + (c + d)
  {
  }

  lemma ScannedCons(st: Scan, c: char, rest: string)
    ensures Scanned(st, [c] + rest) == Scanned(Feed(st, c), rest)
  {
    assert ([c] + rest)[1..] == rest;
  }

  lemma {:induction false} SpacedIsToken(seg: string)
    requires AllAlnum(seg)
    ensures AllToken(Spaced(seg))
  {
    if |seg| > 1 {
      SpacedIsToken(seg[1..]);
    }
  }

  /** What splitting leaves, seen by the pass. */
  lemma {:induction false} SplitPasses(st: Scan, name: string)
    requires st.Scan? && AllToken(name) && (name == "" || !IsAlnum(name[0]) || !st.open)
    ensures AllToken(SplitMixed(name)) && Scanned(st, SplitMixed(name)).Scan?
    ensures name != "" ==> SplitMixed(name) != "" && SplitMixed(name)[0] == name[0]
    decreases |name|
  {
    if name == "" {
    } else if !IsAlnum(name[0]) {
      assert AllToken(name[1..]);
      SplitPasses(Feed(st, name[0]), name[1..]);
      assert ([name[0]] + SplitMixed(name[1..]))[1..] == SplitMixed(name[1..]);
    } else {
      var j := AlnumLength(name);
      var seg, rest := name[..j], name[j..];
      assert AllToken(rest);
      SplitPasses(START, rest);
      var more := SplitMixed(rest);
      if IsHomogeneous(seg) {
        SegmentScan(st, seg);
        ScanAppend(st, seg, more);
        SplitPasses(Scanned(st, seg), rest);
      } else {
        SpacedIsToken(seg);
        var st' := SpacedPasses(st, seg, more);
        SplitPasses(st', rest);
      }
    }
  }

  /** No mixed segment survives splitting, so a suggestion is never itself split again. */
  lemma SplitLeavesNoMixed(name: string)
    requires AllToken(name)
    ensures FirstMixed(SplitMixed(name)) == ""
  {
    SplitPasses(START, name);
    MixedIffFails(START, SplitMixed(name));
  }

  // ---------------------------------------------------------------- the id shape without a scanner

  predicate AlnumIn(s: string, i: nat, j: nat)
    requires i <= j <= |s|
  {
    forall k :: i <= k < j ==> IsLetter(s[k]) || IsDigit(s[k])
  }

  predicate LettersIn(s: string, i: nat, j: nat)
    requires i <= j <= |s|
  {
    forall k :: i <= k < j ==> IsLetter(s[k])
  }

  predicate HexIn(s: string, i: nat, j: nat)
    requires i <= j <= |s|
  {
    forall k :: i <= k < j ==> '0' <= s[k] <= '9' || 'a' <= s[k] <= 'f' || 'A' <= s[k] <= 'F'
  }

  /** Every stretch of letters and digits is all letters or all hex. */
  predicate Pure(s: string) {
    forall i: nat, j: nat :: i <= j <= |s| && AlnumIn(s, i, j) ==> LettersIn(s, i, j) || HexIn(s, i, j)
  }

  /** Number of segments: starts of stretches of letters and digits. */
  function SegmentCount(s: string): nat {
    if s == "" then 0
    else
      var n := |s| - 1;
      SegmentCount(s[..n]) + if IsAlnum(s[n]) && (n == 0 || !IsAlnum(s[n - 1])) then 1 else 0
  }

  /** Where the trailing stretch of letters and digits starts. */
  function TailStart(s: string): (a: nat)
    ensures a <= |s| && AlnumIn(s, a, |s|) && (a > 0 ==> !IsAlnum(s[a - 1]))
  {
    if s == "" || !IsAlnum(s[|s| - 1]) then |s| else TailStart(s[..|s| - 1])
  }

  /** The trailing stretch is of one kind. */
  predicate TailPure(s: string) {
    LettersIn(s, TailStart(s), |s|) || HexIn(s, TailStart(s), |s|)
  }

  lemma SameStretch(s: string, n: nat, i: nat, j: nat)
    requires i <= j <= n <= |s|
    ensures AlnumIn(s[..n], i, j) <==> AlnumIn(s, i, j)
    ensures LettersIn(s[..n], i, j) <==> LettersIn(s, i, j)
    ensures HexIn(s[..n], i, j) <==> HexIn(s, i, j)
  {
    assert forall k :: 0 <= k < n ==> s[..n][k] == s[k];
  }

  /** Purity, one character further. */
  lemma PureSnoc(s: string)
    requires s != ""
    ensures Pure(s) <==> Pure(s[..|s| - 1]) && TailPure(s)
  {
    var n := |s| - 1;
    forall i: nat, j: nat | i <= j <= n
      ensures AlnumIn(s[..n], i, j) <==> AlnumIn(s, i, j)
      ensures LettersIn(s[..n], i, j) <==> LettersIn(s, i, j)
      ensures HexIn(s[..n], i, j) <==> HexIn(s, i, j)
    {
      SameStretch(s, n, i, j);
    }
    var a := TailStart(s);
    assert a > 0 ==> !IsAlnum(s[a - 1]);
    if Pure(s[..n]) && TailPure(s) {
      forall i: nat, j: nat | i <= j <= |s| && AlnumIn(s, i, j)
        ensures LettersIn(s, i, j) || HexIn(s, i, j)
      {
        if j <= n {
          assert AlnumIn(s[..n], i, j);
        }
      }
    }
  }

  /** What the scanner's state says about the text read so far. */
  lemma {:induction false} ScanSays(s: string)
    ensures Scanned(START, s).Scan? <==> (forall k :: 0 <= k < |s| ==> IsIdChar(s[k])) && Pure(s)
    ensures var st := Scanned(START, s);
      st.Scan? ==>
        && st.segments == SegmentCount(s)
        && (st.open <==> s != "" && IsAlnum(s[|s| - 1]))
        && (st.open ==> st.letters == LettersIn(s, TailStart(s), |s|) && st.hex == HexIn(s, TailStart(s), |s|))
    decreases |s|
  {
    if s != "" {
      var front, c := s[..|s| - 1], s[|s| - 1];
      ScanSays(front);
      ScanSnoc(START, s);
      PureSnoc(s);
      TailSnoc(s);
      assert (forall k :: 0 <= k < |s| ==> IsIdChar(s[k]))
        <==> (forall k :: 0 <= k < |front| ==> IsIdChar(front[k])) && IsIdChar(c);
    }
  }

  /** The trailing stretch grows by a letter or digit, and is closed by anything else. */
  lemma TailSnoc(s: string)
    requires s != ""
    ensures var n := |s| - 1;
      var front, c, a := s[..n], s[n], TailStart(s);
      if IsAlnum(c) then
        && a == TailStart(front)
        && (LettersIn(s, a, |s|) <==> LettersIn(front, a, n) && IsLetter(c))
        && (HexIn(s, a, |s|) <==> HexIn(front, a, n) && IsHex(c))
        && (a == n <==> front == "" || !IsAlnum(front[n - 1]))
      else a == |s|
  {
    var n := |s| - 1;
    if IsAlnum(s[n]) {
      SameStretch(s, n, TailStart(s), n);
      assert LettersIn(s, TailStart(s), |s|) <==> LettersIn(s, TailStart(s), n) && IsLetter(s[n]);
      assert HexIn(s, TailStart(s), |s|) <==> HexIn(s, TailStart(s), n) && IsHex(s[n]);
    }
  }

  /** The id shape, as a statement about the text: bounded, in the charset, every stretch of
      letters and digits all letters or all hex, and at least two such stretches. */
  lemma IdShapeIff(value: string)
    ensures IsIdShape(value) <==>
      && 0 < |value| <= 128
      && (forall k :: 0 <= k < |value| ==> 
            var c := value[k]; IsLetter(c) || IsDigit(c) || c == '_' || c == '-' || c == '#')
      && Pure(value)
      && SegmentCount(value) >= 2
  {
    ScanSays(value);
  }

  // ---------------------------------------------------------------- strategy names

  /** A typed column is shown as it is only if it has the shape of an id. */
  function Column(value: string): string {
    if IsIdShape(value) then value else R.Scrubbed(value)
  }

  predicate HasAlnum(name: string) {
    exists k :: 0 <= k < |name| && IsAlnum(name[k])
  }

  datatype Reason =
    | EmptyName
    | TooLong
    | IllFormed
    | BadCharacter
    | NoLetterOrDigit
    | MixedSegment(segment: string, suggestion: Option<string>)
    | LooksLikeCredential

  /** How a typed column is shown. The rule for names is stated against the real renderer; what
      follows from the rest of it holds for any. */
  type Renderer = string -> string

  function Columns(): Renderer {
    value => Column(value)
  }

  /** Why a name is refused, or nothing. The suggestion is checked by the same rule; it has no
      mixed segment, so the recursion ends there. */
  function Explain(show: Renderer, name: string): Option<Reason>
    decreases if FirstMixed(name) != "" then 1 else 0
  {
    if name == "" then Some(EmptyName)
    else if |name| > MAX_NAME then Some(TooLong)
    else if Utf8.Canonical(name) != name then Some(IllFormed)
    else if !AllToken(name) then Some(BadCharacter)
    else if !HasAlnum(name) then Some(NoLetterOrDigit)
    else if FirstMixed(name) != "" then
      var suggestion := SplitMixed(name);
      SplitLeavesNoMixed(name);
      var fits := suggestion != name && Explain(show, suggestion).None?;
      Some(MixedSegment(FirstMixed(name), if fits then Some(suggestion) else None))
    else if show(name) != name then Some(LooksLikeCredential)
    else None
  }

  predicate IsValidName(show: Renderer, name: string) {
    Explain(show, name).None?
  }

  /** The spelling suggested for a refused name. */
  function Suggested(show: Renderer, name: string): Option<string> {
    match Explain(show, name)
    case Some(MixedSegment(_, suggestion)) => suggestion
    case _ => None
  }

  lemma TokenIsAscii(name: string)
    requires AllToken(name)
    ensures Utf8.Canonical(name) == name
  {
    assert forall k :: 0 <= k < |name| ==> name[k] as int < 0x80;
    Utf8.AsciiIsCanonical(name);
  }

  /** Exactly the valid names; and whatever is suggested instead of a name is itself valid. The
      charset makes the check for well-formed text redundant. */
  lemma ValidNameIff(show: Renderer, name: string)
    ensures IsValidName(show, name) <==>
      && 0 < |name| <= 64
      && (forall k :: 0 <= k < |name| ==> 
            var c := name[k]; IsLetter(c) || IsDigit(c) || c == '_' || c == '-')
      && (exists k :: 0 <= k < |name| && (IsLetter(name[k]) || IsDigit(name[k])))
      && Pure(name) && show(name) == name
    ensures Suggested(show, name).Some? ==> IsValidName(show, Suggested(show, name).value)
  {
    if AllToken(name) {
      TokenIsAscii(name);
      MixedIffFails(START, name);
      ScanSays(name);
    }
  }

  // ---------------------------------------------------------------- what is minted from a valid name

  /** A group of hex digits behind a '-' passes, and is one more segment. */
  lemma GroupPasses(st: Scan, s: string, mark: string, g: string)
    requires Scanned(st, s).Scan? && (mark == "-" || mark == "#") && g != "" && AllHex(g)
    ensures Scanned(st, s + (mark + g)).Scan?
    ensures Scanned(st, s + (mark + g)).segments == Scanned(st, s).segments + 1
  {
    var at := Scanned(st, s);
    ScanAppend(st, s, mark + g);
    assert (mark + g)[1..] == g;
    SegmentScan(Feed(at, mark[0]), g);
  }

  /** A minted ref, group by group. */
  lemma RefInGroups(name: string, sig: string, a: string, b: string, c: string, d: string, e: string)
    ensures name + "-" + sig + "-" + (a + "-" + b + "-" + c + "-" + d + "-" + e)
      == name + ("-" + sig) + ("-" + a) + ("-" + b) + ("-" + c) + ("-" + d) + ("-" + e)
  {
  }

  lemma LowerHexIsHex(s: string)
    requires U.IsLowerHex(s)
    ensures AllHex(s)
  {
    assert forall c :: c in HEX ==> IsHex(c);
  }

  lemma SixGroupsPass(name: string, sig: string, g: seq<string>)
    requires Scanned(START, name).Scan? && sig != "" && AllHex(sig)
    requires |g| == 5 && forall k :: 0 <= k < 5 ==> g[k] != "" && AllHex(g[k])
    ensures var ref := name + "-" + sig + "-" + (g[0] + "-" + g[1] + "-" + g[2] + "-" + g[3] + "-" + g[4]);
      Scanned(START, ref).Scan? && Scanned(START, ref).segments == Scanned(START, name).segments + 6
  {
    RefInGroups(name, sig, g[0], g[1], g[2], g[3], g[4]);
    GroupPasses(START, name, "-", sig);
    var s1 := name + ("-" + sig);
    GroupPasses(START, s1, "-", g[0]);
    var s2 := s1 + ("-" + g[0]);
    GroupPasses(START, s2, "-", g[1]);
    var s3 := s2 + ("-" + g[1]);
    GroupPasses(START, s3, "-", g[2]);
    var s4 := s3 + ("-" + g[2]);
    GroupPasses(START, s4, "-", g[3]);
    GroupPasses(START, s4 + ("-" + g[3]), "-", g[4]);
  }

  /** The first eight characters of a signature in hex. */
  lemma Sig8IsHex(signature: string)
    requires signature != "" && U.IsLowerHex(signature)
    ensures C.Sig8(signature) != "" && |C.Sig8(signature)| <= 8 && AllHex(C.Sig8(signature))
  {
    LowerHexIsHex(signature);
  }

  /** The ref minted for a signal of a strategy. */
  function Minted(name: string, signature: string, hi: nat, lo: nat): string {
    C.MakeClientRef(name, signature, U.FormatUuidV4(hi, lo))
  }

  lemma NameScans(show: Renderer, name: string)
    requires IsValidName(show, name)
    ensures Scanned(START, name).Scan? && Scanned(START, name).segments >= 1 && |name| <= MAX_NAME
  {
    NameParts(show, name);
    MixedIffFails(START, name);
  }

  lemma NameParts(show: Renderer, name: string)
    requires IsValidName(show, name)
    ensures |name| <= MAX_NAME && AllToken(name) && HasAlnum(name) && FirstMixed(name) == ""
  {
  }

  lemma GroupsAreHex(hi: nat, lo: nat)
    ensures var g := U.Groups(hi, lo); forall k :: 0 <= k < 5 ==> g[k] != "" && AllHex(g[k])
  {
    var g := U.Groups(hi, lo);
    U.UuidShape(hi, lo);
    forall k | 0 <= k < 5
      ensures g[k] != "" && AllHex(g[k])
    {
      assert U.IsLowerHex(g[k]);
      LowerHexIsHex(g[k]);
    }
  }

  lemma MintedScans(show: Renderer, name: string, signature: string, hi: nat, lo: nat)
    requires IsValidName(show, name) && signature != "" && U.IsLowerHex(signature)
    ensures var ref := Minted(name, signature, hi, lo);
      Scanned(START, ref).Scan? && Scanned(START, ref).segments >= 7 && |name| + 39 <= |ref| <= |name| + 46
  {
    NameScans(show, name);
    GroupsAreHex(hi, lo);
    U.UuidShape(hi, lo);
    Sig8IsHex(signature);
    SixGroupsPass(name, C.Sig8(signature), U.Groups(hi, lo));
  }

  /** Every ref minted from a valid name has the shape of an id. */
  lemma MintedIsIdShape(show: Renderer, name: string, signature: string, hi: nat, lo: nat)
    requires IsValidName(show, name) && signature != "" && U.IsLowerHex(signature)
    ensures IsIdShape(Minted(name, signature, hi, lo))
  {
    MintedScans(show, name, signature, hi, lo);
    NameScans(show, name);
  }

  /** So has every child of it, exactly if the number of the child leaves it within the bound, as a
      number of up to seventeen digits always does. */
  lemma MintedChildIsIdShape(show: Renderer, name: string, signature: string, hi: nat, lo: nat, k: int)
    requires IsValidName(show, name) && signature != "" && U.IsLowerHex(signature) && k >= 1
    ensures var child := C.ChildRef(Minted(name, signature, hi, lo), k);
      (IsIdShape(child) <==> |child| <= MAX_ID) && (|J.PrintInt(k)| <= 17 ==> |child| <= MAX_ID)
  {
    MintedScans(show, name, signature, hi, lo);
    NameScans(show, name);
    ChildScans(Minted(name, signature, hi, lo), k);
  }

  lemma ChildScans(ref: string, k: int)
    requires Scanned(START, ref).Scan? && Scanned(START, ref).segments >= 1 && k >= 1
    ensures IsIdShape(C.ChildRef(ref, k)) <==> |C.ChildRef(ref, k)| <= MAX_ID
    ensures |C.ChildRef(ref, k)| == |ref| + 1 + |J.PrintInt(k)|
  {
    var digits := J.PrintInt(k);
    assert forall q :: 0 <= q < |digits| ==> IsDigit(digits[q]);
    GroupPasses(START, ref, "#", digits);
    assert C.ChildRef(ref, k) == ref + ("#" + digits);
  }

  // ---------------------------------------------------------------- the rendered block

  datatype Kind = Id | Symbol

  datatype Field = Field(key: string, value: string, kind: Kind)

  predicate IsSymbolShape(value: string) {
    0 < |value| <= MAX_SYMBOL && forall k :: 0 <= k < |value| ==> 'A' <= value[k] <= 'Z' || IsDigit(value[k])
  }

  predicate BlockSafe(s: string) {
    forall k :: 0 <= k < |s| ==> IsIdChar(s[k]) || s[k] == '*'
  }

  predicate SafeKey(key: string) {
    key != "" && forall k :: 0 <= k < |key| ==> IsIdChar(key[k])
  }

  function RenderColumn(f: Field): string {
    match f.kind
    case Symbol => if IsSymbolShape(f.value) then f.value else R.Scrubbed(f.value)
    case Id => Column(f.value)
  }

  /** A column as it appears in the block: within the bound and the charset, or the marker. */
  function Rendered(f: Field): string {
    var r := RenderColumn(f);
    if |r| > MAX_ID || !BlockSafe(r) then R.MARKER else r
  }

  predicate IsShown(f: Field) {
    f.value != "" && SafeKey(f.key)
  }

  function Entry(f: Field, first: bool): string {
    (if first then " [" else " ") + f.key + "=" + Rendered(f)
  }

  /** The fields that are shown, each behind its separator. */
  function Body(fields: seq<Field>): string {
    if fields == [] then ""
    else
      var front, f := Body(fields[..|fields| - 1]), fields[|fields| - 1];
      if IsShown(f) then front + Entry(f, front == "") else front
  }

  method RenderBlock(fields: seq<Field>) returns (block: string)
    ensures block == if Body(fields) == "" then "" else Body(fields) + "]"
  {
    block := "";
    for i := 0 to |fields|
      invariant block == Body(fields[..i])
    {
      var f := fields[i];
      assert fields[..i + 1][..i] == fields[..i];
      if f.value == "" || !SafeKey(f.key) {
        continue;
      }
      var rendered := Rendered(f);
      block := block + ((if block == "" then " [" else " ") + f.key + "=" + rendered);
    }
    assert fields[..|fields|] == fields;
    if block != "" {
      block := block + "]";
    }
  }

  /** What may stand behind the opening of the block. */
  predicate Contained(s: string) {
    forall k :: 0 <= k < |s| ==> IsIdChar(s[k]) || s[k] == '*' || s[k] == '=' || s[k] == ' '
  }

  lemma EntryIsContained(f: Field, first: bool)
    requires IsShown(f)
    ensures var e, n := Entry(f, first), if first then 2 else 0;
      |e| > n && Contained(e[n..]) && (first ==> e[..2] == " [")
    ensures Occurrences(Entry(f, first), '=') == 1
  {
    RenderedIsSafe(f);
    var open := if first then " [" else " ";
    OccurrencesAppend(open + f.key + "=", Rendered(f), '=');
    OccurrencesAppend(open + f.key, "=", '=');
    OccurrencesNone(open + f.key, '=');
    OccurrencesNone(Rendered(f), '=');
  }

  lemma ContainedJoin(front: string, e: string)
    ensures front == "" ==> front + e == e
    ensures |front| > 2 && Contained(front[2..]) && Contained(e[0..]) ==> Contained((front + e)[2..])
    ensures |front| > 2 ==> (front + e)[..2] == front[..2]
  {
    assert |front| > 2 ==> (front + e)[2..] == front[2..] + e;
  }

  /** No value can close the block, forge a field or break the line: behind its opening the body
      holds nothing but characters of ids, markers, separating spaces, and one '=' per field. */
  lemma {:induction false} BodyIsContained(fields: seq<Field>)
    ensures var b := Body(fields);
      b != "" ==> |b| > 2 && b[..2] == " [" && Contained(b[2..])
    ensures Occurrences(Body(fields), '=') == Shown(fields)
    ensures Shown(fields) > 0 <==> Body(fields) != ""
  {
    if fields != [] {
      var front, f := Body(fields[..|fields| - 1]), fields[|fields| - 1];
      BodyIsContained(fields[..|fields| - 1]);
      if IsShown(f) {
        var e := Entry(f, front == "");
        EntryIsContained(f, front == "");
        OccurrencesAppend(front, e, '=');
        ContainedJoin(front, e);
      }
    }
  }

  /** Reading a block back, entry by entry from its end. */
  function ReadBack(body: string): (pairs: seq<(string, string)>)
    decreases |body|
  {
    if ' ' !in body then []
    else
      var p := LastOf(body, ' ');
      var front := body[..p];
      ReadBack(front) + [ReadEntry(body[p + 1..], front == "")]
  }

  /** One entry; the first stands behind the opening bracket. */
  function ReadEntry(entry: string, first: bool): (string, string) {
    ReadPair(if first && entry != "" then entry[1..] else entry)
  }

  function ReadPair(text: string): (string, string) {
    if '=' in text then Cut(text, LastOf(text, '=')) else ("", text)
  }

  function Cut(text: string, q: nat): (string, string)
    requires q < |text|
  {
    (text[..q], text[q + 1..])
  }

  function LastOf(s: string, c: char): (p: nat)
    requires c in s
    ensures p < |s| && s[p] == c && c !in s[p + 1..]
  {
    if s[|s| - 1] == c then |s| - 1
    else
      assert s == s[..|s| - 1] + [s[|s| - 1]];
      LastOf(s[..|s| - 1], c)
  }

  lemma OnlyLast(s: string, c: char, p: nat, q: nat)
    requires p < |s| && q < |s| && s[p] == c && s[q] == c
    requires c !in s[p + 1..] && forall k :: q < k < |s| ==> s[k] != c
    ensures p == q
  {
    assert forall k :: p < k < |s| ==> s[k] == s[p + 1..][k - p - 1];
  }

  lemma LastOfIs(a: string, c: char, b: string)
    requires c !in b
    ensures c in a + [c] + b && LastOf(a + [c] + b, c) == |a|
  {
    var s := a + [c] + b;
    assert s[|a|] == c;
    assert forall k :: |a| < k < |s| ==> s[k] == b[k - |a| - 1];
    OnlyLast(s, c, LastOf(s, c), |a|);
  }

  /** The shown fields as keys and rendered values, in order. */
  function Pairs(fields: seq<Field>): seq<(string, string)> {
    if fields == [] then []
    else
      var f := fields[|fields| - 1];
      Pairs(fields[..|fields| - 1]) + if IsShown(f) then [(f.key, Rendered(f))] else []
  }

  /** The block says exactly which fields are shown, in order, and what each of them is. */
  lemma {:induction false} BlockReadsBack(fields: seq<Field>)
    ensures ReadBack(Body(fields)) == Pairs(fields)
  {
    if fields != [] {
      var front, f := Body(fields[..|fields| - 1]), fields[|fields| - 1];
      BlockReadsBack(fields[..|fields| - 1]);
      if IsShown(f) {
        RenderedIsSafe(f);
        EntryReadsBack(front, f.key, Rendered(f), Body(fields));
      }
    }
  }

  lemma EntryReadsBack(front: string, key: string, value: string, body: string)
    requires SafeKey(key) && BlockSafe(value)
    requires body == front + ((if front == "" then " [" else " ") + key + "=" + value)
    ensures ReadBack(body) == ReadBack(front) + [(key, value)]
  {
    NoBreaks(key, value);
    PartsReadBack(front, key, value, body);
  }

  lemma NoBreaks(key: string, value: string)
    requires SafeKey(key) && BlockSafe(value)
    ensures ' ' !in key && ' ' !in value && '=' !in value
  {
  }

  lemma PartsReadBack(front: string, key: string, value: string, body: string)
    requires ' ' !in key && ' ' !in value && '=' !in value
    requires body == front + ((if front == "" then " [" else " ") + key + "=" + value)
    ensures ReadBack(body) == ReadBack(front) + [(key, value)]
  {
    var text := key + ['='] + value;
    var entry := if front == "" then "[" + text else text;
    TextIsRead(text, key, value);
    EntryText(front, key, value, text, entry);
    LastEntry(front, entry, body);
  }

  lemma EntryText(front: string, key: string, value: string, text: string, entry: string)
    requires text == key + ['='] + value && entry == if front == "" then "[" + text else text
    ensures front + ((if front == "" then " [" else " ") + key + "=" + value) == front + [' '] + entry
    ensures front == "" ==> entry != "" && entry[1..] == text
  {
  }

  lemma TextIsRead(text: string, key: string, value: string)
    requires text == key + ['='] + value && '=' !in value
    ensures ReadPair(text) == (key, value)
  {
    LastOfIs(key, '=', value);
    assert text[|key|] == '=' && text[..|key|] == key && text[|key| + 1..] == value;
  }

  lemma LastEntry(front: string, entry: string, body: string)
    requires body == front + [' '] + entry && ' ' !in entry
    ensures ReadBack(body) == ReadBack(front) + [ReadEntry(entry, front == "")]
  {
    LastOfIs(front, ' ', entry);
    assert body[..|front|] == front && body[|front| + 1..] == entry;
  }

  function Shown(fields: seq<Field>): nat {
    if fields == [] then 0
    else Shown(fields[..|fields| - 1]) + if IsShown(fields[|fields| - 1]) then 1 else 0
  }

  function Occurrences(s: string, c: char): nat {
    if s == "" then 0 else (if s[0] == c then 1 else 0) + Occurrences(s[1..], c)
  }

  lemma {:induction false} OccurrencesAppend(a: string, b: string, c: char)
    ensures Occurrences(a + b, c) == Occurrences(a, c) + Occurrences(b, c)
  {
    if a == "" {
      assert a + b == b;
    } else {
      assert (a + b)[1..] == a[1..] + b;
      OccurrencesAppend(a[1..], b, c);
    }
  }

  lemma {:induction false} OccurrencesNone(s: string, c: char)
    requires c !in s
    ensures Occurrences(s, c) == 0
  {
    if s != "" {
      OccurrencesNone(s[1..], c);
    }
  }

  lemma RenderedIsSafe(f: Field)
    ensures BlockSafe(Rendered(f)) && |Rendered(f)| <= MAX_ID
  {
    R.MarkerChars();
  }

  /** A column shows its value if that has the shape its kind allows, and otherwise what scrubbing leaves
      of it, unless that is too long or could break the block. */
  lemma RenderedSays(f: Field)
    ensures var v := f.value;
      var symbol := 0 < |v| <= 32 && forall k :: 0 <= k < |v| ==> 'A' <= v[k] <= 'Z' || '0' <= v[k] <= '9';
      var scrubbed := R.Scrubbed(v);
      var harmless := |scrubbed| <= 128 && forall k :: 0 <= k < |scrubbed| ==>
        var c := scrubbed[k]; IsLetter(c) || IsDigit(c) || c == '_' || c == '-' || c == '#' || c == '*';
      Rendered(f) == if (if f.kind == Symbol then symbol else IsIdShape(v)) then v
                     else if harmless then scrubbed else "***REDACTED***"
  {
    if IsIdShape(f.value) {
      IdShapeIff(f.value);
    }
  }

  lemma IdIsShown(key: string, value: string)
    requires IsIdShape(value)
    ensures Rendered(Field(key, value, Id)) == value
  {
    IdShapeIff(value);
  }

  /** What is minted from a valid name is shown in full: the name, every ref, and every child ref
      within the bound. */
  lemma MintedIsShown(name: string, signature: string, hi: nat, lo: nat, k: int, key: string)
    requires IsValidName(Columns(), name) && signature != "" && U.IsLowerHex(signature) && k >= 1
    requires |C.ChildRef(Minted(name, signature, hi, lo), k)| <= MAX_ID
    ensures var ref := Minted(name, signature, hi, lo);
      && Rendered(Field(key, name, Id)) == name
      && Rendered(Field(key, ref, Id)) == ref
      && Rendered(Field(key, C.ChildRef(ref, k), Id)) == C.ChildRef(ref, k)
  {
    var ref := Minted(name, signature, hi, lo);
    MintedIsIdShape(Columns(), name, signature, hi, lo);
    MintedChildIsIdShape(Columns(), name, signature, hi, lo, k);
    IdIsShown(key, ref);
    IdIsShown(key, C.ChildRef(ref, k));
    ValidNameIff(Columns(), name);
  }
}
