/** UTF-8 canonicalisation of caller text (src/domain/utf8.cpp).

    A byte is a `char` below 256. A larger `char` falls in the same class as the bytes
    0xF5..0xFF (it can lead nothing and continue nothing), so no statement here has to
    exclude it.

    Two independent descriptions meet in this file. `Decode` follows the decoder of the
    source. `Encode`/`WellFormed` follow the table of section 4 of RFC 3629, and
    `IsMaximalSubpart` follows section 3.9 of the Unicode Standard; the lemmas join them. */
module Utf8 {
  import S = Sequences

  // U+FFFD as its three bytes.
  const REPLACEMENT: string := "\U{EF}\U{BF}\U{BD}"

  // ---------------------------------------------------------------- the decoder

  /** Length of the sequence that `lead` introduces, 0 if it can introduce none. */
  function SequenceLength(lead: int): (len: nat)
    ensures len <= 4
  {
    if lead < 0x80 then 1
    else if lead < 0xC2 then 0
    else if lead < 0xE0 then 2
    else if lead < 0xF0 then 3
    else if lead < 0xF5 then 4
    else 0
  }

  function SecondByteLow(lead: int): int {
    if lead == 0xE0 then 0xA0 else if lead == 0xF0 then 0x90 else 0x80
  }

  function SecondByteHigh(lead: int): int {
    if lead == 0xED then 0x9F else if lead == 0xF4 then 0x8F else 0xBF
  }

  /** May `c` stand at offset `k` (1, 2 or 3) of a sequence led by `lead`? */
  predicate Continues(lead: int, k: nat, c: char) {
    if k == 1 then SecondByteLow(lead) <= c as int <= SecondByteHigh(lead)
    else 0x80 <= c as int <= 0xBF
  }

  /** How many bytes of one sequence are present at the front of `s`. */
  function Matched(s: string, got: nat): (k: nat)
    requires 1 <= got <= |s| && got <= SequenceLength(s[0] as int)
    ensures got <= k <= SequenceLength(s[0] as int)
    ensures k <= |s|
    ensures forall j :: got <= j < k ==> Continues(s[0] as int, j, s[j])
    ensures k < SequenceLength(s[0] as int) && k < |s| ==> !Continues(s[0] as int, k, s[k])
    decreases |s| - got
  {
    if got < SequenceLength(s[0] as int) && got < |s| && Continues(s[0] as int, got, s[got])
    then Matched(s, got + 1)
    else got
  }

  /** What the decoder takes from the front of a non-empty text: `size` bytes, which are
      a complete sequence exactly when `complete`. */
  datatype Unit = Unit(size: nat, complete: bool)

  function Decode(s: string): (u: Unit)
    requires s != ""
    ensures 1 <= u.size <= |s|
  {
    var len := SequenceLength(s[0] as int);
    if len == 0 then Unit(1, false)
    else
      var got := Matched(s, 1);
      Unit(got, got == len)
  }

  /** The text with every ill-formed piece replaced. */
  function Canonical(s: string): string {
    if s == "" then ""
    else
      var u := Decode(s);
      (if u.complete then s[..u.size] else REPLACEMENT) + Canonical(s[u.size..])
  }

  /** Canonicalisation of a suffix, by index. */
  lemma CanonicalAt(text: string, i: nat)
    requires i < |text|
    ensures var u := Decode(text[i..]);
      && i + u.size <= |text|
      && Canonical(text[i..])
         == (if u.complete then text[i..i + u.size] else REPLACEMENT) + Canonical(text[i + u.size..])
      && (SequenceLength(text[i] as int) == 0 ==> u == Unit(1, false))
      && (SequenceLength(text[i] as int) > 0 ==>
            u == Unit(Matched(text[i..], 1), Matched(text[i..], 1) == SequenceLength(text[i] as int)))
  {
    var u := Decode(text[i..]);
    assert text[i..][..u.size] == text[i..i + u.size];
    assert text[i..][u.size..] == text[i + u.size..];
  }

  /** `out` is what canonicalisation has written when it stands at `i`. */
  ghost predicate WrittenAt(text: string, i: nat, out: string) {
    i <= |text| && out + Canonical(text[i..]) == Canonical(text)
  }

  /** What is consumed at `i`, and what is written for it. */
  function TakenAt(text: string, i: nat): (t: (nat, string))
    requires i < |text|
    ensures i + t.0 <= |text|
  {
    var u := Decode(text[i..]);
    (u.size, if u.complete then text[i..i + u.size] else REPLACEMENT)
  }

  lemma WrittenStep(text: string, i: nat, out: string, size: nat, piece: string, next: nat, out': string)
    requires i < |text| && WrittenAt(text, i, out) && (size, piece) == TakenAt(text, i)
    requires next == i + size && out' == out + piece
    ensures WrittenAt(text, next, out')
  {
    CanonicalAt(text, i);
    var rest := Canonical(text[i + size..]);
    assert Canonical(text[i..]) == piece + rest;
    S.Regroup(out, piece, rest);
  }

  lemma WrittenEnds(text: string, out: string)
    ensures out == "" ==> WrittenAt(text, 0, out)
    ensures WrittenAt(text, |text|, out) ==> out == Canonical(text)
  {
    assert text[0..] == text && text[|text|..] == "";
    assert "" + Canonical(text) == Canonical(text) && out + "" == out;
  }

  /** The index loop of the source. */
  method CanonicalText(text: string) returns (out: string)
    ensures out == Canonical(text)
  {
    out := "";
    var i := 0;
    WrittenEnds(text, out);
    while i < |text|
      invariant WrittenAt(text, i, out)
      decreases |text| - i
    {
      i, out := WriteUnit(text, i, out);
    }
    WrittenEnds(text, out);
  }

  method WriteUnit(text: string, i: nat, out: string) returns (next: nat, out': string)
    requires i < |text| && WrittenAt(text, i, out)
    ensures i < next && WrittenAt(text, next, out')
  {
    var size, piece := TakeUnit(text, i);
    next, out' := i + size, out + piece;
    WrittenStep(text, i, out, size, piece, next, out');
  }

  /** One round of the loop: what is consumed at `i`, and what is written for it. */
  method TakeUnit(text: string, i: nat) returns (size: nat, piece: string)
    requires i < |text|
    ensures (size, piece) == TakenAt(text, i) && i + size <= |text|
  {
    var len := SequenceLength(text[i] as int);
    if len == 0 {
      return 1, REPLACEMENT;
    }
    if len == 1 {
      assert text[i..i + 1] == [text[i]];
      return 1, [text[i]];
    }
    size := MatchedAt(text, i);
    if size == len {
      piece := text[i..i + len];
    } else {
      piece := REPLACEMENT;
    }
  }

  /** The inner loop: consume as much of one sequence as is present. */
  method MatchedAt(text: string, i: nat) returns (got: nat)
    requires i < |text| && 1 <= SequenceLength(text[i] as int)
    ensures got == Matched(text[i..], 1)
  {
    got := 1;
    var len := SequenceLength(text[i] as int);
    while got < len && i + got < |text| && Continues(text[i] as int, got, text[i + got])
      invariant 1 <= got <= len && i + got <= |text|
      invariant Matched(text[i..], 1) == Matched(text[i..], got)
    {
      assert text[i..][got] == text[i + got];
      got := got + 1;
    }
    assert i + got < |text| ==> text[i..][got] == text[i + got];
  }

  // ---------------------------------------------------------------- RFC 3629

  predicate Scalar(cp: int) {
    0 <= cp <= 0x10FFFF && !(0xD800 <= cp <= 0xDFFF)
  }

  /** The encoding table of section 3 of RFC 3629. */
  function Encode(cp: int): (e: string)
    requires Scalar(cp)
    ensures 1 <= |e| <= 4
  {
    if cp < 0x80 then [cp as char]
    else
      var p := cp / 0x40;
      if cp < 0x800 then [(0xC0 + p) as char, Tail(cp)]
      else
        var q := p / 0x40;
        if cp < 0x10000 then [(0xE0 + q) as char, Tail(p), Tail(cp)]
        else [(0xF0 + q / 0x40) as char, Tail(q), Tail(p), Tail(cp)]
  }

  /** A continuation byte carrying the low six bits of `n`. */
  function Tail(n: int): char
    requires 0 <= n
  {
    (0x80 + n % 0x40) as char
  }

  function EncodeAll(cps: seq<int>): string
    requires forall cp :: cp in cps ==> Scalar(cp)
  {
    if cps == [] then "" else Encode(cps[0]) + EncodeAll(cps[1..])
  }

  /** `s` is UTF-8: some sequence of scalar values encodes to it. */
  ghost predicate WellFormed(s: string) {
    exists cps: seq<int> :: (forall cp :: cp in cps ==> Scalar(cp)) && EncodeAll(cps) == s
  }

  /** `p` starts the encoding of some scalar value. */
  ghost predicate StartsScalar(p: string) {
    exists cp :: Scalar(cp) && p <= Encode(cp)
  }

  /** Definition D93b of the Unicode Standard for an offset at which no complete sequence
      starts: the longest prefix that starts a well-formed sequence, or one byte. */
  ghost predicate IsMaximalSubpart(s: string, k: nat) {
    && 1 <= k <= |s|
    && (k == 1 || StartsScalar(s[..k]))
    && forall m :: k < m <= |s| ==> !StartsScalar(s[..m])
  }

  /** The scalar value of a complete sequence. */
  function ScalarOf(e: string): int
    requires 1 <= |e| <= 4
  {
    if |e| == 1 then e[0] as int
    else if |e| == 2 then (e[0] as int - 0xC0) * 0x40 + Low(e[1])
    else if |e| == 3 then ((e[0] as int - 0xE0) * 0x40 + Low(e[1])) * 0x40 + Low(e[2])
    else (((e[0] as int - 0xF0) * 0x40 + Low(e[1])) * 0x40 + Low(e[2])) * 0x40 + Low(e[3])
  }

  function Low(c: char): int {
    c as int - 0x80
  }

  /** `p` passes the byte tests of the decoder at every offset it has. */
  predicate Accepted(p: string) {
    && 1 <= |p| <= SequenceLength(p[0] as int)
    && forall j :: 1 <= j < |p| ==> Continues(p[0] as int, j, p[j])
  }

  lemma EncodeIsAccepted(cp: int)
    requires Scalar(cp)
    ensures Accepted(Encode(cp)) && |Encode(cp)| == SequenceLength(Encode(cp)[0] as int)
    ensures ScalarOf(Encode(cp)) == cp
  {
  }

  lemma CompleteSequenceIsEncoding(e: string)
    requires Accepted(e) && |e| == SequenceLength(e[0] as int)
    ensures Scalar(ScalarOf(e)) && Encode(ScalarOf(e)) == e
  {
    if |e| == 2 {
      assert Continues(e[0] as int, 1, e[1]);
      assert ScalarOf(e) / 0x40 == e[0] as int - 0xC0;
    } else if |e| == 3 {
      CompleteThree(e);
    } else if |e| == 4 {
      CompleteFour(e);
    }
  }

  lemma CompleteThree(e: string)
    requires Accepted(e) && |e| == 3 == SequenceLength(e[0] as int)
    ensures Scalar(ScalarOf(e)) && Encode(ScalarOf(e)) == e
  {
    assert Continues(e[0] as int, 1, e[1]) && Continues(e[0] as int, 2, e[2]);
    assert ScalarOf(e) / 0x40 == (e[0] as int - 0xE0) * 0x40 + Low(e[1]);
  }

  lemma CompleteFour(e: string)
    requires Accepted(e) && |e| == 4 == SequenceLength(e[0] as int)
    ensures Scalar(ScalarOf(e)) && Encode(ScalarOf(e)) == e
  {
    assert Continues(e[0] as int, 1, e[1]) && Continues(e[0] as int, 2, e[2])
        && Continues(e[0] as int, 3, e[3]);
    var high := (e[0] as int - 0xF0) * 0x40 + Low(e[1]);
    assert ScalarOf(e) / 0x40 == high * 0x40 + Low(e[2]);
    assert ScalarOf(e) / 0x40 / 0x40 == high;
  }

  /** A byte string passes the decoder's tests exactly when it starts some encoding. */
  lemma AcceptedIffStartsScalar(p: string)
    requires p != ""
    ensures Accepted(p) <==> StartsScalar(p)
  {
    if StartsScalar(p) {
      var cp :| Scalar(cp) && p <= Encode(cp);
      EncodeIsAccepted(cp);
    }
    if Accepted(p) {
      var full := Completed(p);
      CompleteSequenceIsEncoding(full);
      assert p <= Encode(ScalarOf(full));
    }
  }

  /** Any accepted prefix can be completed: fill up with the least continuation bytes. */
  ghost function Completed(p: string): (e: string)
    requires Accepted(p)
    ensures p <= e && Accepted(e) && |e| == SequenceLength(e[0] as int)
    decreases 4 - |p|
  {
    if |p| == SequenceLength(p[0] as int) then p
    else
      var next := p + [(if |p| == 1 then SecondByteLow(p[0] as int) else 0x80) as char];
      Completed(next)
  }

  lemma EncodedPrefixIsComplete(s: string, e: string)
    requires Accepted(e) && |e| == SequenceLength(e[0] as int) && e <= s
    ensures Decode(s) == Unit(|e|, true)
  {
    assert forall j :: 0 <= j < |e| ==> e[j] == s[j];
    assert Matched(s, 1) <= |e|;
  }

  /** `Decode` reports a complete sequence exactly when an encoded scalar value is there, and
      otherwise consumes exactly one maximal subpart. */
  lemma DecodeMeetsUnicode(s: string)
    requires s != ""
    ensures var u := Decode(s);
      && (u.complete <==> exists cp :: Scalar(cp) && Encode(cp) <= s)
      && (u.complete ==> Scalar(ScalarOf(s[..u.size])) && Encode(ScalarOf(s[..u.size])) == s[..u.size])
      && (!u.complete ==> IsMaximalSubpart(s, u.size))
  {
    var u := Decode(s);
    if u.complete {
      var e := s[..u.size];
      CompleteSequenceIsEncoding(e);
      assert Encode(ScalarOf(e)) <= s;
    } else {
      if SequenceLength(s[0] as int) != 0 {
        assert Accepted(s[..u.size]);
        AcceptedIffStartsScalar(s[..u.size]);
      }
      forall m | u.size < m <= |s|
        ensures !StartsScalar(s[..m])
      {
        AcceptedIffStartsScalar(s[..m]);
        assert s[..m][u.size] == s[u.size];
      }
      forall cp | Scalar(cp)
        ensures !(Encode(cp) <= s)
      {
        EncodeIsAccepted(cp);
        if Encode(cp) <= s {
          EncodedPrefixIsComplete(s, Encode(cp));
          assert false;
        }
      }
    }
  }

  // ---------------------------------------------------------------- well-formed text

  /** An encoded scalar at the front is what the decoder takes. */
  lemma DecodeEncoded(cp: int, rest: string)
    requires Scalar(cp)
    ensures Decode(Encode(cp) + rest) == Unit(|Encode(cp)|, true)
  {
    var s := Encode(cp) + rest;
    EncodeIsAccepted(cp);
    EncodedPrefixIsComplete(s, Encode(cp));
  }

  lemma EncodeAllAppend(a: seq<int>, b: seq<int>)
    requires forall cp :: cp in a + b ==> Scalar(cp)
    ensures EncodeAll(a + b) == EncodeAll(a) + EncodeAll(b)
  {
    if a == [] {
      assert a + b == b;
    } else {
      assert (a + b)[1..] == a[1..] + b;
      EncodeAllAppend(a[1..], b);
    }
  }

  lemma WellFormedEmpty()
    ensures WellFormed("")
  {
    assert EncodeAll([]) == "";
  }

  lemma WellFormedCons(cp: int, rest: string)
    requires Scalar(cp) && WellFormed(rest)
    ensures WellFormed(Encode(cp) + rest)
  {
    var cps :| (forall c :: c in cps ==> Scalar(c)) && EncodeAll(cps) == rest;
    assert ([cp] + cps)[1..] == cps;
    assert EncodeAll([cp] + cps) == Encode(cp) + rest;
  }

  lemma WellFormedAppend(a: string, b: string)
    requires WellFormed(a) && WellFormed(b)
    ensures WellFormed(a + b)
  {
    var x :| (forall c :: c in x ==> Scalar(c)) && EncodeAll(x) == a;
    var y :| (forall c :: c in y ==> Scalar(c)) && EncodeAll(y) == b;
    EncodeAllAppend(x, y);
  }

  /** Two decodings of the same bytes are the same scalar values. */
  lemma {:induction false} EncodingIsUnambiguous(a: seq<int>, b: seq<int>)
    requires forall cp :: cp in a ==> Scalar(cp)
    requires forall cp :: cp in b ==> Scalar(cp)
    requires EncodeAll(a) == EncodeAll(b)
    ensures a == b
  {
    if a != [] && b != [] {
      DecodeEncoded(a[0], EncodeAll(a[1..]));
      DecodeEncoded(b[0], EncodeAll(b[1..]));
      var n := |Encode(a[0])|;
      assert EncodeAll(a)[..n] == Encode(a[0]) && EncodeAll(b)[..n] == Encode(b[0]);
      EncodeIsAccepted(a[0]);
      EncodeIsAccepted(b[0]);
      assert EncodeAll(a)[n..] == EncodeAll(a[1..]) && EncodeAll(b)[n..] == EncodeAll(b[1..]);
      EncodingIsUnambiguous(a[1..], b[1..]);
      assert a == [a[0]] + a[1..] && b == [b[0]] + b[1..];
    }
  }

  // ---------------------------------------------------------------- what callers rely on

  /** The output is UTF-8, whatever the input. */
  lemma {:induction false} CanonicalIsWellFormed(s: string)
    ensures WellFormed(Canonical(s))
  {
    if s == "" {
      WellFormedEmpty();
    } else {
      var u := Decode(s);
      CanonicalIsWellFormed(s[u.size..]);
      DecodeMeetsUnicode(s);
      if u.complete {
        WellFormedCons(ScalarOf(s[..u.size]), Canonical(s[u.size..]));
      } else {
        assert Encode(0xFFFD) == REPLACEMENT;
        WellFormedCons(0xFFFD, Canonical(s[u.size..]));
      }
    }
  }

  /** A well-formed prefix is copied and does not influence what follows it. */
  lemma CanonicalAfterWellFormed(a: string, b: string)
    requires WellFormed(a)
    ensures Canonical(a + b) == a + Canonical(b)
  {
    var cps :| (forall c :: c in cps ==> Scalar(c)) && EncodeAll(cps) == a;
    CanonicalAfterEncoded(cps, b);
  }

  lemma {:induction false} CanonicalAfterEncoded(cps: seq<int>, b: string)
    requires forall cp :: cp in cps ==> Scalar(cp)
    ensures Canonical(EncodeAll(cps) + b) == EncodeAll(cps) + Canonical(b)
  {
    if cps == [] {
      assert EncodeAll(cps) + b == b;
    } else {
      var e, tl := Encode(cps[0]), EncodeAll(cps[1..]);
      CanonicalOfEncoded(cps[0], tl + b);
      CanonicalAfterEncoded(cps[1..], b);
      CanonicalBehindTwo(e, tl, b);
    }
  }

  lemma CanonicalBehindTwo(p: string, q: string, b: string)
    requires Canonical(p + (q + b)) == p + Canonical(q + b) && Canonical(q + b) == q + Canonical(b)
    ensures Canonical((p + q) + b) == (p + q) + Canonical(b)
  {
    S.Regroup(p, q, b);
    S.Regroup(p, q, Canonical(b));
  }

  lemma CanonicalOfEncoded(cp: int, rest: string)
    requires Scalar(cp)
    ensures Canonical(Encode(cp) + rest) == Encode(cp) + Canonical(rest)
  {
    var e := Encode(cp);
    var s := e + rest;
    DecodeEncoded(cp, rest);
    assert s[..|e|] == e && s[|e|..] == rest;
  }

  /** Exactly the well-formed texts are returned byte for byte. */
  lemma CanonicalIdentityIffWellFormed(s: string)
    ensures Canonical(s) == s <==> WellFormed(s)
  {
    if WellFormed(s) {
      CanonicalAfterWellFormed(s, "");
      assert s + "" == s;
    }
    CanonicalIsWellFormed(s);
  }

  lemma CanonicalIdempotent(s: string)
    ensures Canonical(Canonical(s)) == Canonical(s)
  {
    CanonicalIsWellFormed(s);
    CanonicalIdentityIffWellFormed(Canonical(s));
  }

  /** Pure ASCII text is canonical. */
  lemma {:induction false} AsciiIsCanonical(s: string)
    requires forall k :: 0 <= k < |s| ==> s[k] as int < 0x80
    ensures Canonical(s) == s
  {
    if s != "" {
      AsciiIsCanonical(s[1..]);
      assert s[..1] + s[1..] == s;
    }
  }

  /** The bytes below 0x80, in order. */
  function AsciiPart(s: string): string {
    if s == "" then ""
    else (if s[0] as int < 0x80 then [s[0]] else "") + AsciiPart(s[1..])
  }

  lemma {:induction false} AsciiPartAppend(a: string, b: string)
    ensures AsciiPart(a + b) == AsciiPart(a) + AsciiPart(b)
  {
    if a == "" {
      assert a + b == b;
    } else {
      assert (a + b)[1..] == a[1..] + b;
      AsciiPartAppend(a[1..], b);
    }
  }

  lemma {:induction false} NoAsciiPart(s: string)
    requires forall k :: 0 <= k < |s| ==> s[k] as int >= 0x80
    ensures AsciiPart(s) == ""
  {
    if s != "" {
      NoAsciiPart(s[1..]);
    }
  }

  lemma BrokenUnitHasNoAscii(s: string)
    requires s != "" && !Decode(s).complete
    ensures AsciiPart(s[..Decode(s).size]) == "" && AsciiPart(REPLACEMENT) == ""
  {
    var u := Decode(s);
    assert s[0] as int >= 0x80;
    forall k | 0 <= k < u.size
      ensures s[..u.size][k] as int >= 0x80
    {
      if k > 0 { assert Continues(s[0] as int, k, s[k]); }
    }
    NoAsciiPart(s[..u.size]);
    NoAsciiPart(REPLACEMENT);
  }

  /** No ASCII byte is created, dropped or moved. */
  lemma {:induction false} AsciiPreserved(s: string)
    ensures AsciiPart(Canonical(s)) == AsciiPart(s)
  {
    if s != "" {
      var u := Decode(s);
      var piece := if u.complete then s[..u.size] else REPLACEMENT;
      AsciiPreserved(s[u.size..]);
      assert s == s[..u.size] + s[u.size..];
      AsciiPartAppend(s[..u.size], s[u.size..]);
      AsciiPartAppend(piece, Canonical(s[u.size..]));
      if !u.complete {
        BrokenUnitHasNoAscii(s);
      }
    }
  }

  /** The text never shrinks; in particular a non-empty text stays non-empty. */
  lemma {:induction false} NeverShrinks(s: string)
    ensures |Canonical(s)| >= |s|
  {
    if s != "" {
      var u := Decode(s);
      NeverShrinks(s[u.size..]);
    }
  }

  /** An ASCII byte is a firewall: the text before it and the text after it are canonicalised
      on their own. Hence no two ASCII runs are joined and none is split. */
  lemma {:induction false} AsciiSeparates(a: string, c: char, b: string)
    requires c as int < 0x80
    ensures Canonical(a + [c] + b) == Canonical(a) + [c] + Canonical(b)
  {
    var s := a + [c] + b;
    if a == "" {
      assert s == [c] + b && s[1..] == b && s[..1] == [c];
      assert Decode(s) == Unit(1, true);
    } else {
      DecodeBeforeAscii(a, c, b);
      var u := Decode(a);
      AsciiSeparates(a[u.size..], c, b);
      assert s[..u.size] == a[..u.size];
      DropFromFirst(a, [c], b, u.size);
      var piece := if u.complete then a[..u.size] else REPLACEMENT;
      var tl := Canonical(a[u.size..]);
      S.Regroup(piece, tl + [c], Canonical(b));
      S.Regroup(piece, tl, [c]);
    }
  }

  lemma DropFromFirst(a: string, m: string, b: string, k: nat)
    requires k <= |a|
    ensures (a + m + b)[k..] == a[k..] + m + b
  {
  }

  lemma AsciiNeverContinues(lead: int, k: nat, c: char)
    requires c as int < 0x80
    ensures !Continues(lead, k, c)
  {
  }

  lemma DecodeBeforeAscii(a: string, c: char, b: string)
    requires a != "" && c as int < 0x80
    ensures Decode(a + [c] + b) == Decode(a)
  {
    var s := a + [c] + b;
    var u, v := Decode(a), Decode(s);
    assert s[0] == a[0];
    if SequenceLength(a[0] as int) > 1 {
      assert forall j :: 0 <= j < |a| ==> s[j] == a[j];
      if v.size > |a| {
        AsciiNeverContinues(a[0] as int, |a|, s[|a|]);
        assert false;
      }
    }
  }
}
