/** The text of a lock file (format_lock_payload and parse_lock_payload in
    src/platform/file_lock.cpp). It is what makes a lock file provably ours: a file cut anywhere
    inside its payload is not read as carrying our nonce. */
module LockPayload {
  import opened Characters
  import opened Options
  import J = JsonLine
  import F = LineFormat

  datatype Payload = Payload(pid: int, acquiredAt: string, nonce: string)

  const HEADER: string := "broker-exec-lock v1"

  function Lines(p: Payload): (ls: seq<string>)
    ensures |ls| == 5
  {
    [HEADER, "pid=" + J.PrintInt(p.pid), "acquired_at=" + p.acquiredAt, "nonce=" + p.nonce, ""]
  }

  /** Lines with a newline between each two. */
  function Joined(lines: seq<string>): string
    requires lines != []
  {
    if |lines| == 1 then lines[0] else lines[0] + "\n" + Joined(lines[1..])
  }

  function Format(p: Payload): string {
    Joined(Lines(p))
  }

  // ---------------------------------------------------------------- reading

  const LONG_MIN: int := -0x8000_0000_0000_0000
  const LONG_MAX: int := 0x7fff_ffff_ffff_ffff

  /** A whole decimal number in the range of long long, or nothing. */
  function ParsePid(value: string): Option<int> {
    var digits := if value != "" && value[0] == '-' then value[1..] else value;
    if digits == "" || !forall k :: 0 <= k < |digits| ==> IsDigit(digits[k]) then None
    else
      var n: int := J.DecimalValue(digits);
      var v := if value[0] == '-' then -n else n;
      if LONG_MIN <= v <= LONG_MAX then Some(v) else None
  }

  /** One trailing carriage return is tolerated. */
  function Stripped(line: string): string {
    if line != "" && line[|line| - 1] == '\r' then line[..|line| - 1] else line
  }

  /** Index of the first '=', or the length. */
  function Equals(line: string): (k: nat)
    ensures k <= |line| && (k < |line| ==> line[k] == '=') && forall j :: 0 <= j < k ==> line[j] != '='
  {
    if line == "" || line[0] == '=' then 0 else 1 + Equals(line[1..])
  }

  /** What has been read so far; an empty text counts as missing. */
  datatype Reading = Reading(pid: Option<int>, acquiredAt: string, nonce: string)

  function ReadLine(r: Reading, raw: string): Option<Reading> {
    var line := Stripped(raw);
    var eq := Equals(line);
    if eq == |line| then Some(r)
    else
      var key, value := line[..eq], line[eq + 1..];
      if key == "pid" then
        (match ParsePid(value)
         case None => None
         case Some(n) => Some(r.(pid := Some(n))))
      else if key == "acquired_at" then Some(r.(acquiredAt := value))
      else if key == "nonce" then Some(r.(nonce := value))
      else Some(r)
  }

  /** How one line is read. */
  type Step = (Reading, string) -> Option<Reading>

  function Source(): Step {
    (r, line) => ReadLine(r, line)
  }

  function ReadLines(step: Step, r: Reading, text: string): Option<Reading>
    decreases |text|
  {
    var n := F.LineEnd(text);
    match step(r, text[..n])
    case None => None
    case Some(r') => if n == |text| then Some(r') else ReadLines(step, r', text[n + 1..])
  }

  function Finish(r: Reading): Option<Payload> {
    if r.pid.None? || r.acquiredAt == "" || r.nonce == "" then None
    else Some(Payload(r.pid.value, r.acquiredAt, r.nonce))
  }

  const NOTHING := Reading(None, "", "")

  function Parse(text: string): Option<Payload> {
    match ReadLines(Source(), NOTHING, text)
    case None => None
    case Some(r) => Finish(r)
  }

  method ParseLockPayload(text: string) returns (p: Option<Payload>)
    ensures p == Parse(text)
  {
    var r := ReadAll(Source(), text);
    p := if r.None? then None else Finish(r.value);
  }

  /** The cursor loop of the source. */
  method ReadAll(step: Step, text: string) returns (r: Option<Reading>)
    ensures r == ReadLines(step, NOTHING, text)
  {
    var got := NOTHING;
    var begin := 0;
    assert text[0..] == text;
    while true
      invariant 0 <= begin <= |text|
      invariant ReadLines(step, got, text[begin..]) == ReadLines(step, NOTHING, text)
      decreases |text| - begin
    {
      var rest := text[begin..];
      var n := F.LineEnd(rest);
      var next := step(got, rest[..n]);
      if next.None? {
        return None;
      }
      got := next.value;
      if n == |rest| {
        return Some(got);
      }
      assert rest[n + 1..] == text[begin + n + 1..];
      begin := begin + n + 1;
    }
  }

  // ---------------------------------------------------------------- round trip

  predicate OneLine(s: string) {
    '\n' !in s
  }

  /** What can be written and read back: both texts are there, fit on their lines and do not end
      in a carriage return, and the process id is one. */
  predicate Writable(p: Payload) {
    && OneLine(p.acquiredAt) && OneLine(p.nonce)
    && p.acquiredAt != "" && Stripped(p.acquiredAt) == p.acquiredAt
    && p.nonce != "" && Stripped(p.nonce) == p.nonce
    && LONG_MIN <= p.pid <= LONG_MAX
  }

  /** The lines one after another. */
  function Chain(step: Step, r: Reading, lines: seq<string>): Option<Reading>
    decreases |lines|
  {
    if lines == [] then Some(r)
    else
      match step(r, lines[0])
      case None => None
      case Some(r') => Chain(step, r', lines[1..])
  }

  lemma {:induction false} ReadJoined(step: Step, r: Reading, lines: seq<string>)
    requires lines != [] && forall k :: 0 <= k < |lines| ==> OneLine(lines[k])
    ensures ReadLines(step, r, Joined(lines)) == Chain(step, r, lines)
    decreases |lines|
  {
    var line := lines[0];
    if |lines| == 1 {
      assert line + "" == line && lines[1..] == [];
      F.LineEndOf(line, "");
    } else {
      var rest := Joined(lines[1..]);
      assert line + "\n" + rest == line + ("\n" + rest);
      F.LineEndOf(line, "\n" + rest);
      assert ("\n" + rest)[1..] == rest;
      if step(r, line).Some? {
        ReadJoined(step, step(r, line).value, lines[1..]);
      }
    }
  }

  lemma KeyAndValue(key: string, value: string)
    requires '=' !in key
    ensures var line := key + "=" + value;
      Equals(line) == |key| && line[..|key|] == key && line[|key| + 1..] == value
  {
    var line := key + "=" + value;
    assert line[|key|] == '=';
    assert forall j :: 0 <= j < |key| ==> line[j] == key[j];
  }

  lemma StrippedValue(key: string, value: string)
    ensures Stripped(key + "=" + value) == key + "=" + Stripped(value)
  {
    var line := key + "=" + value;
    if value != "" {
      assert line[|line| - 1] == value[|value| - 1];
      assert line[..|line| - 1] == key + "=" + value[..|value| - 1];
    } else {
      assert line[|line| - 1] == '=';
    }
  }

  lemma PidText(pid: int)
    ensures Stripped(J.PrintInt(pid)) == J.PrintInt(pid) && OneLine(J.PrintInt(pid))
  {
    var s, digits := J.PrintInt(pid), J.Decimal(if pid < 0 then -pid else pid);
    J.PrintIntNoNewline(pid);
    assert s[|s| - 1] == digits[|digits| - 1];
    assert IsDigit(digits[|digits| - 1]);
  }

  lemma PidValue(s: string, pid: int, n: nat, digits: string)
    requires n == (if pid < 0 then -pid else pid) && digits == J.Decimal(n)
    requires s == if pid < 0 then "-" + digits else digits
    ensures ParsePid(s) == if LONG_MIN <= pid <= LONG_MAX then Some(pid) else None
  {
    J.DecimalRoundTrip(n);
    assert forall k :: 0 <= k < |digits| ==> IsDigit(digits[k]);
    assert IsDigit(digits[0]);
    assert pid < 0 ==> s[1..] == digits;
  }

  lemma PidRoundTrip(pid: int)
    ensures Stripped(J.PrintInt(pid)) == J.PrintInt(pid) && OneLine(J.PrintInt(pid))
    ensures ParsePid(J.PrintInt(pid)) == if LONG_MIN <= pid <= LONG_MAX then Some(pid) else None
  {
    PidText(pid);
    var n := if pid < 0 then -pid else pid;
    PidValue(J.PrintInt(pid), pid, n, J.Decimal(n));
  }

  lemma ReadPid(r: Reading, pid: int)
    ensures ReadLine(r, "pid=" + J.PrintInt(pid))
         == if LONG_MIN <= pid <= LONG_MAX then Some(r.(pid := Some(pid))) else None
  {
    PidRoundTrip(pid);
    ReadPidText(r, J.PrintInt(pid));
  }

  lemma ReadPidText(r: Reading, value: string)
    requires Stripped(value) == value
    ensures ReadLine(r, "pid=" + value)
      == match ParsePid(value) case None => None case Some(n) => Some(r.(pid := Some(n)))
  {
    assert "pid=" + value == "pid" + "=" + value;
    StrippedValue("pid", value);
    KeyAndValue("pid", value);
  }

  lemma ReadTime(r: Reading, value: string)
    ensures ReadLine(r, "acquired_at=" + value) == Some(r.(acquiredAt := Stripped(value)))
  {
    assert "acquired_at=" + value == "acquired_at" + "=" + value;
    StrippedValue("acquired_at", value);
    KeyAndValue("acquired_at", Stripped(value));
  }

  lemma ReadNonce(r: Reading, value: string)
    ensures ReadLine(r, "nonce=" + value) == Some(r.(nonce := Stripped(value)))
  {
    assert "nonce=" + value == "nonce" + "=" + value;
    StrippedValue("nonce", value);
    KeyAndValue("nonce", Stripped(value));
  }

  /** A line without '=' says nothing. */
  lemma ReadNoKey(r: Reading, line: string)
    requires '=' !in line
    ensures ReadLine(r, line) == Some(r)
  {
    assert '=' !in Stripped(line);
  }

  lemma HeaderHasNoKey()
    ensures '=' !in HEADER && OneLine(HEADER)
  {
  }

  lemma LinesAreLines(p: Payload)
    requires OneLine(p.acquiredAt) && OneLine(p.nonce)
    ensures forall k :: 0 <= k < 5 ==> OneLine(Lines(p)[k])
  {
    HeaderHasNoKey();
    PidRoundTrip(p.pid);
  }

  /** A payload whose texts fit on their lines is read back up to trailing carriage returns. */
  lemma ReadFormat(p: Payload)
    requires OneLine(p.acquiredAt) && OneLine(p.nonce) && LONG_MIN <= p.pid <= LONG_MAX
    ensures Parse(Format(p)) == Finish(Reading(Some(p.pid), Stripped(p.acquiredAt), Stripped(p.nonce)))
  {
    LinesAreLines(p);
    ReadJoined(Source(), NOTHING, Lines(p));
    HeaderHasNoKey();
    ReadNoKey(NOTHING, HEADER);
    ReadPid(NOTHING, p.pid);
    var r1 := NOTHING.(pid := Some(p.pid));
    ReadTime(r1, p.acquiredAt);
    var r2 := r1.(acquiredAt := Stripped(p.acquiredAt));
    ReadNonce(r2, p.nonce);
    var r3 := r2.(nonce := Stripped(p.nonce));
    ReadNoKey(r3, "");
    ChainFive(Source(), Lines(p), NOTHING, NOTHING, r1, r2, r3);
  }

  lemma ChainFive(step: Step, ls: seq<string>, r: Reading, r0: Reading, r1: Reading, r2: Reading, r3: Reading)
    requires |ls| == 5 && step(r, ls[0]) == Some(r0) && step(r0, ls[1]) == Some(r1) && step(r1, ls[2]) == Some(r2)
    requires step(r2, ls[3]) == Some(r3) && step(r3, ls[4]) == Some(r3)
    ensures Chain(step, r, ls) == Some(r3)
  {
    var t1, t2, t3, t4 := ls[1..], ls[1..][1..], ls[1..][1..][1..], ls[1..][1..][1..][1..];
    assert t1[0] == ls[1] && t2[0] == ls[2] && t3[0] == ls[3] && t4[0] == ls[4] && t4[1..] == [];
    assert Chain(step, r3, t4) == Some(r3);
    assert Chain(step, r2, t3) == Some(r3);
    assert Chain(step, r1, t2) == Some(r3);
  }

  /** Whatever is read fits on a line. */
  lemma {:induction false} ReadValuesAreLines(r: Reading, text: string)
    requires OneLine(r.acquiredAt) && OneLine(r.nonce)
    ensures var got := ReadLines(Source(), r, text);
      got.Some? ==> OneLine(got.value.acquiredAt) && OneLine(got.value.nonce)
    decreases |text|
  {
    var n := F.LineEnd(text);
    F.LineEndIsFirstNewline(text);
    assert OneLine(text[..n]);
    LineValuesAreLines(r, text[..n]);
    var next := ReadLine(r, text[..n]);
    if next.Some? && n < |text| {
      ReadValuesAreLines(next.value, text[n + 1..]);
    }
  }

  lemma LineValuesAreLines(r: Reading, line: string)
    requires OneLine(r.acquiredAt) && OneLine(r.nonce) && OneLine(line)
    ensures ReadLine(r, line).Some? ==>
      OneLine(ReadLine(r, line).value.acquiredAt) && OneLine(ReadLine(r, line).value.nonce)
  {
    assert OneLine(Stripped(line));
  }

  /** An id out of range fails the whole file. */
  lemma BadPidFails(p: Payload)
    requires !(LONG_MIN <= p.pid <= LONG_MAX) && OneLine(p.acquiredAt) && OneLine(p.nonce)
    ensures Parse(Format(p)) == None
  {
    LinesAreLines(p);
    ReadJoined(Source(), NOTHING, Lines(p));
    HeaderHasNoKey();
    ReadNoKey(NOTHING, HEADER);
    ReadPid(NOTHING, p.pid);
    ChainFails(Source(), Lines(p), NOTHING);
  }

  lemma ChainFails(step: Step, ls: seq<string>, r: Reading)
    requires |ls| == 5 && step(r, ls[0]) == Some(r) && step(r, ls[1]) == None
    ensures Chain(step, r, ls) == None
  {
    assert ls[1..][0] == ls[1];
    assert Chain(step, r, ls[1..]) == None;
  }

  /** Exactly the writable payloads are read back as they were written. */
  lemma RoundTripIff(p: Payload)
    ensures Parse(Format(p)) == Some(p) <==> Writable(p)
  {
    if OneLine(p.acquiredAt) && OneLine(p.nonce) {
      if LONG_MIN <= p.pid <= LONG_MAX {
        ReadFormat(p);
      } else {
        BadPidFails(p);
      }
    } else {
      ReadValuesAreLines(NOTHING, Format(p));
    }
  }

  // ---------------------------------------------------------------- a payload cut short

  /** A cut text is its lines up to the one that was cut, and what is left of that. */
  lemma {:induction false} CutJoined(lines: seq<string>, k: nat) returns (i: nat, j: nat)
    requires lines != [] && k <= |Joined(lines)|
    ensures i < |lines| && j <= |lines[i]| && Joined(lines)[..k] == Joined(lines[..i] + [lines[i][..j]])
    ensures i == |lines| - 1 && j == |lines[i]| <==> k == |Joined(lines)|
    ensures |lines| > 1 && lines[|lines| - 1] == "" ==>
      (i == |lines| - 2 && j == |lines[i]| <==> k == |Joined(lines)| - 1)
    decreases |lines|
  {
    var line := lines[0];
    if k <= |line| {
      i, j := 0, k;
      assert lines[..0] + [line[..k]] == [line[..k]];
      assert Joined(lines)[..k] == line[..k];
    } else {
      var i', j' := CutJoined(lines[1..], k - |line| - 1);
      i, j := i' + 1, j';
      var cut := lines[1..][..i'] + [lines[1..][i'][..j']];
      assert Joined(lines)[..k] == line + "\n" + Joined(lines[1..])[..k - |line| - 1];
      assert lines[..i] + [lines[i][..j]] == [line] + cut;
      assert ([line] + cut)[1..] == cut;
    }
  }

  /** What is left of a line for another key leaves the nonce alone. */
  lemma CutLineKeepsNonce(r: Reading, key: string, value: string, j: nat)
    requires '=' !in key && key != "nonce" && j <= |key + "=" + value|
    ensures var got := ReadLine(r, (key + "=" + value)[..j]); got.Some? ==> got.value.nonce == r.nonce
  {
    var line := (key + "=" + value)[..j];
    if j <= |key| {
      assert line == key[..j];
      ReadNoKey(r, line);
    } else {
      var v := value[..j - |key| - 1];
      assert line == key + "=" + v;
      StrippedValue(key, v);
      KeyAndValue(key, Stripped(v));
    }
  }

  /** A cut nonce line gives another nonce, or none. */
  lemma CutNonce(r: Reading, nonce: string, j: nat)
    requires r.nonce == "" && nonce != "" && Stripped(nonce) == nonce && j <= |"nonce=" + nonce|
    ensures var got := ReadLine(r, ("nonce=" + nonce)[..j]);
      && got.Some? && got.value.(nonce := "") == r
      && (got.value.nonce == nonce <==> j == |"nonce=" + nonce|)
  {
    var line := ("nonce=" + nonce)[..j];
    if j >= 6 {
      assert line == "nonce=" + nonce[..j - 6];
      ReadNonce(r, nonce[..j - 6]);
      assert |Stripped(nonce[..j - 6])| <= j - 6;
      assert j == |"nonce=" + nonce| ==> nonce[..j - 6] == nonce;
    } else {
      assert line == "nonce"[..j];
      ReadNoKey(r, line);
    }
  }

  lemma {:induction false} ChainSnoc(step: Step, r: Reading, lines: seq<string>, line: string)
    ensures Chain(step, r, lines + [line])
      == match Chain(step, r, lines) case None => None case Some(r') => step(r', line)
    decreases |lines|
  {
    if lines == [] {
      assert lines + [line] == [line] && [line][1..] == [];
    } else {
      assert (lines + [line])[1..] == lines[1..] + [line];
      if step(r, lines[0]).Some? {
        ChainSnoc(step, step(r, lines[0]).value, lines[1..], line);
      }
    }
  }

  /** What has been read before line `i`. */
  function ReadBefore(p: Payload, i: nat): Reading {
    if i < 2 then NOTHING
    else if i == 2 then NOTHING.(pid := Some(p.pid))
    else NOTHING.(pid := Some(p.pid), acquiredAt := p.acquiredAt)
  }

  lemma {:induction false} ChainBefore(p: Payload, ls: seq<string>, step: Step, i: nat)
    requires |ls| == 5 && i <= 3
    requires forall k :: 0 <= k < 3 ==> step(ReadBefore(p, k), ls[k]) == Some(ReadBefore(p, k + 1))
    ensures Chain(step, NOTHING, ls[..i]) == Some(ReadBefore(p, i))
  {
    if i > 0 {
      ChainBefore(p, ls, step, i - 1);
      assert ls[..i] == ls[..i - 1] + [ls[i - 1]];
      ChainSnoc(step, NOTHING, ls[..i - 1], ls[i - 1]);
    }
  }

  lemma LineAt(p: Payload, i: nat)
    requires Writable(p) && i < 3
    ensures ReadLine(ReadBefore(p, i), Lines(p)[i]) == Some(ReadBefore(p, i + 1))
  {
    if i == 0 {
      HeaderHasNoKey();
      ReadNoKey(NOTHING, HEADER);
    } else if i == 1 {
      ReadPid(NOTHING, p.pid);
    } else {
      ReadTime(ReadBefore(p, 2), p.acquiredAt);
    }
  }

  /** What is left of a line before the nonce's sets no nonce. */
  lemma CutBeforeNonce(p: Payload, i: nat, j: nat)
    requires i < 3 && j <= |Lines(p)[i]|
    ensures var got := ReadLine(ReadBefore(p, i), Lines(p)[i][..j]); got.Some? ==> got.value.nonce == ""
  {
    var ls := Lines(p);
    if i == 0 {
      HeaderHasNoKey();
      ReadNoKey(NOTHING, ls[0][..j]);
    } else if i == 1 {
      assert ls[1] == "pid" + "=" + J.PrintInt(p.pid);
      CutLineKeepsNonce(NOTHING, "pid", J.PrintInt(p.pid), j);
    } else {
      assert ls[2] == "acquired_at" + "=" + p.acquiredAt;
      CutLineKeepsNonce(ReadBefore(p, 2), "acquired_at", p.acquiredAt, j);
    }
  }

  /** Reading what is left when line `i` was cut after `j` characters. */
  function ReadCut(p: Payload, i: nat, j: nat): Option<Reading>
    requires i <= 3 && j <= |Lines(p)[i]|
  {
    ReadLine(ReadBefore(p, i), Lines(p)[i][..j])
  }

  lemma CutIsRead(p: Payload, i: nat, j: nat)
    requires Writable(p) && i <= 3 && j <= |Lines(p)[i]|
    ensures ReadLines(Source(), NOTHING, Joined(Lines(p)[..i] + [Lines(p)[i][..j]])) == ReadCut(p, i, j)
  {
    var ls := Lines(p);
    LinesAreLines(p);
    CutLines(ls, i, j);
    ReadJoined(Source(), NOTHING, ls[..i] + [ls[i][..j]]);
    ChainSnoc(Source(), NOTHING, ls[..i], ls[i][..j]);
    forall k | 0 <= k < 3
      ensures ReadLine(ReadBefore(p, k), ls[k]) == Some(ReadBefore(p, k + 1))
    {
      LineAt(p, k);
    }
    ChainBefore(p, ls, Source(), i);
  }

  lemma CutVerdict(p: Payload, i: nat, j: nat)
    requires Writable(p) && i <= 3 && j <= |Lines(p)[i]|
    ensures var q := ReadCut(p, i, j);
      (q.Some? && Finish(q.value).Some? && q.value.nonce == p.nonce) <==> i == 3 && j == |Lines(p)[3]|
  {
    if i < 3 {
      CutBeforeNonce(p, i, j);
    } else {
      CutNonce(ReadBefore(p, 3), p.nonce, j);
    }
  }

  lemma CutLines(ls: seq<string>, i: nat, j: nat)
    requires i < |ls| && j <= |ls[i]| && forall k :: 0 <= k < |ls| ==> OneLine(ls[k])
    ensures var cut := ls[..i] + [ls[i][..j]]; cut != [] && forall k :: 0 <= k < |cut| ==> OneLine(cut[k])
  {
  }

  /** A payload of which only a part was written carries our nonce only if nothing but the last
      newline is missing. */
  lemma CutPayloadIsNotOurs(p: Payload, k: nat)
    requires Writable(p) && k < |Format(p)|
    ensures var q := Parse(Format(p)[..k]);
      (q.Some? && q.value.nonce == p.nonce) <==> k == |Format(p)| - 1
  {
    var i, j := CutJoined(Lines(p), k);
    CutIsRead(p, i, j);
    CutVerdict(p, i, j);
  }
}
