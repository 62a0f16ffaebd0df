/** The write-ahead intent log (src/intentlog/intent_log.cpp): an append-only file of one-line
    records, chained by hash, with torn-tail repair on replay.

    The file is its bytes. A failed or interrupted append leaves some prefix of its line, of a
    length `Append` is told; a crash is such an append followed by opening the bytes that are
    left. The digest is any function: no property here needs it to be SHA-256, and where
    distinct pre-images must have distinct digests the statement says so for exactly the
    pre-images involved. */
module IntentLog {
  import opened Options
  import opened IntentRecord
  import F = LineFormat
  import J = JsonLine
  import S = Sequences
  import Utf8

  type Digest = string -> string

  /** A line codec and the hash of a record. */
  datatype Layout = Layout(codec: LineCodec, digest: Record -> string)

  /** The layout of the source, over any digest of byte strings. */
  function JsonLayout(h: Digest): Layout {
    Layout(JsonFormat(), r => h(CanonicalBytes(r)))
  }

  // ---------------------------------------------------------------- reading a file

  /** What the end of the file turned out to be. */
  datatype Tail = Clean | Torn(discarded: nat) | NoNewline

  datatype Scanned = Bad(error: ReplayError) | Good(records: seq<Record>, tail: Tail)

  /** The three chain checks, in the order of the source. */
  function Verify(y: Layout, r: Record, expected: int, prev: string): Option<ReplayError> {
    if r.seqNo != expected then Some(BrokenSeq)
    else if r.prevHash != prev then Some(BrokenLink)
    else if y.digest(r) != r.hash then Some(BrokenHash)
    else None
  }

  function Prepend(rs: seq<Record>, s: Scanned): Scanned {
    match s
    case Bad(e) => s
    case Good(more, tail) => Good(rs + more, tail)
  }

  /** What the bytes up to the next newline are. */
  datatype Chunk =
    | BlankLine
    | Fragment(size: nat)
    | Fatal(error: ReplayError)
    | Whole(record: Record, size: nat)
    | Unterminated(last: Record)

  /** The next chunk of a non-empty rest of the file. Only an unparseable chunk without a newline
      counts as a torn write; everything else that is wrong is fatal. */
  function ReadChunk(y: Layout, s: string, expected: int, prev: string): (c: Chunk)
    requires s != ""
    ensures c.Fragment? ==> 0 < c.size <= |s|
    ensures c.Whole? ==> c.size < |s|
  {
    var n := F.LineEnd(s);
    if n == 0 then BlankLine
    else
      match y.codec.read(s[..n])
      case Unreadable => if n == |s| then Fragment(n) else Fatal(Malformed)
      case Rejected(e) => Fatal(e)
      case Readable(r) =>
        match Verify(y, r, expected, prev)
        case Some(e) => Fatal(e)
        case None => if n == |s| then Unterminated(r) else Whole(r, n)
  }

  /** The result of replaying `s` when the next record must be number `expected`, linked to `prev`. */
  function Scan(y: Layout, s: string, expected: int, prev: string): (g: Scanned)
    ensures g.Good? && g.tail.Torn? ==> 0 < g.tail.discarded <= |s|
    decreases |s|
  {
    if s == "" then Good([], Clean)
    else
      match ReadChunk(y, s, expected, prev)
      case BlankLine => Scan(y, s[1..], expected, prev)
      case Fragment(n) => Good([], Torn(n))
      case Fatal(e) => Bad(e)
      case Unterminated(r) => Good([r], NoNewline)
      case Whole(r, n) => Prepend([r], Scan(y, s[n + 1..], expected + 1, r.hash))
  }

  /** Replay of a whole file. */
  function ScanFile(y: Layout, file: string): (g: Scanned)
    ensures g.Good? && g.tail.Torn? ==> 0 < g.tail.discarded <= |file|
  {
    Scan(y, file, 1, GENESIS)
  }

  /** The bytes after the tail repair. */
  function Repaired(file: string, tail: Tail): string
    requires tail.Torn? ==> tail.discarded <= |file|
  {
    match tail
    case Clean => file
    case Torn(k) => file[..|file| - k]
    case NoNewline => file + "\n"
  }

  // ---------------------------------------------------------------- chains and their files

  /** Records number `expected`, `expected + 1`, ... each linked to the one before. */
  predicate Chain(y: Layout, rs: seq<Record>, expected: int, prev: string) {
    rs == [] || (Verify(y, rs[0], expected, prev).None? && Chain(y, rs[1..], expected + 1, rs[0].hash))
  }

  /** A chain from the start of the log whose records can all be in a file. */
  predicate WellBuilt(y: Layout, rs: seq<Record>) {
    Chain(y, rs, 1, GENESIS) && F.AllStored(y.codec, rs)
  }

  function LastHash(rs: seq<Record>, prev: string): string {
    if rs == [] then prev else rs[|rs| - 1].hash
  }

  function Line(y: Layout, r: Record): string {
    y.codec.body(r) + "\n"
  }

  function Lines(y: Layout, rs: seq<Record>): string {
    F.Lines(y.codec, rs)
  }

  lemma {:induction false} ChainAppend(y: Layout, rs: seq<Record>, r: Record, expected: int, prev: string)
    ensures Chain(y, rs + [r], expected, prev)
       <==> Chain(y, rs, expected, prev) && Verify(y, r, expected + |rs|, LastHash(rs, prev)).None?
  {
    if rs == [] {
      assert rs + [r] == [r] && [r][1..] == [];
    } else {
      assert (rs + [r])[1..] == rs[1..] + [r] && (rs + [r])[0] == rs[0];
      ChainAppend(y, rs[1..], r, expected + 1, rs[0].hash);
    }
  }

  /** Reading a terminated line, whatever it holds. */
  lemma ScanTerminated(y: Layout, line: string, rest: string, expected: int, prev: string)
    requires '\n' !in line
    ensures Scan(y, line + "\n" + rest, expected, prev)
         == if line == "" then Scan(y, rest, expected, prev)
            else match y.codec.read(line)
              case Unreadable => Bad(Malformed)
              case Rejected(e) => Bad(e)
              case Readable(r) =>
                match Verify(y, r, expected, prev)
                case Some(e) => Bad(e)
                case None => Prepend([r], Scan(y, rest, expected + 1, r.hash))
  {
    assert line + "\n" + rest == line + ("\n" + rest);
    F.LineEndOf(line, "\n" + rest);
    assert ("\n" + rest)[1..] == rest;
  }

  /** Reading one intact line in front of `rest`. */
  lemma ScanOneLine(y: Layout, r: Record, rest: string, expected: int, prev: string)
    requires F.OneLine(y.codec, r)
    ensures Scan(y, Line(y, r) + rest, expected, prev)
         == match Verify(y, r, expected, prev)
            case Some(e) => Bad(e)
            case None => Prepend([r], Scan(y, rest, expected + 1, r.hash))
  {
    ScanTerminated(y, y.codec.body(r), rest, expected, prev);
  }

  /** Reading the lines of a chain in front of `rest`. */
  lemma {:induction false} ScanLines(y: Layout, rs: seq<Record>, rest: string, expected: int, prev: string)
    requires Chain(y, rs, expected, prev) && F.Legible(y.codec, rs)
    ensures Scan(y, Lines(y, rs) + rest, expected, prev)
         == Prepend(rs, Scan(y, rest, expected + |rs|, LastHash(rs, prev)))
  {
    if rs == [] {
      assert Lines(y, rs) + rest == rest;
      PrependNothing(Scan(y, rest, expected, prev));
    } else {
      var behind := Scan(y, rest, expected + |rs|, LastHash(rs, prev));
      LastHashBehind(rs, prev);
      assert expected + 1 + |rs[1..]| == expected + |rs|;
      ScanLines(y, rs[1..], rest, expected + 1, rs[0].hash);
      ScanHead(y, rs, rest, expected, prev, behind);
    }
  }

  lemma LastHashBehind(rs: seq<Record>, prev: string)
    requires rs != []
    ensures LastHash(rs[1..], rs[0].hash) == LastHash(rs, prev)
  {
  }

  /** If the lines behind the first one are read as their records in front of `behind`, so are all. */
  lemma ScanHead(y: Layout, rs: seq<Record>, rest: string, expected: int, prev: string, behind: Scanned)
    requires rs != [] && Verify(y, rs[0], expected, prev).None? && F.OneLine(y.codec, rs[0])
    requires Scan(y, Lines(y, rs[1..]) + rest, expected + 1, rs[0].hash) == Prepend(rs[1..], behind)
    ensures Scan(y, Lines(y, rs) + rest, expected, prev) == Prepend(rs, behind)
  {
    var more := Lines(y, rs[1..]);
    LinesHead(y, rs);
    S.Regroup(Line(y, rs[0]), more, rest);
    ScanOneLine(y, rs[0], more + rest, expected, prev);
    PrependTwice(rs, behind);
  }

  lemma LinesHead(y: Layout, rs: seq<Record>)
    requires rs != []
    ensures Lines(y, rs) == Line(y, rs[0]) + Lines(y, rs[1..])
  {
  }

  lemma PrependNothing(s: Scanned)
    ensures Prepend([], s) == s
  {
    if s.Good? {
      assert [] + s.records == s.records;
    }
  }

  lemma PrependTwice(rs: seq<Record>, s: Scanned)
    requires rs != []
    ensures Prepend([rs[0]], Prepend(rs[1..], s)) == Prepend(rs, s)
  {
    if s.Good? {
      assert [rs[0]] + (rs[1..] + s.records) == rs + s.records;
    }
  }

  /** Reading what is left of a line that was cut after `k` bytes. */
  lemma ScanCutLine(y: Layout, r: Record, k: nat, expected: int, prev: string)
    requires F.Lawful(y.codec) && y.codec.stored(r) && Verify(y, r, expected, prev).None?
    requires k <= |Line(y, r)|
    ensures Scan(y, Line(y, r)[..k], expected, prev)
         == if k == 0 then Good([], Clean)
            else if k == |Line(y, r)| then Good([r], Clean)
            else if k == |y.codec.body(r)| then Good([r], NoNewline)
            else Good([], Torn(k))
  {
    var body := y.codec.body(r);
    var s := Line(y, r)[..k];
    assert F.OneLine(y.codec, r) && F.TornUnreadable(y.codec, r);
    if k == |Line(y, r)| {
      assert s == Line(y, r) + "";
      ScanOneLine(y, r, "", expected, prev);
      assert [r] + [] == [r];
    } else if k > 0 {
      assert s == body[..k];
      assert s + "" == s;
      F.LineEndOf(s, "");
      assert s[..k] == s;
      if k == |body| {
        assert s == body;
      } else {
        assert s < body;
      }
    }
  }

  // ---------------------------------------------------------------- replay after a crash

  /** The records a log of `rs` holds once a further line for `r` was cut after `k` bytes. */
  function Kept(y: Layout, rs: seq<Record>, r: Record, k: nat): seq<Record> {
    if k >= |y.codec.body(r)| then rs + [r] else rs
  }

  /** How the file of a log ends whose last line was cut after `k` bytes. */
  function CutTail(y: Layout, r: Record, k: nat): Tail {
    if k == 0 || k == |Line(y, r)| then Clean else if k == |y.codec.body(r)| then NoNewline else Torn(k)
  }

  lemma CutLogScans(y: Layout, rs: seq<Record>, r: Record, k: nat)
    requires F.Lawful(y.codec) && WellBuilt(y, rs + [r]) && k <= |Line(y, r)|
    ensures ScanFile(y, Lines(y, rs) + Line(y, r)[..k]) == Good(Kept(y, rs, r, k), CutTail(y, r, k))
  {
    NextRecord(y, rs, [r]);
    var cut := Line(y, r)[..k];
    F.StoredIsLegible(y.codec, rs);
    ScanLines(y, rs, cut, 1, GENESIS);
    ScanCutLine(y, r, k, 1 + |rs|, LastHash(rs, GENESIS));
    assert F.OneLine(y.codec, r);
    assert rs + [] == rs;
  }

  /** A log cut at any byte of its last line replays to every completed record, in order, the last
      one included if only its newline was lost; the repaired file is exactly those lines. */
  lemma CutLogReplays(y: Layout, rs: seq<Record>, r: Record, k: nat)
    requires F.Lawful(y.codec) && WellBuilt(y, rs + [r]) && k <= |Line(y, r)|
    ensures var file := Lines(y, rs) + Line(y, r)[..k];
      var g := ScanFile(y, file);
      && g.Good?
      && g.records == Kept(y, rs, r, k)
      && Repaired(file, g.tail) == Lines(y, g.records)
  {
    CutLogScans(y, rs, r, k);
    NextRecord(y, rs, [r]);
    assert F.OneLine(y.codec, r);
    F.LinesSnoc(y.codec, rs, r);
    RepairCut(Lines(y, rs), y.codec.body(r), k);
  }

  /** What each repair does to a file whose last line was cut. */
  lemma RepairCut(base: string, body: string, k: nat)
    requires k <= |body| + 1
    ensures var cut := base + (body + "\n")[..k];
      && (k == 0 ==> cut == base)
      && (k == |body| + 1 ==> cut == base + (body + "\n"))
      && (k == |body| ==> Repaired(cut, NoNewline) == base + (body + "\n"))
      && Repaired(cut, Torn(k)) == base
  {
    var cut := base + (body + "\n")[..k];
    assert (body + "\n")[..|body| + 1] == body + "\n";
    assert (body + "\n")[..|body|] == body;
    assert cut[..|cut| - k] == base;
  }

  /** The log of the source, for any digest. */
  lemma CutJsonLogReplays(h: Digest, rs: seq<Record>, r: Record, k: nat)
    requires WellBuilt(JsonLayout(h), rs + [r]) && k <= |Line(JsonLayout(h), r)|
    ensures var y := JsonLayout(h);
      var file := Lines(y, rs) + Line(y, r)[..k];
      var g := ScanFile(y, file);
      && g.Good?
      && g.records == Kept(y, rs, r, k)
      && Repaired(file, g.tail) == Lines(y, g.records)
  {
    JsonFormatLawful();
    CutLogReplays(JsonLayout(h), rs, r, k);
  }

  /** Replay is stable: on any file at all, replaying the repaired file gives the same records
      and finds nothing to repair. */
  lemma {:induction false} RepairIsStable(y: Layout, s: string, expected: int, prev: string)
    requires Scan(y, s, expected, prev).Good?
    ensures var g := Scan(y, s, expected, prev);
      Scan(y, Repaired(s, g.tail), expected, prev) == Good(g.records, Clean)
    decreases |s|
  {
    var g := Scan(y, s, expected, prev);
    if s != "" {
      var n := F.LineEnd(s);
      if n == |s| {
        RepairLastLine(y, s, expected, prev);
      } else {
        var line, rest := s[..n], s[n + 1..];
        F.LineEndIsFirstNewline(s);
        assert s == line + "\n" + rest;
        ScanTerminated(y, line, rest, expected, prev);
        if n == 0 {
          RepairIsStable(y, rest, expected, prev);
        } else {
          RepairIsStable(y, rest, expected + 1, y.codec.read(line).record.hash);
        }
        RepairBehind(line, rest, g.tail);
        ScanTerminated(y, line, Repaired(rest, g.tail), expected, prev);
      }
    }
  }

  lemma RepairLastLine(y: Layout, s: string, expected: int, prev: string)
    requires s != "" && F.LineEnd(s) == |s| && Scan(y, s, expected, prev).Good?
    ensures var g := Scan(y, s, expected, prev);
      Scan(y, Repaired(s, g.tail), expected, prev) == Good(g.records, Clean)
  {
    var g := Scan(y, s, expected, prev);
    assert s[..|s|] == s;
    F.LineEndIsFirstNewline(s);
    if g.tail.NoNewline? {
      F.LineEndOf(s, "\n");
      assert "\n"[1..] == "";
      assert g.records + [] == g.records;
    } else {
      assert s[..0] == "";
    }
  }

  /** A repair touches nothing up to the last newline. */
  lemma RepairBehind(line: string, rest: string, tail: Tail)
    requires tail.Torn? ==> tail.discarded <= |rest|
    ensures Repaired(line + "\n" + rest, tail) == line + "\n" + Repaired(rest, tail)
  {
  }

  // ---------------------------------------------------------------- runs

  /** What a caller hands to `append`, and the clock reading. */
  datatype Request = Request(op: IntentOp, clientRef: string, payload: string, wallTs: int)

  /** The record `append` builds when the log ends in `lastHash` and `seqNo` is next. */
  function NewRecord(y: Layout, q: Request, seqNo: int, lastHash: string): Record {
    var r := Record(SCHEMA_VERSION, seqNo, Utf8.Canonical(q.clientRef), q.op,
                    Utf8.Canonical(q.payload), q.wallTs, if lastHash == "" then GENESIS else lastHash, "");
    r.(hash := y.digest(r))
  }

  /** The record `append` builds behind `rs`. */
  function Next(y: Layout, rs: seq<Record>, q: Request): Record {
    NewRecord(y, q, |rs| + 1, LastHash(rs, ""))
  }

  /** What the runs below need of a layout: its line laws, digests that are not empty and do not
      depend on the hash field, and that whatever `append` builds behind a stored record can be
      stored. */
  ghost predicate Usable(y: Layout) {
    && F.Lawful(y.codec)
    && (forall r :: y.digest(r) != "")
    && (forall r: Record, x: string :: y.digest(r.(hash := x)) == y.digest(r))
    && (forall q, n :: y.codec.stored(NewRecord(y, q, n, "")))
    && (forall q, n, r :: y.codec.stored(r) ==> y.codec.stored(NewRecord(y, q, n, r.hash)))
  }

  /** The JSON layout is usable for any digest with non-empty plain output, whatever bytes the
      caller hands over: they are canonicalised before they are hashed and stored. */
  lemma JsonLayoutUsable(h: Digest)
    requires forall s :: J.Plain(h(s)) && h(s) != ""
    ensures Usable(JsonLayout(h))
  {
    JsonFormatLawful();
    var y := JsonLayout(h);
    forall r: Record, x: string
      ensures y.digest(r.(hash := x)) == y.digest(r)
    {
      HashNotHashed(r, x);
    }
    forall r
      ensures y.digest(r) != ""
    {
      assert h(CanonicalBytes(r)) != "";
    }
    forall q, n, last | last == "" || J.Plain(last)
      ensures y.codec.stored(NewRecord(y, q, n, last))
    {
      NewRecordStored(h, q, n, last);
    }
  }

  lemma NewRecordStored(h: Digest, q: Request, n: int, last: string)
    requires forall s :: J.Plain(h(s)) && h(s) != ""
    requires last == "" || J.Plain(last)
    ensures Stored(NewRecord(JsonLayout(h), q, n, last))
  {
    var r := NewRecord(JsonLayout(h), q, n, last);
    CanonicalIsPlain(q.clientRef);
    CanonicalIsPlain(q.payload);
    GenesisIsPlain();
    assert r.hash == h(CanonicalBytes(r.(hash := "")));
    assert J.Plain(r.hash);
  }

  lemma CanonicalIsPlain(s: string)
    ensures J.Plain(Utf8.Canonical(s))
  {
    Utf8.CanonicalIdempotent(s);
  }

  lemma GenesisIsAscii()
    ensures forall k :: 0 <= k < |GENESIS| ==> GENESIS[k] as int < 0x80
  {
  }

  lemma GenesisIsPlain()
    ensures J.Plain(GENESIS)
  {
    GenesisIsAscii();
    J.AsciiIsPlain(GENESIS);
  }

  /** An append continues the chain with a record that can be stored. */
  lemma NextContinues(y: Layout, rs: seq<Record>, q: Request)
    requires Usable(y) && WellBuilt(y, rs)
    ensures WellBuilt(y, rs + [Next(y, rs, q)])
  {
    var r := Next(y, rs, q);
    if rs != [] {
      var front, back := rs[..|rs| - 1], rs[|rs| - 1];
      assert rs == front + [back];
      NextRecord(y, front, [back]);
    }
    ChainAppend(y, rs, r, 1, GENESIS);
    F.StoredAppend(y.codec, rs, [r]);
  }

  /** One life of the process: successful appends, then one of which only the first `cut` bytes
      reach the file; and the boots behind it that died inside their own repair, with the number of
      bytes each of them left of what it repaired. */
  datatype Life = Life(done: seq<Request>, last: Request, cut: nat, boots: seq<nat>)

  function AppendAll(y: Layout, rs: seq<Record>, qs: seq<Request>): seq<Record>
    decreases |qs|
  {
    if qs == [] then rs
    else AppendAll(y, rs + [Next(y, rs, qs[0])], qs[1..])
  }

  /** The file a boot leaves that dies before its repair is durable: of a torn line there are any first
      bytes, and a restored newline is there or not. */
  function HalfRepaired(file: string, tail: Tail, left: nat): string
    requires tail.Torn? ==> tail.discarded <= |file|
  {
    match tail
    case Clean => file
    case Torn(k) => if left < k then file[..|file| - k + left] else file
    case NoNewline => if left == 0 then file else file + "\n"
  }

  function AfterBoots(y: Layout, file: string, boots: seq<nat>): string
    decreases |boots|
  {
    if boots == [] then file
    else
      match ScanFile(y, file)
      case Bad(_) => file
      case Good(_, tail) => AfterBoots(y, HalfRepaired(file, tail, boots[0]), boots[1..])
  }

  /** The bytes a life leaves, and those found when a boot gets through. */
  function FileAtCrash(y: Layout, rs: seq<Record>, life: Life): string {
    var all := AppendAll(y, rs, life.done);
    var line := Line(y, Next(y, all, life.last));
    Lines(y, all) + line[..if life.cut <= |line| then life.cut else |line|]
  }

  function FileAfter(y: Layout, rs: seq<Record>, life: Life): string {
    AfterBoots(y, FileAtCrash(y, rs, life), life.boots)
  }

  /** A repair that was cut short leaves the log as if the crash had cut its last line elsewhere. */
  lemma HalfRepairedCut(base: string, line: string, k: nat, tail: Tail, left: nat) returns (k': nat)
    requires k <= |line|
    requires tail == if k == 0 || k == |line| then Clean else if k == |line| - 1 then NoNewline else Torn(k)
    requires line != "" && line[|line| - 1] == '\n'
    ensures k' <= |line| && HalfRepaired(base + line[..k], tail, left) == base + line[..k']
    ensures k' >= |line| - 1 <==> k >= |line| - 1
    ensures k == 0 ==> k' == 0
  {
    var file := base + line[..k];
    match tail
    case Clean =>
      k' := k;
    case Torn(_) =>
      k' := if left < k then left else k;
      assert file[..|file| - k + k'] == base + line[..k'];
    case NoNewline =>
      k' := if left == 0 then k else |line|;
      assert left > 0 ==> file + "\n" == base + line[..|line|];
  }

  /** So however many boots die, the file is one that a crash could have left, with the same records. */
  lemma {:induction false} BootsOnlyMoveCut(y: Layout, rs: seq<Record>, r: Record, k: nat, boots: seq<nat>)
    returns (k': nat)
    requires F.Lawful(y.codec) && WellBuilt(y, rs + [r]) && k <= |Line(y, r)|
    ensures k' <= |Line(y, r)|
    ensures AfterBoots(y, Lines(y, rs) + Line(y, r)[..k], boots) == Lines(y, rs) + Line(y, r)[..k']
    ensures Kept(y, rs, r, k') == Kept(y, rs, r, k) && (k == 0 ==> k' == 0)
    decreases |boots|
  {
    if boots == [] {
      return k;
    }
    CutLogScans(y, rs, r, k);
    var k1 := HalfRepairedCut(Lines(y, rs), Line(y, r), k, CutTail(y, r, k), boots[0]);
    k' := BootsOnlyMoveCut(y, rs, r, k1, boots[1..]);
  }

  lemma {:induction false} AppendAllKeeps(y: Layout, rs: seq<Record>, qs: seq<Request>)
    requires Usable(y) && WellBuilt(y, rs)
    ensures WellBuilt(y, AppendAll(y, rs, qs))
    ensures rs <= AppendAll(y, rs, qs) && |AppendAll(y, rs, qs)| == |rs| + |qs|
    decreases |qs|
  {
    if qs != [] {
      NextContinues(y, rs, qs[0]);
      AppendAllKeeps(y, rs + [Next(y, rs, qs[0])], qs[1..]);
    }
  }

  /** Every crash is survived, and every boot that dies behind it: the next boot replays, keeps every
      record whose append had returned, leaves a file that is exactly the lines of what it returned,
      and a second replay agrees. */
  lemma LifeIsSurvived(y: Layout, rs: seq<Record>, life: Life)
    requires Usable(y) && WellBuilt(y, rs)
    ensures var file := FileAfter(y, rs, life);
      var g := ScanFile(y, file);
      && g.Good?
      && WellBuilt(y, g.records)
      && AppendAll(y, rs, life.done) <= g.records
      && |g.records| <= |rs| + |life.done| + 1
      && Repaired(file, g.tail) == Lines(y, g.records)
      && ScanFile(y, Lines(y, g.records)) == Good(g.records, Clean)
  {
    AppendAllKeeps(y, rs, life.done);
    var all := AppendAll(y, rs, life.done);
    var r := Next(y, all, life.last);
    NextContinues(y, all, life.last);
    var k := BootsOnlyMoveCut(y, all, r, if life.cut <= |Line(y, r)| then life.cut else |Line(y, r)|, life.boots);
    CutLogReplays(y, all, r, k);
    RepairIsStable(y, FileAfter(y, rs, life), 1, GENESIS);
  }

  /** The records after a whole run of lives, each started from what the last boot replayed. */
  function AfterRun(y: Layout, rs: seq<Record>, lives: seq<Life>): Option<seq<Record>>
    decreases |lives|
  {
    if lives == [] then Some(rs)
    else
      match ScanFile(y, FileAfter(y, rs, lives[0]))
      case Bad(_) => None
      case Good(more, _) => AfterRun(y, more, lives[1..])
  }

  /** The log at the end of the run begins with what life number `k` found and all it appended. */
  ghost predicate LifeIsKept(y: Layout, rs: seq<Record>, lives: seq<Life>, k: nat, end: seq<Record>)
    requires k < |lives|
  {
    var found := AfterRun(y, rs, lives[..k]);
    found.Some? && AppendAll(y, found.value, lives[k].done) <= end
  }

  /** No sequence of appends, crashes and boots, themselves completed or not, ever leaves a log that
      cannot be replayed; no record is lost that was there before the run, nor one whose append had
      returned in any of its lives. */
  lemma EveryRunReplays(y: Layout, rs: seq<Record>, lives: seq<Life>)
    requires Usable(y) && WellBuilt(y, rs)
    ensures AfterRun(y, rs, lives).Some?
    ensures rs <= AfterRun(y, rs, lives).value
    ensures WellBuilt(y, AfterRun(y, rs, lives).value)
    ensures forall k :: 0 <= k < |lives| ==> LifeIsKept(y, rs, lives, k, AfterRun(y, rs, lives).value)
  {
    RunReplays(y, rs, lives);
    forall k | 0 <= k < |lives|
      ensures LifeIsKept(y, rs, lives, k, AfterRun(y, rs, lives).value)
    {
      EveryLifeIsKept(y, rs, lives, k, AfterRun(y, rs, lives).value);
    }
  }

  /** The first life, and the run that goes on from what it left. */
  lemma FirstLife(y: Layout, rs: seq<Record>, lives: seq<Life>) returns (more: seq<Record>)
    requires Usable(y) && WellBuilt(y, rs) && lives != []
    ensures var g := ScanFile(y, FileAfter(y, rs, lives[0])); g.Good? && g.records == more
    ensures WellBuilt(y, more) && rs <= AppendAll(y, rs, lives[0].done) <= more
    ensures AfterRun(y, rs, lives) == AfterRun(y, more, lives[1..])
  {
    LifeIsSurvived(y, rs, lives[0]);
    AppendAllKeeps(y, rs, lives[0].done);
    more := ScanFile(y, FileAfter(y, rs, lives[0])).records;
  }

  lemma {:induction false} RunReplays(y: Layout, rs: seq<Record>, lives: seq<Life>)
    requires Usable(y) && WellBuilt(y, rs)
    ensures AfterRun(y, rs, lives).Some? && rs <= AfterRun(y, rs, lives).value
    ensures WellBuilt(y, AfterRun(y, rs, lives).value)
    decreases |lives|
  {
    if lives != [] {
      var more := FirstLife(y, rs, lives);
      RunReplays(y, more, lives[1..]);
    }
  }

  lemma {:induction false} EveryLifeIsKept(y: Layout, rs: seq<Record>, lives: seq<Life>, k: nat, end: seq<Record>)
    requires Usable(y) && WellBuilt(y, rs) && k < |lives| && AfterRun(y, rs, lives) == Some(end)
    ensures LifeIsKept(y, rs, lives, k, end)
    decreases |lives|
  {
    var more := FirstLife(y, rs, lives);
    if k == 0 {
      RunReplays(y, more, lives[1..]);
      assert lives[..0] == [];
    } else {
      EveryLifeIsKept(y, more, lives[1..], k - 1, end);
      LifeIsKeptLater(y, rs, more, lives, k, end);
    }
  }

  lemma LifeIsKeptLater(y: Layout, rs: seq<Record>, more: seq<Record>, lives: seq<Life>, k: nat, end: seq<Record>)
    requires 0 < k < |lives| && LifeIsKept(y, more, lives[1..], k - 1, end)
    requires var g := ScanFile(y, FileAfter(y, rs, lives[0])); g.Good? && g.records == more
    ensures LifeIsKept(y, rs, lives, k, end)
  {
    assert lives[..k][1..] == lives[1..][..k - 1] && lives[..k][0] == lives[0];
    assert lives[1..][k - 1] == lives[k];
  }

  // ---------------------------------------------------------------- appending after a failure

  /** A failed append that left `k` bytes is survivable until the same process appends again: the
      file replays exactly if nothing was left or nothing was written behind it. */
  lemma ReplayableIffNothingBehindResidue(y: Layout, rs: seq<Record>, r: Record, k: nat, qs: seq<Record>)
    requires F.Lawful(y.codec) && WellBuilt(y, rs + [r]) && k <= |Line(y, r)|
    requires WellBuilt(y, rs + qs)
    ensures ScanFile(y, Lines(y, rs) + Line(y, r)[..k] + Lines(y, qs)).Good? <==> k == 0 || qs == []
  {
    var cut := Line(y, r)[..k];
    var file := Lines(y, rs) + cut + Lines(y, qs);
    if qs == [] {
      CutLogReplays(y, rs, r, k);
      assert file == Lines(y, rs) + cut;
    } else if k == 0 {
      F.LinesAppend(y.codec, rs, qs);
      assert file == Lines(y, rs + qs) + "";
      F.StoredIsLegible(y.codec, rs + qs);
      ScanLines(y, rs + qs, "", 1, GENESIS);
    } else {
      ResidueBlocks(y, rs, r, k, qs);
    }
  }

  lemma ResidueBlocks(y: Layout, rs: seq<Record>, r: Record, k: nat, qs: seq<Record>)
    requires F.Lawful(y.codec) && WellBuilt(y, rs + [r]) && 0 < k <= |Line(y, r)|
    requires WellBuilt(y, rs + qs) && qs != []
    ensures ScanFile(y, Lines(y, rs) + Line(y, r)[..k] + Lines(y, qs)).Bad?
  {
    NextRecord(y, rs, [r]);
    NextRecord(y, rs, qs);
    var cut, more := Line(y, r)[..k], Lines(y, qs);
    S.Regroup(Lines(y, rs), cut, more);
    F.StoredIsLegible(y.codec, rs);
    ScanLines(y, rs, cut + more, 1, GENESIS);
    LinesHead(y, qs);
    ResidueThenLine(y, r, k, qs[0], Lines(y, qs[1..]), 1 + |rs|, LastHash(rs, GENESIS));
  }

  lemma NextRecord(y: Layout, rs: seq<Record>, qs: seq<Record>)
    requires WellBuilt(y, rs + qs) && qs != []
    ensures WellBuilt(y, rs)
    ensures y.codec.stored(qs[0])
    ensures Verify(y, qs[0], 1 + |rs|, LastHash(rs, GENESIS)).None?
  {
    ChainPrefix(y, rs, qs, 1, GENESIS);
    F.StoredAppend(y.codec, rs, qs);
  }

  lemma {:induction false} ChainPrefix(y: Layout, a: seq<Record>, b: seq<Record>, expected: int, prev: string)
    requires Chain(y, a + b, expected, prev)
    ensures Chain(y, a, expected, prev)
    ensures Chain(y, b, expected + |a|, LastHash(a, prev))
  {
    if a == [] {
      assert a + b == b;
    } else {
      assert (a + b)[1..] == a[1..] + b && (a + b)[0] == a[0];
      ChainPrefix(y, a[1..], b, expected + 1, a[0].hash);
    }
  }

  lemma ResidueThenLine(y: Layout, r: Record, k: nat, q: Record, rest: string, expected: int, prev: string)
    requires F.Lawful(y.codec) && y.codec.stored(r) && y.codec.stored(q)
    requires 0 < k <= |Line(y, r)|
    requires Verify(y, r, expected, prev).None? && Verify(y, q, expected, prev).None?
    ensures Scan(y, Line(y, r)[..k] + (Line(y, q) + rest), expected, prev).Bad?
  {
    assert F.OneLine(y.codec, r) && F.OneLine(y.codec, q) && F.GluedUnreadable(y.codec, r, q);
    var s := Line(y, r)[..k] + (Line(y, q) + rest);
    if k == |Line(y, r)| {
      assert s == Line(y, r) + (Line(y, q) + rest);
      ScanOneLine(y, r, Line(y, q) + rest, expected, prev);
      ScanOneLine(y, q, rest, expected + 1, r.hash);
    } else {
      var p := y.codec.body(r)[..k];
      assert Line(y, r)[..k] == p;
      var glued := p + y.codec.body(q);
      assert s == glued + "\n" + rest;
      assert '\n' !in p;
      ScanTerminated(y, glued, rest, expected, prev);
    }
  }

  // ---------------------------------------------------------------- the hash chain

  /** Whatever replay accepts is a chain from the start of the log. */
  lemma {:induction false} ScanGivesChain(y: Layout, s: string, expected: int, prev: string)
    requires Scan(y, s, expected, prev).Good?
    ensures Chain(y, Scan(y, s, expected, prev).records, expected, prev)
    decreases |s|
  {
    if s != "" {
      var n := F.LineEnd(s);
      if n == 0 {
        ScanGivesChain(y, s[1..], expected, prev);
      } else if y.codec.read(s[..n]).Readable? {
        var r := y.codec.read(s[..n]).record;
        assert [r][1..] == [];
        if n < |s| {
          ScanGivesChain(y, s[n + 1..], expected + 1, r.hash);
          var more := Scan(y, s[n + 1..], expected + 1, r.hash).records;
          assert ([r] + more)[1..] == more;
        }
      }
    }
  }

  /** No two of these records have different pre-images with one digest. */
  ghost predicate NoCollision(h: Digest, rs: set<Record>) {
    forall r, s :: r in rs && s in rs && h(CanonicalBytes(r)) == h(CanonicalBytes(s)) ==>
      CanonicalBytes(r) == CanonicalBytes(s)
  }

  /** The hash of the last record commits to the whole log: two accepted logs that end in the
      same hash are the same log, unless their own records exhibit a collision. */
  lemma LastHashFixesLog(h: Digest, f: string, g: string)
    requires ScanFile(JsonLayout(h), f).Good? && ScanFile(JsonLayout(h), g).Good?
    requires var a, b := ScanFile(JsonLayout(h), f).records, ScanFile(JsonLayout(h), g).records;
      && NoCollision(h, S.Elements(a) + S.Elements(b))
      && a != [] && b != [] && LastHash(a, GENESIS) == LastHash(b, GENESIS)
    ensures ScanFile(JsonLayout(h), f).records == ScanFile(JsonLayout(h), g).records
  {
    var y := JsonLayout(h);
    ScanGivesChain(y, f, 1, GENESIS);
    ScanGivesChain(y, g, 1, GENESIS);
    var a, b := ScanFile(y, f).records, ScanFile(y, g).records;
    forall r, s | r in S.Elements(a) + S.Elements(b) && s in S.Elements(a) + S.Elements(b) && y.digest(r) == y.digest(s)
      ensures r.(hash := s.hash) == s
    {
      CanonicalBytesInjective(r, s);
    }
    EqualHashEqualChain(y, a, b);
  }

  /** Records with one digest differ in nothing that is hashed. */
  ghost predicate DigestFaithful(y: Layout, rs: set<Record>) {
    forall r, s :: r in rs && s in rs && y.digest(r) == y.digest(s) ==> r.(hash := s.hash) == s
  }

  lemma DigestFaithfulSubset(y: Layout, small: set<Record>, big: set<Record>)
    requires small <= big && DigestFaithful(y, big)
    ensures DigestFaithful(y, small)
  {
  }

  lemma FrontsFaithful(y: Layout, a: seq<Record>, b: seq<Record>)
    requires a != [] && b != [] && DigestFaithful(y, S.Elements(a) + S.Elements(b))
    ensures DigestFaithful(y, S.Elements(a[..|a| - 1]) + S.Elements(b[..|b| - 1]))
  {
    ElementsOfPrefix(a, |a| - 1);
    ElementsOfPrefix(b, |b| - 1);
    DigestFaithfulSubset(y, S.Elements(a[..|a| - 1]) + S.Elements(b[..|b| - 1]), S.Elements(a) + S.Elements(b));
  }

  lemma ElementsOfPrefix(a: seq<Record>, n: nat)
    requires n <= |a|
    ensures S.Elements(a[..n]) <= S.Elements(a)
  {
  }

  /** Records in their places with one hash are one record, so they link to one hash. */
  lemma SameLast(y: Layout, r: Record, s: Record, all: set<Record>, m: int, n: int, prev: string, prev': string)
    requires r in all && s in all && DigestFaithful(y, all) && r.hash == s.hash
    requires Verify(y, r, m, prev).None? && Verify(y, s, n, prev').None?
    ensures r == s && m == n && prev == prev'
  {
    assert y.digest(r) == y.digest(s);
  }

  lemma {:induction false} EqualHashEqualChain(y: Layout, a: seq<Record>, b: seq<Record>)
    requires Chain(y, a, 1, GENESIS) && Chain(y, b, 1, GENESIS)
    requires DigestFaithful(y, S.Elements(a) + S.Elements(b))
    requires a != [] && b != [] && LastHash(a, GENESIS) == LastHash(b, GENESIS)
    ensures a == b
    decreases |a|
  {
    var a', r := a[..|a| - 1], a[|a| - 1];
    var b', s := b[..|b| - 1], b[|b| - 1];
    assert a == a' + [r] && b == b' + [s];
    ChainAppend(y, a', r, 1, GENESIS);
    ChainAppend(y, b', s, 1, GENESIS);
    SameLast(y, r, s, S.Elements(a) + S.Elements(b), 1 + |a'|, 1 + |b'|, LastHash(a', GENESIS), LastHash(b', GENESIS));
    if a' != [] {
      FrontsFaithful(y, a, b);
      EqualHashEqualChain(y, a', b');
    }
  }

  // ---------------------------------------------------------------- the log object

  /** What the last replay found and repaired. */
  datatype TornTail = TornTail(repaired: bool, discarded: nat, truncatedTo: nat, kept: nat)

  datatype AppendError = NotDurable

  /** What opening the file for replay finds: "absent" and "present but unreadable" differ. */
  datatype Opening = Opened | Absent | Unopenable

  /** The latest record of every client ref. */
  function IndexOf(index: map<string, Record>, rs: seq<Record>): map<string, Record>
    decreases |rs|
  {
    if rs == [] then index else IndexOf(index[rs[0].clientRef := rs[0]], rs[1..])
  }

  /** `r` is the latest record of the ref, if there is one. */
  ghost predicate IsLatest(rs: seq<Record>, ref: string, r: Option<Record>) {
    match r
    case None => forall i :: 0 <= i < |rs| ==> rs[i].clientRef != ref
    case Some(rec) =>
      rec.clientRef == ref
      && exists i :: 0 <= i < |rs| && rs[i] == rec && (forall j :: i < j < |rs| ==> rs[j].clientRef != ref)
  }

  function Lookup(index: map<string, Record>, ref: string): Option<Record> {
    if ref in index then Some(index[ref]) else None
  }

  /** The index holds the latest record of every ref. */
  lemma {:induction false} IndexHoldsLatest(rs: seq<Record>, ref: string)
    ensures IsLatest(rs, ref, Lookup(IndexOf(map[], rs), ref))
    decreases |rs|
  {
    if rs != [] {
      var front, last := rs[..|rs| - 1], rs[|rs| - 1];
      assert rs == front + [last];
      IndexOfSnoc(map[], front, last);
      IndexHoldsLatest(front, ref);
      if last.clientRef != ref {
        LatestSnoc(front, last, ref, Lookup(IndexOf(map[], front), ref));
      }
    }
  }

  /** A record of another ref makes no difference. */
  lemma LatestSnoc(rs: seq<Record>, last: Record, ref: string, r: Option<Record>)
    requires IsLatest(rs, ref, r) && last.clientRef != ref
    ensures IsLatest(rs + [last], ref, r)
  {
    var more := rs + [last];
    if r.Some? {
      var i :| 0 <= i < |rs| && rs[i] == r.value && forall j :: i < j < |rs| ==> rs[j].clientRef != ref;
      assert more[i] == r.value;
    }
  }

  function TailReport(file: string, g: Scanned): TornTail
    requires g.Good? && (g.tail.Torn? ==> g.tail.discarded <= |file|)
  {
    match g.tail
    case Clean => TornTail(false, 0, 0, |g.records|)
    case Torn(k) => TornTail(true, k, |file| - k, |g.records|)
    case NoNewline => TornTail(true, 0, |file| + 1, |g.records|)
  }

  class Log {
    const layout: Layout
    var file: string
    var nextSeq: int
    var lastHash: string
    var index: map<string, Record>
    var tornTail: TornTail

    /** Opening does not read the file. */
    constructor (layout: Layout, bytes: string)
      ensures this.layout == layout && file == bytes
      ensures nextSeq == 1 && lastHash == "" && index == map[]
    {
      this.layout := layout;
      file := bytes;
      nextSeq := 1;
      lastHash := "";
      index := map[];
      tornTail := TornTail(false, 0, 0, 0);
    }

    /** The file holds exactly `rs`, and the cursor stands behind them. */
    ghost predicate Holds(rs: seq<Record>)
      reads this
    {
      && WellBuilt(layout, rs)
      && file == Lines(layout, rs)
      && nextSeq == |rs| + 1
      && lastHash == LastHash(rs, "")
      && index == IndexOf(map[], rs)
    }

    /** Append one record. With `left == None` the write and the sync succeed; with `Some(k)` one of
        them fails and the first `k` bytes of the line are in the file all the same. */
    method Append(q: Request, left: Option<nat>) returns (r: Result<Record, AppendError>)
      modifies this
      ensures var rec := NewRecord(layout, q, old(nextSeq), old(lastHash));
        match left
        case None =>
          && r == Ok(rec)
          && file == old(file) + Line(layout, rec)
          && nextSeq == old(nextSeq) + 1 && lastHash == rec.hash
          && index == old(index)[Utf8.Canonical(q.clientRef) := rec]
          && (forall rs :: Usable(layout) && old(Holds(rs)) ==> Holds(rs + [rec]))
        case Some(k) =>
          && r == Err(NotDurable)
          && file == old(file) + Line(layout, rec)[..if k <= |Line(layout, rec)| then k else |Line(layout, rec)|]
          && nextSeq == old(nextSeq) && lastHash == old(lastHash) && index == old(index)
      ensures tornTail == old(tornTail)
    {
      var draft := Record(SCHEMA_VERSION, nextSeq, Utf8.Canonical(q.clientRef), q.op,
                          Utf8.Canonical(q.payload), q.wallTs, if lastHash == "" then GENESIS else lastHash, "");
      var rec := draft.(hash := layout.digest(draft));
      var line := layout.codec.body(rec) + "\n";
      if left.Some? {
        var k := left.value;
        file := file + line[..if k <= |line| then k else |line|];
        return Err(NotDurable);
      }
      file := file + line;
      lastHash := rec.hash;
      nextSeq := rec.seqNo + 1;
      index := index[rec.clientRef := rec];
      forall rs | Usable(layout) && old(Holds(rs))
        ensures Holds(rs + [rec])
      {
        NextContinues(layout, rs, q);
        F.LinesSnoc(layout.codec, rs, rec);
        IndexOfSnoc(map[], rs, rec);
      }
      return Ok(rec);
    }

    /** The cursor loop over the bytes. */
    method ReadRecords() returns (g: Scanned)
      modifies this`index
      ensures g == ScanFile(layout, file)
      ensures g.Good? ==> index == IndexOf(old(index), g.records)
    {
      var records: seq<Record> := [];
      var expected, prev := 1, GENESIS;
      var pos := 0;
      ghost var whole := ScanFile(layout, file);
      assert file[0..] == file;
      PrependNothing(whole);
      while pos < |file|
        invariant 0 <= pos <= |file|
        invariant whole == Prepend(records, Scan(layout, file[pos..], expected, prev))
        invariant index == IndexOf(old(index), records)
        decreases |file| - pos
      {
        var start := pos;
        match ReadChunk(layout, file[pos..], expected, prev)
        case BlankLine =>
          pos := pos + 1;
          assert file[start..][1..] == file[pos..];
        case Fragment(n) =>
          assert records + [] == records;
          return Good(records, Torn(n));
        case Fatal(e) =>
          return Bad(e);
        case Unterminated(rec) =>
          IndexOfSnoc(old(index), records, rec);
          index := index[rec.clientRef := rec];
          return Good(records + [rec], NoNewline);
        case Whole(rec, n) =>
          pos := pos + n + 1;
          prev := rec.hash;
          expected := expected + 1;
          assert file[start..][n + 1..] == file[pos..];
          PrependSnoc(records, rec, Scan(layout, file[pos..], expected, prev));
          IndexOfSnoc(old(index), records, rec);
          index := index[rec.clientRef := rec];
          records := records + [rec];
      }
      assert records + [] == records;
      g := Good(records, Clean);
    }

    /** Replay from the start of the file, with tail repair. `repair` says whether truncating the
        file or restoring the newline works and is durable; `reached` whether a failed repair
        still changed the file. */
    method Replay(opening: Opening, repair: bool, reached: bool) returns (r: Result<seq<Record>, ReplayError>)
      requires opening.Absent? ==> file == ""
      modifies this
      ensures !opening.Opened? ==>
        && r == (if opening.Absent? then Ok([]) else Err(NotOpened))
        && file == old(file) && nextSeq == old(nextSeq) && lastHash == old(lastHash) && index == old(index)
        && tornTail == TornTail(false, 0, 0, 0)
      ensures opening.Opened? ==> match ScanFile(layout, old(file))
        case Bad(e) =>
          r == Err(e) && file == old(file) && nextSeq == old(nextSeq) && lastHash == old(lastHash)
        case Good(rs, tail) =>
          if tail.Clean? || repair then
            && r == Ok(rs)
            && file == Repaired(old(file), tail)
            && nextSeq == (if rs == [] then 1 else rs[|rs| - 1].seqNo + 1)
            && lastHash == LastHash(rs, "")
            && index == IndexOf(old(index), rs)
            && tornTail == TailReport(old(file), ScanFile(layout, old(file)))
          else
            && r == Err(RepairFailed)
            && file == (if reached then Repaired(old(file), tail) else old(file))
            && nextSeq == old(nextSeq) && lastHash == old(lastHash)
    {
      tornTail := TornTail(false, 0, 0, 0);
      if opening.Absent? {
        return Ok([]);
      }
      if opening.Unopenable? {
        return Err(NotOpened);
      }
      var contents := file;
      var g := ReadRecords();
      if g.Bad? {
        return Err(g.error);
      }
      if !g.tail.Clean? {
        if repair || reached {
          file := Repaired(contents, g.tail);
        }
        if !repair {
          return Err(RepairFailed);
        }
      }
      var records := g.records;
      tornTail := TailReport(contents, g);
      if records != [] {
        lastHash := records[|records| - 1].hash;
        nextSeq := records[|records| - 1].seqNo + 1;
      } else {
        lastHash := "";
        nextSeq := 1;
      }
      return Ok(records);
    }

    /** The latest record of a ref. The query is canonicalised like the ref that was stored. */
    method LastFor(clientRef: string) returns (r: Option<Record>)
      ensures r == Lookup(index, Utf8.Canonical(clientRef))
      ensures forall rs :: Holds(rs) ==> IsLatest(rs, Utf8.Canonical(clientRef), r)
    {
      var key := Utf8.CanonicalText(clientRef);
      r := Lookup(index, key);
      forall rs | Holds(rs)
        ensures IsLatest(rs, key, r)
      {
        IndexHoldsLatest(rs, key);
      }
    }
  }

  lemma PrependSnoc(rs: seq<Record>, r: Record, s: Scanned)
    ensures Prepend(rs, Prepend([r], s)) == Prepend(rs + [r], s)
  {
    if s.Good? {
      assert rs + ([r] + s.records) == rs + [r] + s.records;
    }
  }

  lemma {:induction false} IndexOfSnoc(index: map<string, Record>, rs: seq<Record>, r: Record)
    ensures IndexOf(index, rs + [r]) == IndexOf(index, rs)[r.clientRef := r]
    decreases |rs|
  {
    if rs == [] {
      assert rs + [r] == [r] && [r][1..] == [];
    } else {
      assert (rs + [r])[1..] == rs[1..] + [r] && (rs + [r])[0] == rs[0];
      IndexOfSnoc(index[rs[0].clientRef := rs[0]], rs[1..], r);
    }
  }

  /** Replaying the bytes a crash left puts a log object back on its feet. */
  method Boot(layout: Layout, ghost rs: seq<Record>, ghost life: Life, bytes: string)
    returns (log: Log, records: seq<Record>)
    requires Usable(layout) && WellBuilt(layout, rs) && bytes == FileAfter(layout, rs, life)
    ensures fresh(log) && log.layout == layout && log.Holds(records)
    ensures AppendAll(layout, rs, life.done) <= records
    ensures ScanFile(layout, bytes).Good? && records == ScanFile(layout, bytes).records
  {
    BootFinds(layout, rs, life, bytes);
    log := new Log(layout, bytes);
    var r := log.Replay(Opened, true, true);
    records := r.value;
  }

  lemma BootFinds(y: Layout, rs: seq<Record>, life: Life, bytes: string)
    requires Usable(y) && WellBuilt(y, rs) && bytes == FileAfter(y, rs, life)
    ensures var g := ScanFile(y, bytes);
      && g.Good? && WellBuilt(y, g.records) && AppendAll(y, rs, life.done) <= g.records
      && Repaired(bytes, g.tail) == Lines(y, g.records)
      && (g.records != [] ==> g.records[|g.records| - 1].seqNo == |g.records|)
  {
    LifeIsSurvived(y, rs, life);
    LastNumber(y, ScanFile(y, bytes).records);
  }

  /** The file of a log object that holds `rs` replays to `rs`. */
  lemma HeldIsReplayed(log: Log, rs: seq<Record>)
    requires Usable(log.layout) && log.Holds(rs)
    ensures ScanFile(log.layout, log.file) == Good(rs, Clean)
  {
    F.StoredIsLegible(log.layout.codec, rs);
    assert Lines(log.layout, rs) + "" == log.file;
    ScanLines(log.layout, rs, "", 1, GENESIS);
    assert rs + [] == rs;
  }

  /** A crash inside one append adds that one record or none. */
  lemma CrashedAppendKeeps(y: Layout, rs: seq<Record>, q: Request, cut: nat, boots: seq<nat>)
    requires Usable(y) && WellBuilt(y, rs)
    ensures var g := ScanFile(y, FileAfter(y, rs, Life([], q, cut, boots)));
      g.Good? && (g.records == rs || (cut > 0 && g.records == rs + [Next(y, rs, q)]))
  {
    var r := Next(y, rs, q);
    NextContinues(y, rs, q);
    var k := BootsOnlyMoveCut(y, rs, r, if cut <= |Line(y, r)| then cut else |Line(y, r)|, boots);
    CutLogReplays(y, rs, r, k);
    F.StoredAppend(y.codec, rs, [r]);
    assert F.OneLine(y.codec, r);
  }

  lemma LastNumber(y: Layout, rs: seq<Record>)
    requires Chain(y, rs, 1, GENESIS)
    ensures rs != [] ==> rs[|rs| - 1].seqNo == |rs|
  {
    if rs != [] {
      var front, back := rs[..|rs| - 1], rs[|rs| - 1];
      assert rs == front + [back];
      ChainAppend(y, front, back, 1, GENESIS);
    }
  }
}
