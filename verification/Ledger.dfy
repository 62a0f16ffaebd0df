/** The tamper-evident ledger (src/ledger/ledger.cpp): an append is all-or-nothing or seals the
    object, and no sequence of failing writes, failing rollbacks, crashes and reloads leaves a
    file that cannot be loaded.

    The file is its bytes, or absent. Whether the measurement, the open, the write, the sync, the
    close and the rollback of one append succeed, and how many bytes a failed write left, are
    inputs (`Io`). The text of an entry is the scrubbed payload with its provenance block. */
module Ledger {
  import opened Options
  import opened LedgerEntry
  import F = LineFormat
  import J = JsonLine
  import S = Sequences
  import Utf8

  type Digest = string -> string

  /** The signed bundle a checkpoint file holds; keys and signatures are their bytes. */
  datatype Checkpoint = Checkpoint(size: int, head: string, signature: string, publicKey: string)

  datatype CheckpointFile = NoCheckpoint | Unreadable | Malformed | Readable(checkpoint: Checkpoint)

  datatype CheckpointFailure = NotRead | NotWellFormed | NonPositive | OtherKey | Forged | Truncated | Substituted

  /** Is a signature of a text valid under a key? */
  type Verifier = (string, string, string) -> bool

  /** A line codec and a digest; the empty digest is how the hashing library reports failure. */
  datatype Layout = Layout(codec: EntryCodec, digest: Digest)

  function JsonLayout(h: Digest): Layout {
    Layout(JsonFormat(), h)
  }

  // ---------------------------------------------------------------- the chain

  function HeadHash(es: seq<Entry>): string {
    if es == [] then "" else es[|es| - 1].hash
  }

  /** Entry `e` may stand behind `es`. */
  predicate Links(y: Layout, es: seq<Entry>, e: Entry) {
    && e.seqNo == |es|
    && e.prevHash == HeadHash(es)
    && e.hash != ""
    && e.hash == y.digest(e.prevHash + e.payload)
  }

  /** What verify_chain accepts. */
  predicate Verified(y: Layout, es: seq<Entry>) {
    forall i :: 0 <= i < |es| ==> Links(y, es[..i], es[i])
  }

  lemma VerifiedSnoc(y: Layout, es: seq<Entry>, e: Entry)
    ensures Verified(y, es + [e]) <==> Verified(y, es) && Links(y, es, e)
  {
    var all := es + [e];
    assert all[|es|] == e && all[..|es|] == es;
    assert forall i :: 0 <= i < |es| ==> all[i] == es[i] && all[..i] == es[..i];
  }

  lemma HeadOfPrefix(es: seq<Entry>, i: nat)
    requires i <= |es|
    ensures HeadHash(es[..i]) == if i == 0 then "" else es[i - 1].hash
  {
  }

  lemma VerifiedNext(y: Layout, es: seq<Entry>, i: nat)
    requires i < |es| && Verified(y, es[..i]) && Links(y, es[..i], es[i])
    ensures Verified(y, es[..i + 1])
  {
    VerifiedSnoc(y, es[..i], es[i]);
    assert es[..i] + [es[i]] == es[..i + 1];
  }

  // ---------------------------------------------------------------- reading the file

  /** std::getline over the whole text. */
  function SplitLines(s: string): seq<string>
    decreases |s|
  {
    if s == "" then []
    else
      var n := F.LineEnd(s);
      [s[..n]] + if n == |s| then [] else SplitLines(s[n + 1..])
  }

  /** Index of the last non-blank line, or the number of lines if there is none. */
  function LastContent(lines: seq<string>, upTo: nat): nat
    requires upTo <= |lines|
  {
    if upTo == 0 then |lines|
    else if lines[upTo - 1] != "" then upTo - 1
    else LastContent(lines, upTo - 1)
  }

  datatype Loaded = LoadFailed(line: nat) | LoadedOk(entries: seq<Entry>)

  function Prepend(es: seq<Entry>, l: Loaded): Loaded {
    match l
    case LoadFailed(_) => l
    case LoadedOk(more) => LoadedOk(es + more)
  }

  /** The entries of the lines from `i` on; only line `last` may be unreadable. */
  function Collect(y: Layout, lines: seq<string>, last: nat, i: nat): Loaded
    requires i <= |lines|
    decreases |lines| - i
  {
    if i == |lines| then LoadedOk([])
    else if lines[i] == "" then Collect(y, lines, last, i + 1)
    else
      match y.codec.read(lines[i])
      case Readable(e) => Prepend([e], Collect(y, lines, last, i + 1))
      case _ => if i == last then Collect(y, lines, last, i + 1) else LoadFailed(i + 1)
  }

  function LoadText(y: Layout, text: string): Loaded {
    var lines := SplitLines(text);
    Collect(y, lines, LastContent(lines, |lines|), 0)
  }

  // ---------------------------------------------------------------- one append

  /** How the rollback of a failed append goes. `Unsynced` has truncated the file but could not
      make that durable, so a crash may bring the bytes back. */
  datatype Rollback = RolledBack | Unmeasured | NotTruncated | Unsynced

  /** What the operating system does during one append. */
  datatype Io =
    | CannotMeasure
    | TailUnreadable
    | CannotOpen
    | Fails(reached: nat, rollback: Rollback)
    | Works

  datatype AppendError = Sealed | Unhashed | NotMeasured | TornFile | NotOpened | NotWritten | SealedNow

  /** The first bytes of a line that were written, or cut off again, but neither of them durably: a
      crash leaves `base` and any prefix of `piece`. */
  datatype Loose = Loose(base: string, piece: string)

  datatype State = State(file: Option<string>, entries: seq<Entry>, isSealed: bool, loose: Option<Loose>)

  function Text(file: Option<string>): string {
    match file
    case None => ""
    case Some(s) => s
  }

  function NewEntry(y: Layout, es: seq<Entry>, text: string): Entry {
    var payload := Utf8.Canonical(text);
    Entry(|es|, HeadHash(es), payload, y.digest(HeadHash(es) + payload))
  }

  predicate OnBoundary(text: string) {
    text == "" || text[|text| - 1] == '\n'
  }

  /** The first `k` bytes of `line`, or all of it. */
  function Reached(line: string, k: nat): string {
    line[..if k <= |line| then k else |line|]
  }

  /** One append: the state after it, and its result. */
  function AppendStep(y: Layout, st: State, text: string, io: Io): (State, Result<Entry, AppendError>) {
    var e := NewEntry(y, st.entries, text);
    var line := y.codec.body(e) + "\n";
    var before := Text(st.file);
    if st.isSealed then (st, Err(Sealed))
    else if e.hash == "" then (st, Err(Unhashed))
    else if io.CannotMeasure? then (st, Err(NotMeasured))
    else if before != "" && (io.TailUnreadable? || !OnBoundary(before)) then
      (st.(isSealed := true), Err(TornFile))
    else if io.CannotOpen? then (st, Err(NotOpened))
    else if io.Fails? then
      var piece := Reached(line, io.reached);
      var stuck := State(Some(before + piece), st.entries, true, Some(Loose(before, piece)));
      match io.rollback
      case Unmeasured => (stuck, Err(SealedNow))
      case NotTruncated => if piece == "" then (st.(file := Some(before)), Err(NotWritten)) else (stuck, Err(SealedNow))
      case Unsynced =>
        if piece == "" then (st.(file := Some(before)), Err(NotWritten))
        else (stuck.(file := Some(before)), Err(SealedNow))
      case RolledBack => (st.(file := Some(before)), Err(NotWritten))
    else
      (st.(file := Some(before + line), entries := st.entries + [e]), Ok(e))
  }

  // ---------------------------------------------------------------- the object

  class Ledger {
    const layout: Layout
    var file: Option<string>
    var entries: seq<Entry>
    var isSealed: bool
    ghost var loose: Option<Loose>

    constructor (layout: Layout, file: Option<string>)
      ensures this.layout == layout && Snapshot() == State(file, [], false, None)
    {
      this.layout := layout;
      this.file := file;
      entries := [];
      isSealed := false;
      loose := None;
    }

    ghost function Snapshot(): State
      reads this
    {
      State(file, entries, isSealed, loose)
    }

    method Append(text: string, io: Io) returns (r: Result<Entry, AppendError>)
      modifies this
      ensures (Snapshot(), r) == AppendStep(layout, old(Snapshot()), text, io)
    {
      if isSealed {
        return Err(Sealed);
      }
      var payload := Utf8.CanonicalText(text);
      var prev := if entries == [] then "" else entries[|entries| - 1].hash;
      var e := Entry(|entries|, prev, payload, layout.digest(prev + payload));
      if e.hash == "" {
        return Err(Unhashed);
      }
      var line := layout.codec.body(e) + "\n";
      if io.CannotMeasure? {
        return Err(NotMeasured);
      }
      var before := Text(file);
      if before != "" {
        var boundary := !io.TailUnreadable? && before[|before| - 1] == '\n';
        if !boundary {
          isSealed := true;
          return Err(TornFile);
        }
      }
      if io.CannotOpen? {
        return Err(NotOpened);
      }
      if io.Fails? {
        file := Some(before + Reached(line, io.reached));
        var restored := RestoreToSize(|before|, io.rollback);
        if !restored {
          isSealed := true;
          loose := Some(Loose(before, Reached(line, io.reached)));
          return Err(SealedNow);
        }
        return Err(NotWritten);
      }
      file := Some(before + line);
      entries := entries + [e];
      return Ok(e);
    }

    /** Bring the file back to `size` bytes, durably; false unless that is proven. A file that has
        shrunk below that is not extended. */
    method RestoreToSize(size: nat, rollback: Rollback) returns (restored: bool)
      requires file.Some?
      modifies this`file
      ensures var n := |old(file.value)|;
        && (restored <==> !rollback.Unmeasured? && (n == size || (n > size && rollback.RolledBack?)))
        && file == if n >= size && (restored || rollback.Unsynced?) then Some(old(file.value)[..size]) else old(file)
    {
      if rollback.Unmeasured? {
        return false;
      }
      if |file.value| == size {
        assert file.value[..size] == file.value;
        return true;
      }
      if |file.value| < size || rollback.NotTruncated? {
        return false;
      }
      file := Some(file.value[..size]);
      return !rollback.Unsynced?;
    }

    /** Rebuild the entries from the file. An absent file is an error; the seal stays. */
    method Load() returns (ok: bool)
      modifies this`entries
      ensures file.None? ==> !ok && entries == []
      ensures file.Some? ==>
        match LoadText(layout, file.value)
        case LoadFailed(_) => !ok
        case LoadedOk(es) => ok && entries == es
    {
      entries := [];
      if file.None? {
        return false;
      }
      var lines := ReadLines(file.value);
      var last := FindLastContent(lines);
      ghost var whole := Collect(layout, lines, last, 0);
      var i := 0;
      PrependNothing(whole);
      while i < |lines|
        invariant 0 <= i <= |lines|
        invariant whole == Prepend(entries, Collect(layout, lines, last, i))
      {
        if lines[i] != "" {
          match layout.codec.read(lines[i])
          case Readable(e) =>
            PrependTwice(entries, e, Collect(layout, lines, last, i + 1));
            entries := entries + [e];
          case _ =>
            if i != last {
              return false;
            }
        }
        i := i + 1;
      }
      assert entries + [] == entries;
      return true;
    }

    /** Walk the chain; on a break, the number of the first bad entry. */
    method VerifyChain() returns (bad: Option<nat>)
      ensures bad.None? <==> Verified(layout, entries)
      ensures bad.Some? ==> bad.value < |entries|
      ensures bad.Some? ==> Verified(layout, entries[..bad.value])
      ensures bad.Some? ==> !Links(layout, entries[..bad.value], entries[bad.value])
    {
      var i := 0;
      while i < |entries|
        invariant 0 <= i <= |entries|
        invariant Verified(layout, entries[..i])
      {
        var e := entries[i];
        var expected := layout.digest(e.prevHash + e.payload);
        var hashOk := expected != "" && e.hash == expected;
        var linkOk := if i == 0 then e.prevHash == "" else e.prevHash == entries[i - 1].hash;
        var seqOk := e.seqNo == i;
        HeadOfPrefix(entries, i);
        if !hashOk || !linkOk || !seqOk {
          return Some(i);
        }
        VerifiedNext(layout, entries, i);
        i := i + 1;
      }
      assert entries[..i] == entries;
      return None;
    }

    /** The high-water mark of the ledger, signed; an empty ledger has none. Only the head hash is
        under the signature. */
    method MakeCheckpoint(sign: string -> string, publicKey: string) returns (c: Option<Checkpoint>)
      ensures c.None? <==> HeadHash(entries) == ""
      ensures c.Some? ==>
        && c.value == Checkpoint(|entries|, HeadHash(entries), sign(HeadHash(entries)), publicKey)
        && Reaches(entries, c.value.size, c.value.head)
    {
      var head := if entries == [] then "" else entries[|entries| - 1].hash;
      if head == "" {
        return None;
      }
      return Some(Checkpoint(|entries|, head, sign(head), publicKey));
    }

    /** Does the ledger still reach the retained checkpoint, signed under the pinned key? Without one
        there is nothing to compare; everything else fails closed. */
    method VerifyAgainstCheckpoint(file: CheckpointFile, pinned: string, verifies: Verifier)
      returns (failure: Option<CheckpointFailure>)
      ensures failure.None? <==>
        file.NoCheckpoint? ||
        (file.Readable? &&
         var c := file.checkpoint;
         c.publicKey == pinned && verifies(c.head, c.signature, pinned) && Reaches(entries, c.size, c.head))
      ensures file.Readable? ==>
        var c := file.checkpoint;
        var genuine := c.size >= 1 && c.publicKey == pinned && verifies(c.head, c.signature, pinned);
        && (failure == Some(NonPositive) <==> c.size < 1)
        && (failure == Some(OtherKey) <==> c.size >= 1 && c.publicKey != pinned)
        && (failure == Some(Truncated) <==> genuine && |entries| < c.size)
        && (failure == Some(Substituted) <==> genuine && |entries| >= c.size && entries[c.size - 1].hash != c.head)
    {
      match file
      case NoCheckpoint => return None;
      case Unreadable => return Some(NotRead);
      case Malformed => return Some(NotWellFormed);
      case Readable(c) =>
        if c.size < 1 {
          return Some(NonPositive);
        }
        if pinned != c.publicKey {
          return Some(OtherKey);
        }
        if !verifies(c.head, c.signature, pinned) {
          return Some(Forged);
        }
        if |entries| < c.size {
          return Some(Truncated);
        }
        if entries[c.size - 1].hash != c.head {
          return Some(Substituted);
        }
        return None;
    }
  }

  /** The ledger still has, behind its first `size` entries, the head hash `head`. */
  predicate Reaches(es: seq<Entry>, size: int, head: string) {
    0 < size <= |es| && es[size - 1].hash == head
  }

  method ReadLines(text: string) returns (lines: seq<string>)
    ensures lines == SplitLines(text)
  {
    lines := [];
    var pos := 0;
    assert text[0..] == text;
    while pos < |text|
      invariant 0 <= pos <= |text|
      invariant lines + SplitLines(text[pos..]) == SplitLines(text)
    {
      var n := F.LineEnd(text[pos..]);
      var next := if pos + n == |text| then pos + n else pos + n + 1;
      SplitStep(text, pos, n, next, lines, SplitLines(text));
      lines := lines + [text[pos..pos + n]];
      pos := next;
    }
    assert lines + [] == lines;
  }

  lemma SplitStep(text: string, pos: nat, n: nat, next: nat, lines: seq<string>, whole: seq<string>)
    requires pos < |text| && lines + SplitLines(text[pos..]) == whole
    requires n == F.LineEnd(text[pos..])
    requires next == if pos + n == |text| then pos + n else pos + n + 1
    ensures pos + n <= |text| && next <= |text|
    ensures lines + [text[pos..pos + n]] + SplitLines(text[next..]) == whole
  {
    assert text[pos..][..n] == text[pos..pos + n];
    if pos + n == |text| {
      assert text[next..] == "";
    } else {
      assert text[pos..][n + 1..] == text[next..];
    }
    S.Regroup(lines, [text[pos..pos + n]], SplitLines(text[next..]));
  }

  method FindLastContent(lines: seq<string>) returns (last: nat)
    ensures last == LastContent(lines, |lines|)
  {
    var i := |lines|;
    while i > 0
      invariant 0 <= i <= |lines|
      invariant LastContent(lines, |lines|) == LastContent(lines, i)
    {
      i := i - 1;
      if lines[i] != "" {
        return i;
      }
    }
    return |lines|;
  }

  lemma PrependNothing(l: Loaded)
    ensures Prepend([], l) == l
  {
    if l.LoadedOk? {
      assert [] + l.entries == l.entries;
    }
  }

  lemma PrependTwice(es: seq<Entry>, e: Entry, l: Loaded)
    ensures Prepend(es, Prepend([e], l)) == Prepend(es + [e], l)
  {
    if l.LoadedOk? {
      assert es + ([e] + l.entries) == es + [e] + l.entries;
    }
  }

  // ---------------------------------------------------------------- loading what was written

  function Bodies(y: Layout, es: seq<Entry>): seq<string> {
    if es == [] then [] else [y.codec.body(es[0])] + Bodies(y, es[1..])
  }

  /** The lines of a file that ends in an unterminated piece `cut`. */
  lemma {:induction false} SplitOfLines(y: Layout, es: seq<Entry>, cut: string)
    requires F.Legible(y.codec, es) && '\n' !in cut
    ensures SplitLines(F.Lines(y.codec, es) + cut) == Bodies(y, es) + if cut == "" then [] else [cut]
  {
    if es == [] {
      assert F.Lines(y.codec, es) + cut == cut;
      if cut != "" {
        assert cut + "" == cut;
        F.LineEndOf(cut, "");
        assert cut[..|cut|] == cut;
      }
    } else {
      var body, more := y.codec.body(es[0]), F.Lines(y.codec, es[1..]);
      assert body + "\n" + more + cut == body + "\n" + (more + cut);
      SplitTerminated(body, more + cut);
      SplitOfLines(y, es[1..], cut);
      var tl := if cut == "" then [] else [cut];
      assert [body] + (Bodies(y, es[1..]) + tl) == [body] + Bodies(y, es[1..]) + tl;
    }
  }

  lemma SplitTerminated(line: string, rest: string)
    requires '\n' !in line
    ensures SplitLines(line + "\n" + rest) == [line] + SplitLines(rest)
  {
    assert line + "\n" + rest == line + ("\n" + rest);
    F.LineEndOf(line, "\n" + rest);
    assert ("\n" + rest)[1..] == rest;
  }

  lemma {:induction false} BodyAt(y: Layout, es: seq<Entry>, i: nat)
    requires i < |es| && F.Legible(y.codec, es)
    ensures |Bodies(y, es)| == |es| && Bodies(y, es)[i] == y.codec.body(es[i])
    ensures F.OneLine(y.codec, es[i])
  {
    if i == 0 {
      BodiesLength(y, es[1..]);
    } else {
      BodyAt(y, es[1..], i - 1);
    }
  }

  lemma {:induction false} BodiesLength(y: Layout, es: seq<Entry>)
    ensures |Bodies(y, es)| == |es|
  {
    if es != [] {
      BodiesLength(y, es[1..]);
    }
  }

  /** Loading intact lines, whatever stands behind them. */
  lemma {:induction false} CollectBodies(y: Layout, es: seq<Entry>, lines: seq<string>, last: nat, i: nat)
    requires F.Legible(y.codec, es) && Bodies(y, es) <= lines && i <= |es| <= |lines|
    ensures Collect(y, lines, last, i) == Prepend(es[i..], Collect(y, lines, last, |es|))
    decreases |es| - i
  {
    if i == |es| {
      assert es[i..] == [];
      PrependNothing(Collect(y, lines, last, i));
    } else {
      BodyAt(y, es, i);
      assert lines[i] == Bodies(y, es)[i];
      CollectBodies(y, es, lines, last, i + 1);
      PrependSlice(es, i, Collect(y, lines, last, |es|));
    }
  }

  lemma PrependSlice(es: seq<Entry>, i: nat, l: Loaded)
    requires i < |es|
    ensures Prepend([es[i]], Prepend(es[i + 1..], l)) == Prepend(es[i..], l)
  {
    if l.LoadedOk? {
      assert [es[i]] + (es[i + 1..] + l.entries) == es[i..] + l.entries;
    }
  }

  /** A file of intact lines and one unterminated piece loads: the piece counts as an entry if it
      reads as one, and is skipped otherwise. */
  lemma LoadOfLines(y: Layout, es: seq<Entry>, cut: string)
    requires F.Legible(y.codec, es) && '\n' !in cut
    ensures LoadText(y, F.Lines(y.codec, es) + cut)
         == LoadedOk(es + if cut != "" && y.codec.read(cut).Readable? then [y.codec.read(cut).record] else [])
  {
    var lines := SplitLines(F.Lines(y.codec, es) + cut);
    var last := LastContent(lines, |lines|);
    SplitOfLines(y, es, cut);
    BodiesLength(y, es);
    CollectBodies(y, es, lines, last, 0);
    assert es[0..] == es;
    if cut != "" {
      assert lines[|es|] == cut;
      assert last == |es|;
    }
  }

  // ---------------------------------------------------------------- all or nothing

  /** An append either lands whole, in the file and in memory; or leaves both as they were; or
      seals. Nothing that was in the file is ever lost, and a sealed ledger changes nothing. */
  lemma AppendIsAllOrNothing(y: Layout, st: State, text: string, io: Io)
    ensures var (st', r) := AppendStep(y, st, text, io);
      && (r.Ok? ==>
            && Text(st'.file) == Text(st.file) + (y.codec.body(r.value) + "\n")
            && st'.entries == st.entries + [r.value]
            && !st'.isSealed
            && r.value.seqNo == |st.entries| && r.value.payload == Utf8.Canonical(text)
            && r.value.prevHash == (if st.entries == [] then "" else st.entries[|st.entries| - 1].hash)
            && r.value.hash == y.digest(r.value.prevHash + r.value.payload))
      && (r.Err? && !st'.isSealed ==> Text(st'.file) == Text(st.file) && st'.entries == st.entries)
      && (r.Err? && st'.isSealed ==>
            && Text(st.file) <= Text(st'.file) <= Text(st.file) + (y.codec.body(NewEntry(y, st.entries, text)) + "\n")
            && st'.entries == st.entries)
      && (st.isSealed ==> st' == st && r.Err?)
  {
    if io.Fails? {
      ReachedIsPrefix(Text(st.file), y.codec.body(NewEntry(y, st.entries, text)) + "\n", io.reached);
    }
  }

  /** Exactly when an append succeeds, and exactly when it seals: on a file that does not end on a
      record boundary, or once bytes of its own may be left. */
  lemma AppendOutcomeIff(y: Layout, st: State, text: string, io: Io)
    ensures var (st', r) := AppendStep(y, st, text, io);
      var before := Text(st.file);
      var started := !st.isSealed && NewEntry(y, st.entries, text).hash != "" && io != CannotMeasure;
      var boundary := before == "" || (io != TailUnreadable && before[|before| - 1] == '\n');
      && (r.Ok? <==> started && boundary && (io.Works? || io.TailUnreadable?))
      && (st'.isSealed <==>
            || st.isSealed
            || (started && !boundary)
            || (started && io.Fails?
                && (io.rollback == Unmeasured || (io.reached > 0 && io.rollback in {NotTruncated, Unsynced}))))
  {
  }

  lemma ReachedIsPrefix(before: string, line: string, k: nat)
    ensures before <= before + Reached(line, k) <= before + line
  {
  }

  // ---------------------------------------------------------------- runs

  /** What happens to a ledger: an append, a reload, or the death of the process while an append
      had put `k` bytes of its line into the file, followed by a fresh object and its load. */
  datatype Event = Append(text: string, io: Io) | Reload | Crash(inFlight: string, k: nat)

  function LoadStep(y: Layout, st: State): State {
    if st.file.None? then st.(entries := [])
    else
      match LoadText(y, st.file.value)
      case LoadFailed(_) => st.(entries := [])
      case LoadedOk(es) => st.(entries := es)
  }

  /** The file a process leaves that dies inside an append. It writes nothing that the append
      would have refused to write; but of loose bytes any number may stay, or come back. */
  function FileAfterCrash(y: Layout, st: State, text: string, k: nat): Option<string> {
    var e := NewEntry(y, st.entries, text);
    if st.loose.Some? then Some(st.loose.value.base + Reached(st.loose.value.piece, k))
    else if st.isSealed || e.hash == "" || !OnBoundary(Text(st.file)) then st.file
    else Some(Text(st.file) + Reached(y.codec.body(e) + "\n", k))
  }

  /** The state after an event, and the entry it reported as written, if any. */
  function Step(y: Layout, st: State, ev: Event): (State, Option<Entry>) {
    match ev
    case Append(text, io) =>
      var (st', r) := AppendStep(y, st, text, io);
      (st', if r.Ok? then Some(r.value) else None)
    case Reload => (LoadStep(y, st), None)
    case Crash(text, k) => (LoadStep(y, State(FileAfterCrash(y, st, text, k), [], false, None)), None)
  }

  function WithFirst(first: Option<Entry>, more: seq<Entry>): seq<Entry> {
    if first.Some? then [first.value] + more else more
  }

  /** A run, and every entry reported as written during it. */
  function Run(y: Layout, st: State, evs: seq<Event>): (State, seq<Entry>)
    decreases |evs|
  {
    if evs == [] then (st, [])
    else
      var (st1, reported) := Step(y, st, evs[0]);
      var (st2, more) := Run(y, st1, evs[1..]);
      (st2, WithFirst(reported, more))
  }

  /** What runs need of a layout: its line laws, and that whatever an append builds behind a
      stored entry can be stored. */
  ghost predicate Usable(y: Layout) {
    && F.Lawful(y.codec)
    && (forall text, es :: F.AllStored(y.codec, es) ==> y.codec.stored(NewEntry(y, es, text)))
  }

  lemma JsonLayoutUsable(h: Digest)
    requires forall s :: J.Plain(h(s))
    ensures Usable(JsonLayout(h))
  {
    JsonFormatLawful();
    var y := JsonLayout(h);
    forall text, es | F.AllStored(y.codec, es)
      ensures y.codec.stored(NewEntry(y, es, text))
    {
      Utf8.CanonicalIdempotent(text);
      J.AsciiIsPlain("");
      if es != [] {
        assert y.codec.stored(es[|es| - 1]);
      }
    }
  }

  /** `committed` are the entries whose lines are durably complete; `cut` is what stands behind them
      in the file: a piece of the line of an entry that would continue the chain. */
  ghost predicate Represents(y: Layout, st: State, committed: seq<Entry>, cut: string) {
    && Verified(y, committed)
    && F.AllStored(y.codec, committed)
    && if st.loose.Some? then st.isSealed && Hangs(y, st, committed)
       else
         && Text(st.file) == F.Lines(y.codec, committed) + cut
         && '\n' !in cut
         && (cut != "" ==> exists e :: PieceOf(y, committed, cut, e))
         && (cut == "" && !st.isSealed ==> st.entries == committed)
  }

  /** Loose bytes are the first ones of a line that would continue the chain. */
  ghost predicate Hangs(y: Layout, st: State, committed: seq<Entry>)
    requires st.loose.Some?
  {
    var l := st.loose.value;
    && l.base == F.Lines(y.codec, committed)
    && (Text(st.file) == l.base || Text(st.file) == l.base + l.piece)
    && exists e, k: nat :: Pending(y, committed, e) && l.piece == Reached(y.codec.body(e) + "\n", k)
  }

  ghost predicate PieceOf(y: Layout, committed: seq<Entry>, cut: string, e: Entry) {
    Links(y, committed, e) && y.codec.stored(e) && cut <= y.codec.body(e)
  }

  lemma {:induction false} LinesEndInNewline(y: Layout, es: seq<Entry>)
    ensures OnBoundary(F.Lines(y.codec, es))
    ensures F.Lines(y.codec, es) == "" <==> es == []
  {
    if es != [] {
      LinesEndInNewline(y, es[1..]);
    }
  }

  /** A file is on a record boundary exactly if nothing stands behind its complete lines. */
  lemma BoundaryIffNoCut(y: Layout, es: seq<Entry>, cut: string)
    requires '\n' !in cut
    ensures OnBoundary(F.Lines(y.codec, es) + cut) <==> cut == ""
  {
    LinesEndInNewline(y, es);
    var s := F.Lines(y.codec, es) + cut;
    if cut == "" {
      assert s == F.Lines(y.codec, es);
    } else {
      assert s[|s| - 1] == cut[|cut| - 1];
    }
  }

  /** What an append that has passed its checks is about to write. */
  ghost predicate Pending(y: Layout, es: seq<Entry>, e: Entry) {
    Links(y, es, e) && y.codec.stored(e) && F.OneLine(y.codec, e)
  }

  lemma NewEntryIsPending(y: Layout, es: seq<Entry>, text: string)
    requires Usable(y) && F.AllStored(y.codec, es) && NewEntry(y, es, text).hash != ""
    ensures Pending(y, es, NewEntry(y, es, text))
  {
  }

  /** Putting some first bytes of the next line into a clean file. */
  lemma WriteSome(y: Layout, st: State, es: seq<Entry>, e: Entry, k: nat) returns (committed: seq<Entry>, cut: string)
    requires Represents(y, st, es, "") && st.loose.None? && Pending(y, es, e)
    ensures var line := y.codec.body(e) + "\n";
      && Represents(y, State(Some(Text(st.file) + Reached(line, k)), [], true, None), committed, cut)
      && es <= committed
      && (k >= |line| ==> committed == es + [e] && cut == "")
      && (k == 0 ==> committed == es && cut == "")
  {
    var body := y.codec.body(e);
    var line := body + "\n";
    var lines := F.Lines(y.codec, es);
    assert Text(st.file) == lines;
    if k >= |line| {
      committed, cut := es + [e], "";
      VerifiedSnoc(y, es, e);
      F.StoredAppend(y.codec, es, [e]);
      F.LinesSnoc(y.codec, es, e);
      assert line[..|line|] == line;
      assert lines + line == lines + line + "";
    } else {
      committed, cut := es, line[..k];
      assert cut == body[..k];
      if k > 0 {
        assert PieceOf(y, committed, cut, e);
      }
    }
  }

  lemma CutReads(y: Layout, e: Entry, cut: string)
    requires F.OneLine(y.codec, e) && F.TornUnreadable(y.codec, e) && cut <= y.codec.body(e)
    ensures y.codec.read(cut) == if cut == y.codec.body(e) then F.Readable(e) else F.Unreadable
  {
  }

  lemma PieceReads(y: Layout, es: seq<Entry>, cut: string, e: Entry)
    requires Usable(y) && PieceOf(y, es, cut, e)
    ensures y.codec.read(cut) == if cut == y.codec.body(e) then F.Readable(e) else F.Unreadable
  {
    assert F.OneLine(y.codec, e) && F.TornUnreadable(y.codec, e);
    CutReads(y, e, cut);
  }

  lemma LoadRepresented(y: Layout, st: State, committed: seq<Entry>, cut: string)
    requires Usable(y) && Represents(y, st, committed, cut)
    ensures LoadText(y, Text(st.file)).LoadedOk?
    ensures var es := LoadText(y, Text(st.file)).entries;
      && Verified(y, es)
      && committed <= es
      && (cut == "" && st.loose.None? ==> es == committed)
  {
    if st.loose.Some? {
      var e, k: nat :| Pending(y, committed, e) && st.loose.value.piece == Reached(y.codec.body(e) + "\n", k);
      var shown := if Text(st.file) == st.loose.value.base then 0 else k;
      var more, rest := LooseShows(y, st, committed, e, shown);
      LoadSettled(y, State(st.file, [], true, None), more, rest);
    } else {
      LoadSettled(y, st, committed, cut);
    }
  }

  lemma LoadSettled(y: Layout, st: State, committed: seq<Entry>, cut: string)
    requires Usable(y) && Represents(y, st, committed, cut) && st.loose.None?
    ensures LoadText(y, Text(st.file)).LoadedOk?
    ensures var es := LoadText(y, Text(st.file)).entries;
      && Verified(y, es)
      && committed <= es
      && (cut == "" ==> es == committed)
  {
    F.StoredIsLegible(y.codec, committed);
    LoadOfLines(y, committed, cut);
    assert committed + [] == committed;
    if cut != "" {
      var e :| PieceOf(y, committed, cut, e);
      PieceReads(y, committed, cut, e);
      VerifiedSnoc(y, committed, e);
    }
  }

  /** A file of complete lines and the first `k` bytes of the next, whoever left them. */
  lemma LooseShows(y: Layout, st: State, es: seq<Entry>, e: Entry, k: nat) returns (committed: seq<Entry>, cut: string)
    requires Verified(y, es) && F.AllStored(y.codec, es) && Pending(y, es, e)
    requires Text(st.file) == F.Lines(y.codec, es) + Reached(y.codec.body(e) + "\n", k)
    ensures Represents(y, State(st.file, [], true, None), committed, cut) && es <= committed
  {
    var clean := State(Some(F.Lines(y.codec, es)), [], true, None);
    assert F.Lines(y.codec, es) + "" == F.Lines(y.codec, es);
    committed, cut := WriteSome(y, clean, es, e, k);
    Transfer(y, State(Some(Text(st.file)), [], true, None), State(st.file, [], true, None), committed, cut);
  }

  lemma AppendKeeps(y: Layout, st: State, es: seq<Entry>, cut: string, text: string, io: Io)
    returns (committed: seq<Entry>, cut': string)
    requires Usable(y) && Represents(y, st, es, cut)
    ensures var (st', r) := AppendStep(y, st, text, io);
      && Represents(y, st', committed, cut')
      && es <= committed
      && (r.Ok? ==> r.value.seqNo == |es| && committed == es + [r.value])
  {
    var (st', r) := AppendStep(y, st, text, io);
    if r.Ok? {
      LandedKeeps(y, st, es, cut, text, io);
      return es + [r.value], "";
    }
    FailedKeeps(y, st, es, cut, text, io);
    return es, cut;
  }

  lemma FailedKeeps(y: Layout, st: State, es: seq<Entry>, cut: string, text: string, io: Io)
    requires Usable(y) && Represents(y, st, es, cut) && AppendStep(y, st, text, io).1.Err?
    ensures Represents(y, AppendStep(y, st, text, io).0, es, cut)
  {
    var st' := AppendStep(y, st, text, io).0;
    if st'.loose != st.loose {
      HangingKeeps(y, st, es, cut, text, io);
    } else {
      UnchangedFile(y, st, text, io);
      Transfer(y, st, st', es, cut);
    }
  }

  lemma LandedKeeps(y: Layout, st: State, es: seq<Entry>, cut: string, text: string, io: Io)
    requires Usable(y) && Represents(y, st, es, cut) && AppendStep(y, st, text, io).1.Ok?
    ensures var (st', r) := AppendStep(y, st, text, io);
      cut == "" && Represents(y, st', es + [r.value], "") && r.value.seqNo == |es|
  {
    var (st', r) := AppendStep(y, st, text, io);
    LandedMeans(y, st, text, io);
    BoundaryIffNoCut(y, es, cut);
    NewEntryIsPending(y, es, text);
    AppendLands(y, st, st', es, r.value);
  }

  lemma HangingKeeps(y: Layout, st: State, es: seq<Entry>, cut: string, text: string, io: Io)
    requires Usable(y) && Represents(y, st, es, cut) && AppendStep(y, st, text, io).0.loose != st.loose
    ensures cut == "" && Represents(y, AppendStep(y, st, text, io).0, es, "")
  {
    HangingMeans(y, st, text, io);
    BoundaryIffNoCut(y, es, cut);
    NewEntryIsPending(y, es, text);
    AppendHangs(y, st, AppendStep(y, st, text, io).0, es, NewEntry(y, es, text), io.reached);
  }

  /** What an append has done that reports an entry. */
  lemma LandedMeans(y: Layout, st: State, text: string, io: Io)
    requires AppendStep(y, st, text, io).1.Ok?
    ensures var (st', r) := AppendStep(y, st, text, io);
      var e := NewEntry(y, st.entries, text);
      && !st.isSealed && OnBoundary(Text(st.file)) && e.hash != "" && r == Ok(e)
      && st' == State(Some(Text(st.file) + (y.codec.body(e) + "\n")), st.entries + [e], false, st.loose)
  {
  }

  /** And one that leaves loose bytes. */
  lemma HangingMeans(y: Layout, st: State, text: string, io: Io)
    requires AppendStep(y, st, text, io).0.loose != st.loose
    ensures var (st', r) := AppendStep(y, st, text, io);
      var e := NewEntry(y, st.entries, text);
      && !st.isSealed && OnBoundary(Text(st.file)) && e.hash != "" && r.Err?
      && io.Fails? && st'.isSealed
      && st'.loose == Some(Loose(Text(st.file), Reached(y.codec.body(e) + "\n", io.reached)))
      && (Text(st'.file) == st'.loose.value.base || Text(st'.file) == st'.loose.value.base + st'.loose.value.piece)
  {
  }

  lemma AppendLands(y: Layout, st: State, st': State, es: seq<Entry>, e: Entry)
    requires Represents(y, st, es, "") && st.loose.None? && Pending(y, es, e)
    requires st' == State(Some(Text(st.file) + (y.codec.body(e) + "\n")), es + [e], false, None)
    ensures Represents(y, st', es + [e], "")
  {
    var line := y.codec.body(e) + "\n";
    assert line[..|line|] == line;
    var committed, cut := WriteSome(y, st, es, e, |line|);
    Transfer(y, State(Some(Text(st.file) + Reached(line, |line|)), [], true, None), st', committed, cut);
  }

  /** An append that fails and is not taken back for certain seals, with its bytes loose. */
  lemma AppendHangs(y: Layout, st: State, st': State, es: seq<Entry>, e: Entry, k: nat)
    requires Represents(y, st, es, "") && st.loose.None? && Pending(y, es, e)
    requires st'.isSealed && st'.loose == Some(Loose(Text(st.file), Reached(y.codec.body(e) + "\n", k)))
    requires Text(st'.file) == st'.loose.value.base || Text(st'.file) == st'.loose.value.base + st'.loose.value.piece
    ensures Represents(y, st', es, "")
  {
    assert F.Lines(y.codec, es) + "" == F.Lines(y.codec, es);
  }

  /** Any other failure changes no byte and reports no entry. */
  lemma UnchangedFile(y: Layout, st: State, text: string, io: Io)
    requires var (st', r) := AppendStep(y, st, text, io); r.Err? && st'.loose == st.loose
    requires st.loose.Some? ==> st.isSealed
    ensures var st' := AppendStep(y, st, text, io).0;
      Text(st'.file) == Text(st.file) && st'.entries == st.entries && (st.isSealed ==> st'.isSealed)
  {
  }

  /** Only the bytes matter, and the entries of an open ledger on a clean file. */
  lemma Transfer(y: Layout, st: State, st': State, committed: seq<Entry>, cut: string)
    requires Represents(y, st, committed, cut) && Text(st'.file) == Text(st.file)
    requires st'.loose == st.loose && (st.loose.Some? ==> st'.isSealed)
    requires st.loose.None? && cut == "" && !st'.isSealed ==> st'.entries == committed
    ensures Represents(y, st', committed, cut)
  {
  }

  lemma StepKeeps(y: Layout, st: State, es: seq<Entry>, cut: string, ev: Event)
    returns (committed: seq<Entry>, cut': string)
    requires Usable(y) && Represents(y, st, es, cut)
    ensures var (st', reported) := Step(y, st, ev);
      && Represents(y, st', committed, cut')
      && es <= committed
      && (reported.Some? ==> reported.value.seqNo == |es| && committed == es + [reported.value])
  {
    match ev
    case Append(text, io) =>
      committed, cut' := AppendKeeps(y, st, es, cut, text, io);
    case Reload =>
      committed, cut' := es, cut;
      ReloadKeeps(y, st, es, cut);
    case Crash(text, k) =>
      committed, cut' := CrashKeeps(y, st, es, cut, text, k);
  }

  lemma ReloadKeeps(y: Layout, st: State, es: seq<Entry>, cut: string)
    requires Usable(y) && Represents(y, st, es, cut)
    ensures Represents(y, LoadStep(y, st), es, cut)
  {
    LoadRepresented(y, st, es, cut);
    LinesEndInNewline(y, es);
    Transfer(y, st, LoadStep(y, st), es, cut);
  }

  lemma CrashKeeps(y: Layout, st: State, es: seq<Entry>, cut: string, text: string, k: nat)
    returns (committed: seq<Entry>, cut': string)
    requires Usable(y) && Represents(y, st, es, cut)
    ensures Represents(y, LoadStep(y, State(FileAfterCrash(y, st, text, k), [], false, None)), committed, cut')
    ensures es <= committed
  {
    var file := FileAfterCrash(y, st, text, k);
    var dead := State(file, [], true, None);
    if st.loose.Some? {
      committed, cut' := LooseAfterCrash(y, st, es, text, k);
    } else {
      committed, cut' := SettledAfterCrash(y, st, es, cut, text, k);
    }
    LoadSettled(y, dead, committed, cut');
    LinesEndInNewline(y, committed);
    Transfer(y, dead, LoadStep(y, State(file, [], false, None)), committed, cut');
  }

  lemma LooseAfterCrash(y: Layout, st: State, es: seq<Entry>, text: string, k: nat)
    returns (committed: seq<Entry>, cut: string)
    requires Represents(y, st, es, "") && st.loose.Some?
    ensures Represents(y, State(FileAfterCrash(y, st, text, k), [], true, None), committed, cut) && es <= committed
  {
    var piece := st.loose.value.piece;
    var e, n: nat :| Pending(y, es, e) && piece == Reached(y.codec.body(e) + "\n", n);
    var line := y.codec.body(e) + "\n";
    assert Reached(piece, k) == Reached(line, if k <= n then k else n);
    var crashed := State(FileAfterCrash(y, st, text, k), [], true, None);
    committed, cut := LooseShows(y, crashed, es, e, if k <= n then k else n);
  }

  lemma SettledAfterCrash(y: Layout, st: State, es: seq<Entry>, cut: string, text: string, k: nat)
    returns (committed: seq<Entry>, cut': string)
    requires Usable(y) && Represents(y, st, es, cut) && st.loose.None?
    ensures Represents(y, State(FileAfterCrash(y, st, text, k), [], true, None), committed, cut') && es <= committed
  {
    BoundaryIffNoCut(y, es, cut);
    var file := FileAfterCrash(y, st, text, k);
    if Text(file) == Text(st.file) {
      committed, cut' := es, cut;
      Transfer(y, st, State(file, [], true, None), es, cut);
    } else {
      NewEntryIsPending(y, es, text);
      committed, cut' := WriteSome(y, st, es, NewEntry(y, es, text), k);
    }
  }

  /** The entry stands in the chain where its number says. */
  predicate InPlace(e: Entry, loaded: seq<Entry>) {
    0 <= e.seqNo < |loaded| && loaded[e.seqNo] == e
  }

  /** All entries are in place, and later ones later. */
  ghost predicate InOrder(reported: seq<Entry>, loaded: seq<Entry>) {
    && (forall i :: 0 <= i < |reported| ==> InPlace(reported[i], loaded))
    && (forall i, j :: 0 <= i < j < |reported| ==> reported[i].seqNo < reported[j].seqNo)
  }

  lemma {:induction false} RunKeeps(y: Layout, st: State, es: seq<Entry>, cut: string, evs: seq<Event>)
    returns (committed: seq<Entry>, cut': string)
    requires Usable(y) && Represents(y, st, es, cut)
    ensures var (st', reported) := Run(y, st, evs);
      && Represents(y, st', committed, cut')
      && es <= committed
      && InOrder(reported, committed)
      && (forall i :: 0 <= i < |reported| ==> reported[i].seqNo >= |es|)
    decreases |evs|
  {
    if evs == [] {
      return es, cut;
    }
    var es1, cut1 := StepKeeps(y, st, es, cut, evs[0]);
    var (st1, first) := Step(y, st, evs[0]);
    committed, cut' := RunKeeps(y, st1, es1, cut1, evs[1..]);
    FirstInOrder(first, Run(y, st1, evs[1..]).1, es, es1, committed);
  }

  lemma FirstInOrder(first: Option<Entry>, more: seq<Entry>, es: seq<Entry>, es1: seq<Entry>, committed: seq<Entry>)
    requires es <= es1 <= committed && InOrder(more, committed)
    requires first.Some? ==> first.value.seqNo == |es| && es1 == es + [first.value]
    requires forall i :: 0 <= i < |more| ==> more[i].seqNo >= |es1|
    ensures InOrder(WithFirst(first, more), committed)
    ensures forall i :: 0 <= i < |WithFirst(first, more)| ==> WithFirst(first, more)[i].seqNo >= |es|
  {
    if first.Some? {
      assert committed[|es|] == es1[|es|] == first.value;
      ConsInOrder(first.value, more, committed);
    }
  }

  lemma ConsInOrder(e: Entry, more: seq<Entry>, committed: seq<Entry>)
    requires InPlace(e, committed) && InOrder(more, committed)
    requires forall i :: 0 <= i < |more| ==> more[i].seqNo > e.seqNo
    ensures InOrder([e] + more, committed)
    ensures forall i :: 0 <= i < |[e] + more| ==> ([e] + more)[i].seqNo >= e.seqNo
  {
    var all := [e] + more;
    assert forall i :: 0 < i < |all| ==> all[i] == more[i - 1];
  }

  lemma InOrderLonger(reported: seq<Entry>, committed: seq<Entry>, loaded: seq<Entry>)
    requires InOrder(reported, committed) && committed <= loaded
    ensures InOrder(reported, loaded)
  {
  }

  /** From an absent file, through any appends with any failures, any reloads and any crashes:
      the file that is there always loads, the loaded chain verifies, and it holds every entry
      that was ever reported as written, in the order in which they were reported. */
  lemma EveryRunLoads(y: Layout, evs: seq<Event>)
    requires Usable(y)
    ensures var (st, reported) := Run(y, State(None, [], false, None), evs);
      st.file.Some? ==>
        && LoadText(y, st.file.value).LoadedOk?
        && var loaded := LoadText(y, st.file.value).entries;
           Verified(y, loaded) && InOrder(reported, loaded)
  {
    var start := State(None, [], false, None);
    assert Represents(y, start, [], "");
    var committed, cut := RunKeeps(y, start, [], "", evs);
    var (st, reported) := Run(y, start, evs);
    LoadRepresented(y, st, committed, cut);
    InOrderLonger(reported, committed, LoadText(y, Text(st.file)).entries);
  }

  /** The ledger of the source, for any digest with plain output. */
  lemma EveryJsonRunLoads(h: Digest, evs: seq<Event>)
    requires forall s :: J.Plain(h(s))
    ensures var y := JsonLayout(h);
      var (st, reported) := Run(y, State(None, [], false, None), evs);
      st.file.Some? ==>
        && LoadText(y, st.file.value).LoadedOk?
        && var loaded := LoadText(y, st.file.value).entries;
           Verified(y, loaded) && InOrder(reported, loaded)
  {
    JsonLayoutUsable(h);
    EveryRunLoads(JsonLayout(h), evs);
  }
}
