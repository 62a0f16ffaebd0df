/** The write-ahead send protocol as a state machine (src/runtime/dispatcher.cpp,
    src/idempotency/idempotency.cpp): every durable or visible operation of a mutation is one
    step, the process may die between any two of them, and it may come back once the log replays.

    The intent log appears as the records it would replay. A failed or interrupted append may
    leave bytes: `residue` lists the records the next replay might find whole behind the log,
    `dirty` says that there may be bytes at all, and `corrupt` that an append has succeeded behind
    such bytes, after which the log cannot be replayed (IntentLog.ReplayableIffNothingBehindResidue). */
module DispatchProtocol {
  import opened Options
  import opened Domain
  import opened IntentRecord
  import L = Lifecycle
  import Utf8

  /** A log record as far as dispatch reads it: refs are stored in canonical form, and `sig` is the
      signature its payload carries, if it carries one. */
  datatype LogRec = LogRec(op: IntentOp, ref: string, sig: Option<string>)

  /** A broker mutation that was made, with the position of its intent record in the log. */
  datatype Call = Call(op: IntentOp, sig: string, ref: string, at: nat)

  datatype Phase =
    | Idle
    | Reserved(sig: string, ref: string)
    | Recorded(sig: string, ref: string)
    | Answered(sig: string, ref: string)
    | Settled(ref: string)
    | OtherRecorded(op: IntentOp, ref: string)
    | OtherAnswered(op: IntentOp, ref: string)

  datatype World = World(
    log: seq<LogRec>,
    residue: seq<LogRec>,
    dirty: bool,
    corrupt: bool,
    store: map<string, Order>,
    index: map<string, string>,
    unsent: set<string>,
    up: bool,
    phase: Phase,
    minted: set<string>,
    calls: seq<Call>)

  function PlaceRec(sig: string, ref: string): LogRec {
    LogRec(PlaceOrder, Utf8.Canonical(ref), Some(sig))
  }

  predicate IsPlaceOf(rec: LogRec, sig: string) {
    rec.op == PlaceOrder && rec.sig == Some(sig)
  }

  /** The log holds a PlaceOrder record for the signature. */
  predicate IsRecorded(log: seq<LogRec>, sig: string) {
    exists i :: 0 <= i < |log| && IsPlaceOf(log[i], sig)
  }

  /** The index rebuilt from a log: the earliest record of a signature owns it. */
  function Rebuild(log: seq<LogRec>): map<string, string> {
    if log == [] then map[]
    else
      var before := Rebuild(log[..|log| - 1]);
      var rec := log[|log| - 1];
      if rec.op == PlaceOrder && rec.sig.Some? && rec.sig.value != "" && rec.ref != "" && rec.sig.value !in before
      then before[rec.sig.value := rec.ref]
      else before
  }

  /** A newly minted ref is one that has never been seen. */
  predicate Fresh(w: World, ref: string) {
    ref !in w.minted && ref !in w.index.Values && Utf8.Canonical(ref) != ""
  }

  // ---------------------------------------------------------------- steps

  predicate Live(w: World) {
    w.up && w.phase == Idle
  }

  /** reserve() and the decision of place() on it, for a signal the index knows; the store may
      fail to answer. */
  predicate ReserveKnown(w: World, w': World, sig: string) {
    && Live(w) && sig in w.index
    && var ref := w.index[sig];
       || w' == w
       || (ref !in w.store && ref in w.unsent && w' == w.(phase := Reserved(sig, ref)))
  }

  /** reserve() for a signal the index does not know. */
  predicate ReserveNew(w: World, w': World, sig: string, ref: string) {
    && Live(w) && sig !in w.index && sig != "" && Fresh(w, ref)
    && var w1 := w.(minted := w.minted + {ref});
       || w' == w1
       || (ref in w.store && w' == w1.(index := w.index[sig := ref]))
       || (ref !in w.store && w' == w1.(index := w.index[sig := ref], phase := Reserved(sig, ref)))
  }

  /** A successful append, behind which the log is lost if there were bytes in the way. */
  function Appended(w: World, rec: LogRec): World {
    w.(log := w.log + [rec], corrupt := w.corrupt || w.dirty)
  }

  /** A failed append: nothing, a fragment, or the whole record may be in the file. */
  predicate AppendFailed(w: World, w': World, rec: LogRec) {
    || w' == w
    || w' == w.(dirty := true)
    || w' == w.(dirty := true, residue := w.residue + [rec])
  }

  predicate Record(w: World, w': World) {
    && w.up && w.phase.Reserved?
    && var rec := PlaceRec(w.phase.sig, w.phase.ref);
       w' == Appended(w, rec).(unsent := w.unsent - {w.phase.ref}, phase := Recorded(w.phase.sig, w.phase.ref))
  }

  predicate RecordFails(w: World, w': World) {
    && w.up && w.phase.Reserved?
    && var w1 := w.(unsent := w.unsent + {w.phase.ref}, phase := Idle);
       AppendFailed(w1, w', PlaceRec(w.phase.sig, w.phase.ref))
  }

  predicate Send(w: World, w': World) {
    && w.up && w.phase.Recorded? && |w.log| > 0
    && w' == w.(calls := w.calls + [Call(PlaceOrder, w.phase.sig, w.phase.ref, |w.log| - 1)],
                phase := Answered(w.phase.sig, w.phase.ref))
  }

  /** The insert of the order row; a row that is there already is a constraint violation. */
  predicate Insert(w: World, w': World, row: Order) {
    && w.up && w.phase.Answered?
    && (|| w' == w.(phase := Idle)
        || (w.phase.ref !in w.store && w' == w.(store := w.store[w.phase.ref := row], phase := Settled(w.phase.ref))))
  }

  predicate RecordResult(w: World, w': World) {
    && w.up && w.phase.Settled?
    && var rec := LogRec(OpResult, Utf8.Canonical(w.phase.ref), None);
       || w' == Appended(w, rec).(phase := Idle)
       || AppendFailed(w.(phase := Idle), w', rec)
  }

  /** Modify, cancel and square-off start with their own intent record. */
  predicate RecordOther(w: World, w': World, op: IntentOp, ref: string) {
    && Live(w) && op in {ModifyOrder, CancelOrder, SquareOff}
    && var rec := LogRec(op, Utf8.Canonical(ref), None);
       || w' == Appended(w, rec).(phase := OtherRecorded(op, ref))
       || AppendFailed(w, w', rec)
  }

  predicate SendOther(w: World, w': World) {
    && w.up && w.phase.OtherRecorded? && |w.log| > 0
    && w' == w.(calls := w.calls + [Call(w.phase.op, "", w.phase.ref, |w.log| - 1)],
                phase := OtherAnswered(w.phase.op, w.phase.ref))
  }

  /** The row after another mutation. Cancel and square-off only ever mark a row that is not
      terminal as Unknown. */
  predicate UpdateRow(w: World, w': World, row: Order) {
    && w.up && w.phase.OtherAnswered?
    && (w.phase.op != ModifyOrder ==>
          w.phase.ref in w.store && !L.IsTerminal(w.store[w.phase.ref].state)
          && row == w.store[w.phase.ref].(state := Unknown))
    && w' == w.(store := w.store[w.phase.ref := row], phase := Settled(w.phase.ref))
  }

  /** The mutation ends without touching the row. */
  predicate KeepRow(w: World, w': World) {
    w.up && w.phase.OtherAnswered? && (w' == w.(phase := Idle) || w' == w.(phase := Settled(w.phase.ref)))
  }

  /** The record of an append that may be under way. */
  predicate InFlight(w: World, rec: LogRec) {
    match w.phase
    case Reserved(sig, ref) => rec == PlaceRec(sig, ref)
    case Settled(ref) => rec == LogRec(OpResult, Utf8.Canonical(ref), None)
    case Idle => rec.op in {ModifyOrder, CancelOrder, SquareOff} && rec.sig.None?
    case _ => false
  }

  /** The process dies, perhaps inside an append that leaves bytes or its whole record. */
  predicate Crash(w: World, w': World, inFlight: Option<LogRec>) {
    && w.up
    && (inFlight.Some? ==> InFlight(w, inFlight.value))
    && var w1 := w.(up := false, index := map[], unsent := {}, phase := Idle);
       w' == if inFlight.None? then w1
             else w1.(dirty := true, residue := w.residue + [inFlight.value])
  }

  /** A boot: replay succeeds, possibly picking up one record that a failed append had left whole;
      the index is rebuilt; the projection may have been rebuilt to anything. */
  predicate Restart(w: World, w': World, found: Option<LogRec>) {
    && !w.up && !w.corrupt
    && (found.Some? ==> found.value in w.residue)
    && var log := if found.None? then w.log else w.log + [found.value];
       w' == w.(log := log, residue := [], dirty := false, index := Rebuild(log), up := true, store := w'.store)
  }

  ghost predicate Next(w: World, w': World) {
    || (exists sig :: ReserveKnown(w, w', sig))
    || (exists sig, ref :: ReserveNew(w, w', sig, ref))
    || Record(w, w')
    || RecordFails(w, w')
    || Send(w, w')
    || (exists row :: Insert(w, w', row))
    || RecordResult(w, w')
    || (exists op, ref :: RecordOther(w, w', op, ref))
    || SendOther(w, w')
    || (exists row :: UpdateRow(w, w', row))
    || KeepRow(w, w')
    || (exists inFlight :: Crash(w, w', inFlight))
    || (exists found :: Restart(w, w', found))
  }

  /** Before the first boot: an empty log. */
  predicate Init(w: World) {
    && w.log == [] && w.residue == [] && !w.dirty && !w.corrupt
    && w.index == map[] && w.unsent == {} && !w.up && w.phase == Idle
    && w.minted == {} && w.calls == []
  }

  // ---------------------------------------------------------------- the invariant

  predicate IsPlaceCall(c: Call) {
    c.op == PlaceOrder
  }

  /** Every call has a durable intent record of its own, and the records come in call order. */
  ghost predicate CallsAreRecorded(w: World) {
    && (forall i :: 0 <= i < |w.calls| ==>
          && w.calls[i].at < |w.log|
          && w.log[w.calls[i].at].op == w.calls[i].op
          && w.log[w.calls[i].at].ref == Utf8.Canonical(w.calls[i].ref)
          && (IsPlaceCall(w.calls[i]) ==> w.log[w.calls[i].at].sig == Some(w.calls[i].sig)))
    && (forall i, j :: 0 <= i < j < |w.calls| ==> w.calls[i].at < w.calls[j].at)
  }

  /** No signature is placed twice. */
  ghost predicate PlacedOnce(w: World) {
    forall i, j :: 0 <= i < j < |w.calls| && IsPlaceCall(w.calls[i]) && IsPlaceCall(w.calls[j]) ==>
      w.calls[i].sig != w.calls[j].sig
  }

  ghost predicate NeverPlacedRef(w: World, ref: string) {
    forall i :: 0 <= i < |w.calls| && IsPlaceCall(w.calls[i]) ==> w.calls[i].ref != ref
  }

  /** A ref that belongs to one signature and has not been sent. */
  ghost predicate Unused(w: World, sig: string, ref: string) {
    && sig != "" && Utf8.Canonical(ref) != "" && ref in w.minted
    && sig in w.index && w.index[sig] == ref
    && (forall s :: s in w.index && w.index[s] == ref ==> s == sig)
    && !IsRecorded(w.log, sig)
    && NeverPlacedRef(w, ref)
  }

  predicate Readable(rec: LogRec) {
    rec.op == PlaceOrder && rec.sig.Some? ==> rec.sig.value != "" && rec.ref != ""
  }

  ghost predicate LogInv(w: World) {
    && (forall i :: 0 <= i < |w.log| ==> Readable(w.log[i]))
    && (forall i :: 0 <= i < |w.residue| ==> Readable(w.residue[i]))
    && (w.up ==> forall sig :: IsRecorded(w.log, sig) ==> sig in w.index)
  }

  ghost predicate PhaseInv(w: World) {
    match w.phase
    case Reserved(sig, ref) => w.up && Unused(w, sig, ref)
    case Recorded(sig, ref) =>
      && |w.log| > 0 && w.log[|w.log| - 1] == PlaceRec(sig, ref)
      && (forall i :: 0 <= i < |w.calls| ==> w.calls[i].at < |w.log| - 1)
      && (forall i :: 0 <= i < |w.calls| && IsPlaceCall(w.calls[i]) ==> w.calls[i].sig != sig)
      && ref in w.minted && ref !in w.unsent
    case OtherRecorded(op, ref) =>
      && op in {ModifyOrder, CancelOrder, SquareOff}
      && |w.log| > 0 && w.log[|w.log| - 1].op == op && w.log[|w.log| - 1].ref == Utf8.Canonical(ref)
      && (forall i :: 0 <= i < |w.calls| ==> w.calls[i].at < |w.log| - 1)
    case _ => true
  }

  /** Every ref believed unsent belongs to a signature, and has not been sent. */
  ghost predicate UnsentAreUnused(w: World) {
    forall ref :: ref in w.unsent ==> exists sig :: sig in w.index && w.index[sig] == ref && Unused(w, sig, ref)
  }

  ghost predicate UnsentInv(w: World) {
    && UnsentAreUnused(w)
    && (forall i :: 0 <= i < |w.calls| && IsPlaceCall(w.calls[i]) ==> w.calls[i].ref in w.minted)
    && (!w.up ==> w.phase == Idle && w.unsent == {})
  }

  /** A signature in the index is in flight, known to be unsent, projected, or recorded. */
  ghost predicate Accounted(w: World) {
    forall sig :: sig in w.index ==>
      || w.index[sig] in w.unsent
      || w.index[sig] in w.store
      || IsRecorded(w.log, sig)
      || w.phase == Reserved(sig, w.index[sig])
  }

  ghost predicate Inv(w: World) {
    CallsAreRecorded(w) && PlacedOnce(w) && LogInv(w) && PhaseInv(w) && UnsentInv(w) && Accounted(w)
  }

  // ---------------------------------------------------------------- preservation

  /** No step removes or changes a durable record, or takes back a broker call. */
  ghost predicate Grows(w: World, w': World) {
    w.log <= w'.log && w.calls <= w'.calls && w.minted <= w'.minted
  }

  lemma IsRecordedSnoc(log: seq<LogRec>, rec: LogRec)
    ensures forall sig :: IsRecorded(log + [rec], sig) <==> IsRecorded(log, sig) || IsPlaceOf(rec, sig)
  {
    var all := log + [rec];
    forall sig
      ensures IsRecorded(all, sig) <==> IsRecorded(log, sig) || IsPlaceOf(rec, sig)
    {
      if IsRecorded(log, sig) {
        var i :| 0 <= i < |log| && IsPlaceOf(log[i], sig);
        assert IsPlaceOf(all[i], sig);
      }
      if IsPlaceOf(rec, sig) {
        assert IsPlaceOf(all[|log|], sig);
      }
    }
  }

  /** Rebuilding finds a ref for every recorded signature, and only for those. */
  lemma {:induction false} RebuildFindsRecorded(log: seq<LogRec>)
    requires forall i :: 0 <= i < |log| ==> Readable(log[i])
    ensures forall sig :: IsRecorded(log, sig) <==> sig in Rebuild(log)
    decreases |log|
  {
    if log != [] {
      var front, rec := log[..|log| - 1], log[|log| - 1];
      RebuildFindsRecorded(front);
      assert log == front + [rec];
      IsRecordedSnoc(front, rec);
    }
  }

  /** A step that leaves log, index, minted refs and calls alone keeps refs unused. */
  lemma UnusedFrame(w: World, w': World)
    requires w'.index == w.index && w'.minted == w.minted && w'.calls == w.calls
    requires forall sig :: IsRecorded(w'.log, sig) <==> IsRecorded(w.log, sig)
    requires UnsentAreUnused(w)
    requires w'.unsent <= w.unsent
    ensures UnsentAreUnused(w')
  {
    forall r | r in w'.unsent
      ensures exists s :: s in w'.index && w'.index[s] == r && Unused(w', s, r)
    {
      var s :| s in w.index && w.index[s] == r && Unused(w, s, r);
      assert Unused(w', s, r);
    }
  }

  lemma ReserveKnownKeeps(w: World, w': World, sig: string)
    requires Inv(w) && ReserveKnown(w, w', sig)
    ensures Inv(w') && Grows(w, w')
  {
    if w' != w {
      var ref := w.index[sig];
      var s :| s in w.index && w.index[s] == ref && Unused(w, s, ref);
      assert Unused(w', sig, ref);
      UnusedFrame(w, w');
    }
  }

  lemma ReserveNewKeeps(w: World, w': World, sig: string, ref: string)
    requires Inv(w) && ReserveNew(w, w', sig, ref)
    ensures Inv(w') && Grows(w, w')
  {
    ReserveNewUnused(w, w', sig, ref);
  }

  lemma ReserveNewUnused(w: World, w': World, sig: string, ref: string)
    requires PhaseInv(w) && UnsentInv(w) && LogInv(w) && ReserveNew(w, w', sig, ref)
    ensures PhaseInv(w') && UnsentInv(w')
  {
    forall r | r in w'.unsent
      ensures exists s :: s in w'.index && w'.index[s] == r && Unused(w', s, r)
    {
      var s :| s in w.index && w.index[s] == r && Unused(w, s, r);
      assert Unused(w', s, r);
    }
    if w'.phase.Reserved? {
      assert Unused(w', sig, ref);
    }
  }

  lemma RecordKeeps(w: World, w': World)
    requires Inv(w) && Record(w, w')
    ensures Inv(w') && Grows(w, w')
  {
    var sig, ref := w.phase.sig, w.phase.ref;
    IsRecordedSnoc(w.log, PlaceRec(sig, ref));
    forall r | r in w'.unsent
      ensures exists s :: s in w'.index && w'.index[s] == r && Unused(w', s, r)
    {
      var s :| s in w.index && w.index[s] == r && Unused(w, s, r);
      assert Unused(w', s, r);
    }
  }

  lemma RecordFailsKeeps(w: World, w': World)
    requires Inv(w) && RecordFails(w, w')
    ensures Inv(w') && Grows(w, w')
  {
    RecordFailsUnused(w, w');
  }

  lemma RecordFailsUnused(w: World, w': World)
    requires PhaseInv(w) && UnsentInv(w) && RecordFails(w, w')
    ensures UnsentInv(w')
  {
    forall r | r in w'.unsent
      ensures exists s :: s in w'.index && w'.index[s] == r && Unused(w', s, r)
    {
      if r == w.phase.ref {
        assert Unused(w', w.phase.sig, r);
      } else {
        var s :| s in w.index && w.index[s] == r && Unused(w, s, r);
        assert Unused(w', s, r);
      }
    }
  }

  lemma SendKeeps(w: World, w': World)
    requires Inv(w) && Send(w, w')
    ensures Inv(w') && Grows(w, w')
  {
    assert forall i :: 0 <= i < |w.calls| ==> w'.calls[i] == w.calls[i];
    SendKeepsUnused(w, w');
  }

  lemma SendKeepsUnused(w: World, w': World)
    requires PhaseInv(w) && UnsentInv(w) && Send(w, w')
    ensures UnsentInv(w')
  {
    assert forall i :: 0 <= i < |w.calls| ==> w'.calls[i] == w.calls[i];
    forall r | r in w'.unsent
      ensures exists s :: s in w'.index && w'.index[s] == r && Unused(w', s, r)
    {
      var s :| s in w.index && w.index[s] == r && Unused(w, s, r);
      assert Unused(w', s, r);
    }
  }

  lemma InsertKeeps(w: World, w': World, row: Order)
    requires Inv(w) && Insert(w, w', row)
    ensures Inv(w') && Grows(w, w')
  {
    UnusedFrame(w, w');
  }

  lemma AppendedKeeps(w: World, w': World, rec: LogRec)
    requires Inv(w) && w.up && (w.phase.Settled? || w.phase.Idle?)
    requires rec.op != PlaceOrder
    requires w' == Appended(w, rec).(phase := w'.phase)
    requires w'.phase.Idle?
      || (w'.phase.OtherRecorded? && rec == LogRec(w'.phase.op, Utf8.Canonical(w'.phase.ref), None))
    requires w'.phase.OtherRecorded? ==> w'.phase.op in {ModifyOrder, CancelOrder, SquareOff}
    ensures Inv(w') && Grows(w, w')
  {
    IsRecordedSnoc(w.log, rec);
    UnusedFrame(w, w');
  }

  lemma AppendFailedKeeps(w: World, w': World, rec: LogRec)
    requires Inv(w) && AppendFailed(w, w', rec) && rec.op != PlaceOrder
    ensures Inv(w') && Grows(w, w')
  {
    if w' != w {
      UnusedFrame(w, w');
      if w.phase.Reserved? {
        assert Unused(w', w.phase.sig, w.phase.ref);
      }
    }
  }

  lemma PhaseToIdleKeeps(w: World, w': World)
    requires Inv(w) && w.up && !w.phase.Reserved? && w' == w.(phase := w'.phase)
    requires w'.phase.Idle? || w'.phase.Settled?
    ensures Inv(w') && Grows(w, w')
  {
    UnusedFrame(w, w');
  }

  lemma RecordResultKeeps(w: World, w': World)
    requires Inv(w) && RecordResult(w, w')
    ensures Inv(w') && Grows(w, w')
  {
    var rec := LogRec(OpResult, Utf8.Canonical(w.phase.ref), None);
    if w' == Appended(w, rec).(phase := Idle) {
      AppendedKeeps(w, w', rec);
    } else {
      PhaseToIdleKeeps(w, w.(phase := Idle));
      AppendFailedKeeps(w.(phase := Idle), w', rec);
    }
  }

  lemma RecordOtherKeeps(w: World, w': World, op: IntentOp, ref: string)
    requires Inv(w) && RecordOther(w, w', op, ref)
    ensures Inv(w') && Grows(w, w')
  {
    var rec := LogRec(op, Utf8.Canonical(ref), None);
    if w' == Appended(w, rec).(phase := OtherRecorded(op, ref)) {
      AppendedKeeps(w, w', rec);
    } else {
      AppendFailedKeeps(w, w', rec);
    }
  }

  lemma SendOtherKeeps(w: World, w': World)
    requires Inv(w) && SendOther(w, w')
    ensures Inv(w') && Grows(w, w')
  {
    assert forall i :: 0 <= i < |w.calls| ==> w'.calls[i] == w.calls[i];
    assert !IsPlaceCall(w'.calls[|w.calls|]);
    OtherCallFrame(w, w');
  }

  /** A call that is no place keeps refs unused. */
  lemma OtherCallFrame(w: World, w': World)
    requires UnsentInv(w) && w' == w.(calls := w'.calls, phase := w'.phase)
    requires |w'.calls| == |w.calls| + 1 && w.calls <= w'.calls && !IsPlaceCall(w'.calls[|w.calls|])
    ensures UnsentAreUnused(w')
  {
    forall r | r in w'.unsent
      ensures exists s :: s in w'.index && w'.index[s] == r && Unused(w', s, r)
    {
      var s :| s in w.index && w.index[s] == r && Unused(w, s, r);
      assert Unused(w', s, r);
    }
  }

  lemma UpdateRowKeeps(w: World, w': World, row: Order)
    requires Inv(w) && UpdateRow(w, w', row)
    ensures Inv(w') && Grows(w, w')
  {
    UnusedFrame(w, w');
  }

  lemma CrashKeeps(w: World, w': World, inFlight: Option<LogRec>)
    requires Inv(w) && Crash(w, w', inFlight)
    ensures Inv(w') && Grows(w, w')
  {
  }

  lemma RestartKeeps(w: World, w': World, found: Option<LogRec>)
    requires Inv(w) && Restart(w, w', found)
    ensures Inv(w') && Grows(w, w')
  {
    RebuildFindsRecorded(w'.log);
    assert forall i :: 0 <= i < |w.calls| ==> w'.log[w.calls[i].at] == w.log[w.calls[i].at];
  }

  lemma NextKeeps(w: World, w': World)
    requires Inv(w) && Next(w, w')
    ensures Inv(w') && Grows(w, w')
  {
    if sig :| ReserveKnown(w, w', sig) {
      ReserveKnownKeeps(w, w', sig);
    } else if sig, ref :| ReserveNew(w, w', sig, ref) {
      ReserveNewKeeps(w, w', sig, ref);
    } else if Record(w, w') {
      RecordKeeps(w, w');
    } else if RecordFails(w, w') {
      RecordFailsKeeps(w, w');
    } else if Send(w, w') {
      SendKeeps(w, w');
    } else if row :| Insert(w, w', row) {
      InsertKeeps(w, w', row);
    } else if RecordResult(w, w') {
      RecordResultKeeps(w, w');
    } else if op, ref :| RecordOther(w, w', op, ref) {
      RecordOtherKeeps(w, w', op, ref);
    } else if SendOther(w, w') {
      SendOtherKeeps(w, w');
    } else if row :| UpdateRow(w, w', row) {
      UpdateRowKeeps(w, w', row);
    } else if KeepRow(w, w') {
      PhaseToIdleKeeps(w, w');
    } else if inFlight :| Crash(w, w', inFlight) {
      CrashKeeps(w, w', inFlight);
    } else {
      var found :| Restart(w, w', found);
      RestartKeeps(w, w', found);
    }
  }

  // ---------------------------------------------------------------- every run

  /** The world behind number `i` is reached from it by one step. */
  ghost predicate StepsAt(ws: seq<World>, i: nat)
    requires i + 1 < |ws|
  {
    Next(ws[i], ws[i + 1])
  }

  ghost predicate IsRun(ws: seq<World>) {
    && ws != [] && Init(ws[0])
    && forall i :: 0 <= i < |ws| - 1 ==> StepsAt(ws, i)
  }

  lemma RunSnoc(ws: seq<World>, w: World)
    requires IsRun(ws) && Next(ws[|ws| - 1], w)
    ensures IsRun(ws + [w])
  {
    var all := ws + [w];
    forall i | 0 <= i < |all| - 1
      ensures StepsAt(all, i)
    {
      if i < |ws| - 1 {
        assert StepsAt(ws, i) && all[i] == ws[i] && all[i + 1] == ws[i + 1];
      }
    }
  }

  lemma RunFront(ws: seq<World>)
    requires IsRun(ws) && |ws| > 1
    ensures IsRun(ws[..|ws| - 1])
  {
    var front := ws[..|ws| - 1];
    forall i | 0 <= i < |front| - 1
      ensures StepsAt(front, i)
    {
      assert StepsAt(ws, i);
    }
  }

  lemma InitHolds(w: World)
    requires Init(w)
    ensures Inv(w)
  {
  }

  lemma {:induction false} RunHolds(ws: seq<World>)
    requires IsRun(ws)
    ensures forall w :: w in ws ==> Inv(w)
  {
    if |ws| == 1 {
      InitHolds(ws[0]);
    } else {
      var n := |ws| - 1;
      var front := ws[..n];
      RunFront(ws);
      RunHolds(front);
      assert ws == front + [ws[n]];
      assert front[n - 1] in front && StepsAt(ws, n - 1);
      NextKeeps(ws[n - 1], ws[n]);
    }
  }

  lemma UnsentNeverPlaced(w: World, ref: string)
    requires UnsentInv(w) && ref in w.unsent
    ensures NeverPlacedRef(w, ref)
  {
    var sig :| sig in w.index && w.index[sig] == ref && Unused(w, sig, ref);
  }

  /** Over every run of mutations with any failing append, store write or broker call, any crash
      and any boot: no signature is placed at the broker twice; every broker mutation has a
      durable intent record of its own that was written before it; and no ref the dispatcher
      believes unsent has been sent. */
  lemma AtMostOncePlacePerSignature(ws: seq<World>, w: World)
    requires IsRun(ws) && w in ws
    ensures forall i, j :: 0 <= i < j < |w.calls| && IsPlaceCall(w.calls[i]) && IsPlaceCall(w.calls[j]) ==>
      w.calls[i].sig != w.calls[j].sig
    ensures forall i :: 0 <= i < |w.calls| ==>
      && w.calls[i].at < |w.log|
      && w.log[w.calls[i].at].op == w.calls[i].op
      && w.log[w.calls[i].at].ref == Utf8.Canonical(w.calls[i].ref)
    ensures forall i :: 0 <= i < |w.calls| && IsPlaceCall(w.calls[i]) ==>
      IsPlaceOf(w.log[w.calls[i].at], w.calls[i].sig)
    ensures forall i, j :: 0 <= i < j < |w.calls| ==> w.calls[i].at < w.calls[j].at
    ensures forall ref :: ref in w.unsent ==> NeverPlacedRef(w, ref)
  {
    RunHolds(ws);
    forall ref | ref in w.unsent
      ensures NeverPlacedRef(w, ref)
    {
      UnsentNeverPlaced(w, ref);
    }
  }

  /** A signal that place() answers with a synthesized Unknown order, because the index knows its
      signature, the projection has no row and the ref is not known to be unsent, always has a
      durable PlaceOrder record: nothing can be reported as possibly live that replay would not
      enumerate. */
  lemma UnknownAnswerIsEnumerable(ws: seq<World>, w: World, sig: string)
    requires IsRun(ws) && w in ws && Live(w) && sig in w.index
    requires w.index[sig] !in w.store && w.index[sig] !in w.unsent
    ensures IsRecorded(w.log, sig)
  {
    RunHolds(ws);
  }

  lemma StepGrows(ws: seq<World>, i: nat)
    requires IsRun(ws) && i + 1 < |ws|
    ensures Grows(ws[i], ws[i + 1])
  {
    RunHolds(ws);
    assert StepsAt(ws, i);
    NextKeeps(ws[i], ws[i + 1]);
  }

  lemma {:induction false} HistoryOnlyGrows(ws: seq<World>, i: nat, j: nat)
    requires IsRun(ws) && i <= j < |ws|
    ensures Grows(ws[i], ws[j])
    decreases j - i
  {
    if i < j {
      HistoryOnlyGrows(ws, i, j - 1);
      StepGrows(ws, j - 1);
    }
  }
}
