/** The dispatcher (src/runtime/dispatcher.cpp) as it runs: place, modify, cancel and square-off over
    a write-ahead log, an order store, the idempotency index and the set of refs known to be unsent.

    Every operation is shown to be a run of the steps of DispatchProtocol, on the real bytes of the
    log, and a boot from the bytes a crash left continues that run. Failures of the log, the store
    and the broker are parameters. */
module Dispatcher {
  import opened Options
  import opened Domain
  import opened IntentRecord
  import IL = IntentLog
  import P = DispatchProtocol
  import S = Signature
  import L = Lifecycle
  import C = ClientRef
  import Utf8

  /** One mutation as the broker sees it. */
  datatype Sent =
    | PlaceSent(intent: OrderIntent)
    | ModifySent(brokerOrderId: string, intent: OrderIntent)
    | CancelSent(brokerOrderId: string)
    | SquareOffSent(brokerOrderId: string)

  /** What the surroundings do during one call: how many bytes a failing append leaves (None for
      one that succeeds), whether the store answers, and what goes into the result record. */
  datatype Surroundings = Surroundings(
    intentAppend: Option<nat>,
    findOk: bool,
    writeOk: bool,
    resultAppend: Option<nat>,
    resultText: string,
    wallTs: int)

  datatype Failure = LogFailed | StoreFailed | Refused(error: Error)

  /** A record as far as dispatch reads it. */
  function View(s: S.Signing, r: Record): P.LogRec {
    P.LogRec(r.op, r.clientRef, if r.op.PlaceOrder? then s.read(r.payload) else None)
  }

  function Views(s: S.Signing, rs: seq<Record>): (v: seq<P.LogRec>)
    ensures |v| == |rs|
  {
    seq(|rs|, i requires 0 <= i < |rs| => View(s, rs[i]))
  }

  lemma ViewsSnoc(s: S.Signing, rs: seq<Record>, r: Record)
    ensures Views(s, rs + [r]) == Views(s, rs) + [View(s, r)]
  {
  }

  // ---------------------------------------------------------------- what a call to place decides

  datatype Decision =
    | NoAnswer
    | Existing(ref: string)
    | MayBeLive(ref: string)
    | SendAs(ref: string)

  /** A known signal is answered from the projection; without a row it counts as possibly live
      unless its ref is known never to have been recorded. */
  function Decide(index: map<string, string>, store: map<string, Order>, unsent: set<string>,
                  findOk: bool, sig: string, minted: string): Decision
  {
    var ref := if sig in index then index[sig] else minted;
    if !findOk then NoAnswer
    else if ref in store then Existing(ref)
    else if sig in index && ref !in unsent then MayBeLive(ref)
    else SendAs(ref)
  }

  /** Each decision, and exactly when it is taken: nothing is sent for a signal that is bound, unless
      its ref is known never to have been recorded. */
  lemma DecisionIff(index: map<string, string>, store: map<string, Order>, unsent: set<string>,
                    findOk: bool, sig: string, minted: string, ref: string)
    ensures var d := Decide(index, store, unsent, findOk, sig, minted);
      var bound := sig in index && index[sig] == ref;
      && (d == SendAs(ref) <==>
            findOk && ref !in store && ((sig !in index && ref == minted) || (bound && ref in unsent)))
      && (d == MayBeLive(ref) <==> findOk && ref !in store && bound && ref !in unsent)
      && (d == Existing(ref) <==> findOk && ref in store && (bound || (sig !in index && ref == minted)))
      && (d == NoAnswer <==> !findOk)
  {
  }

  function MakeOrder(intent: OrderIntent, state: OrderState): Order {
    Order(intent, state, "", 0, 0)
  }

  /** The view the acknowledgement of a place is applied as. */
  function AckView(ref: string, brokerOrderId: string): L.View {
    L.View(ref, brokerOrderId, Acknowledged, 0, 0, 1)
  }

  /** The row a place leaves, by the broker's answer. */
  function PlacedRow(keys: L.Keys, placed: OrderIntent, answer: Result<string, Error>): Order {
    match answer
    case Ok(id) => L.ApplyView(keys, MakeOrder(placed, Sent), AckView(placed.clientRef, id)).1
    case Err(e) => MakeOrder(placed, if MayHaveReachedExchange(e) then Unknown else Rejected)
  }

  /** An acknowledged order is Acknowledged under the broker's id, unless an observation with a higher
      key is already recorded for its ref; one that failed is Unknown if it may be live, which is so for
      an error that asks for reconciliation, a timeout, a network failure and an unknown error, and
      Rejected for any other. */
  lemma PlacedRowSays(keys: L.Keys, placed: OrderIntent, answer: Result<string, Error>)
    ensures var row := PlacedRow(keys, placed, answer);
      match answer
      case Ok(id) =>
        row == if placed.clientRef in keys && keys[placed.clientRef] > 1 then Order(placed, Sent, "", 0, 0)
               else Order(placed, Acknowledged, id, 0, 0)
      case Err(Error(category, action)) =>
        if action == ReconcileFirst || category == Timeout || category == Network || category == UnknownError
        then row == Order(placed, Unknown, "", 0, 0)
        else row == Order(placed, Rejected, "", 0, 0)
  {
  }

  /** The recorded keys behind a place that was sent: those of an acknowledged order include its own. */
  function KeysBehindPlace(keys: L.Keys, ref: string, answer: Result<string, Error>): L.Keys {
    if answer.Ok? && (ref in keys ==> keys[ref] <= 1) then keys[ref := 1] else keys
  }

  predicate NotYetAcknowledged(s: OrderState) {
    s in {Unknown, Created, Validated, PendingSend, Sent}
  }

  /** The row a modify leaves, unless the broker's verdict leaves it alone. */
  function ModifiedRow(row: Order, brokerOrderId: string, answer: Result<string, Error>): Option<Order> {
    match answer
    case Ok(id) =>
      Some(row.(brokerOrderId := id, state := if NotYetAcknowledged(row.state) then Acknowledged else row.state))
    case Err(e) =>
      if MayHaveReachedExchange(e) then Some(row.(brokerOrderId := brokerOrderId, state := Unknown)) else None
  }

  /** An acknowledged modify takes over the broker's new id and moves the row on to Acknowledged if it
      was short of that; one that may have reached the exchange leaves the row Unknown under the id it
      was sent with; any other error leaves the row alone. */
  lemma ModifiedRowSays(row: Order, brokerOrderId: string, answer: Result<string, Error>)
    ensures var after := ModifiedRow(row, brokerOrderId, answer);
      match answer
      case Ok(id) =>
        && after.Some?
        && after.value.brokerOrderId == id
        && after.value.state == (match row.state
                                 case Unknown | Created | Validated | PendingSend | Sent => Acknowledged
                                 case _ => row.state)
        && (after.value.intent, after.value.filledQty, after.value.avgPrice)
           == (row.intent, row.filledQty, row.avgPrice)
      case Err(Error(category, action)) =>
        if action == ReconcileFirst || category == Timeout || category == Network || category == UnknownError
        then after == Some(Order(row.intent, Unknown, brokerOrderId, row.filledQty, row.avgPrice))
        else after == None
  {
  }

  class Dispatcher {
    const signing: S.Signing
    const log: IL.Log
    const fsm: L.LifecycleEngine
    var store: map<string, Order>
    var index: map<string, string>
    var unsent: set<string>
    /** Everything the broker has been sent, over all processes. */
    var wire: seq<Sent>

    ghost var recs: seq<Record>
    ghost var w: P.World
    ghost var history: seq<P.World>
    /** The one failed append that has left bytes, and how many, while nothing was written behind it. */
    ghost var stuck: Option<(IL.Request, nat)>

    /** A dispatcher over a replayed log, at the last world of a run. */
    constructor (signing: S.Signing, log: IL.Log, fsm: L.LifecycleEngine, store: map<string, Order>,
                 index: map<string, string>, wire: seq<Sent>,
                 ghost recs: seq<Record>, ghost history: seq<P.World>)
      requires S.Sound(signing) && IL.Usable(log.layout) && log.Holds(recs)
      requires P.IsRun(history) && Booted(history[|history| - 1], Views(signing, recs), store, index)
      requires Traced(signing, wire, history[|history| - 1].calls)
      ensures Valid()
      ensures this.signing == signing && this.log == log && this.fsm == fsm
      ensures Same(store, index, {}, wire)
      ensures this.recs == recs && this.history == history && w == history[|history| - 1] && stuck.None?
    {
      this.signing := signing;
      this.log := log;
      this.fsm := fsm;
      this.store := store;
      this.wire := wire;
      this.index := index;
      unsent := {};
      this.recs := recs;
      this.history := history;
      w := history[|history| - 1];
      stuck := None;
    }

    /** The last world of a run of the protocol, on the bytes of the log: they hold its records as long
        as no failed append has left anything behind them, and known bytes behind the first one that
        has. */
    ghost predicate Logged()
      reads this, log
    {
      && S.Sound(signing) && IL.Usable(log.layout)
      && P.IsRun(history) && history[|history| - 1] == w && w.up
      && w.log == Views(signing, recs) && (!w.dirty ==> log.Holds(recs)) && (w.corrupt ==> w.dirty)
      && (stuck.Some? ==> StuckWith(stuck.value.0, stuck.value.1))
      && Traced(signing, wire, w.calls)
    }

    ghost predicate StuckWith(q: IL.Request, k: nat)
      reads this, log
    {
      && w.dirty && !w.corrupt
      && IL.WellBuilt(log.layout, recs)
      && log.file == IL.FileAfter(log.layout, recs, IL.Life([], q, k, []))
      && RequestView(signing, q.op, q.clientRef, q.payload) in w.residue
    }

    /** And the fields are that world's. */
    ghost predicate Running()
      reads this, log
    {
      Logged() && w.store == store && w.index == index && w.unsent == unsent
    }

    /** Between two operations. */
    ghost predicate Valid()
      reads this, log
    {
      Running() && w.phase == P.Idle
    }

    ghost method Advance(w': P.World)
      requires P.IsRun(history + [w'])
      modifies this`w, this`history
      ensures w == w' && P.IsRun(history) && history[|history| - 1] == w && old(history) <= history
    {
      w := w';
      history := history + [w'];
    }

    /** One append to the log. The protocol steps to `recorded` or, if the append fails, to `failed`
        and what may be left of the record. */
    method AppendRecord(q: IL.Request, left: Option<nat>, ghost rec: P.LogRec,
                        ghost recorded: P.World, ghost failed: P.World)
      returns (ok: bool)
      requires Logged() && rec == RequestView(signing, q.op, q.clientRef, q.payload)
      requires recorded == P.Appended(w, rec).(unsent := recorded.unsent, phase := recorded.phase)
      requires failed == w.(unsent := failed.unsent, phase := failed.phase)
      requires P.IsRun(history + [if left.None? then recorded else Residue(failed, rec, left.value)])
      modifies this`recs, this`w, this`history, this`stuck, log
      ensures Logged() && old(history) <= history
      ensures ok <==> left.None?
      ensures w == if ok then recorded else Residue(failed, rec, left.value)
    {
      if left.None? {
        AppendWorks(q, rec, recorded);
      } else {
        AppendFails(q, left.value, rec, failed);
      }
      ok := left.None?;
    }

    method AppendWorks(q: IL.Request, ghost rec: P.LogRec, ghost recorded: P.World)
      requires Logged() && rec == RequestView(signing, q.op, q.clientRef, q.payload)
      requires recorded == P.Appended(w, rec).(unsent := recorded.unsent, phase := recorded.phase)
      requires P.IsRun(history + [recorded])
      modifies this`recs, this`w, this`history, this`stuck, log
      ensures Logged() && old(history) <= history && w == recorded
    {
      var r := log.Append(q, None);
      ViewsSnoc(signing, recs, r.value);
      recs := recs + [r.value];
      stuck := None;
      Advance(recorded);
    }

    method AppendFails(q: IL.Request, left: nat, ghost rec: P.LogRec, ghost failed: P.World)
      requires Logged() && rec == RequestView(signing, q.op, q.clientRef, q.payload)
      requires failed == w.(unsent := failed.unsent, phase := failed.phase)
      requires P.IsRun(history + [Residue(failed, rec, left)])
      modifies this`w, this`history, this`stuck, log
      ensures Logged() && old(history) <= history && w == Residue(failed, rec, left)
    {
      var r := log.Append(q, Some(left));
      if left > 0 {
        stuck := if w.dirty then None else Some((q, left));
      } else {
        assert log.file == old(log.file);
      }
      Advance(Residue(failed, rec, left));
    }

    /** The result record that ends an operation. */
    method AppendResult(ref: string, env: Surroundings) returns (ok: bool)
      requires Running() && w.phase == P.Settled(ref)
      modifies this, log
      ensures Valid() && old(history) <= history
      ensures ok <==> env.resultAppend.None?
      ensures wire == old(wire) && store == old(store) && index == old(index) && unsent == old(unsent)
    {
      ghost var rec := P.LogRec(OpResult, Utf8.Canonical(ref), None);
      ghost var idle := w.(phase := P.Idle);
      ghost var recorded := P.Appended(w, rec).(phase := P.Idle);
      ResultIsAStep(history, w, ref, env.resultAppend);
      ok := AppendRecord(IL.Request(OpResult, ref, env.resultText, env.wallTs), env.resultAppend, rec, recorded, idle);
    }

    // -------------------------------------------------------------- place

    /** Reserve, record durably, send, store, record the result. */
    method Place(strategy: string, intent: OrderIntent, uuid: string, env: Surroundings, answer: Result<string, Error>)
      returns (r: Result<Order, Failure>)
      requires Valid()
      requires P.Fresh(w, C.MakeClientRef(strategy, signing.signature(intent), uuid))
      modifies this, log, fsm
      ensures Valid() && old(history) <= history
      ensures
        var sig := signing.signature(intent);
        var minted := C.MakeClientRef(strategy, sig, uuid);
        match old(Decide(index, store, unsent, env.findOk, sig, minted))
        case NoAnswer =>
          r == Err(StoreFailed) && Same(old(store), old(index), old(unsent), old(wire))
        case Existing(ref) =>
          r == Ok(old(store)[ref]) && Same(old(store), old(index)[sig := ref], old(unsent), old(wire))
        case MayBeLive(ref) =>
          r == Ok(MakeOrder(intent.(clientRef := ref), Unknown))
          && Same(old(store), old(index), old(unsent), old(wire))
        case SendAs(ref) =>
          var placed := intent.(clientRef := ref);
          var row := PlacedRow(old(fsm.lastKey), placed, answer);
          if env.intentAppend.Some? then
            r == Err(LogFailed) && Same(old(store), old(index)[sig := ref], old(unsent) + {ref}, old(wire))
          else if !env.writeOk then
            r == Err(StoreFailed)
            && Same(old(store), old(index)[sig := ref], old(unsent) - {ref}, old(wire) + [PlaceSent(placed)])
          else
            r == (if env.resultAppend.None? then Ok(row) else Err(LogFailed))
            && Same(old(store)[ref := row], old(index)[sig := ref], old(unsent) - {ref},
                    old(wire) + [PlaceSent(placed)])
      ensures
        var sig := signing.signature(intent);
        var decision := old(Decide(index, store, unsent, env.findOk, sig, C.MakeClientRef(strategy, sig, uuid)));
        fsm.lastKey == if decision.SendAs? && env.intentAppend.None?
                       then KeysBehindPlace(old(fsm.lastKey), decision.ref, answer) else old(fsm.lastKey)
    {
      var decision := Reserve(strategy, intent, uuid, env.findOk);
      match decision
      case NoAnswer => r := Err(StoreFailed);
      case Existing(ref) => r := Ok(store[ref]);
      case MayBeLive(ref) => r := Ok(MakeOrder(intent.(clientRef := ref), Unknown));
      case SendAs(ref) => r := SendReserved(signing.signature(intent), ref, intent, env, answer);
    }

    /** Bind the signal to a ref, once. */
    method Reserve(strategy: string, intent: OrderIntent, uuid: string, findOk: bool) returns (d: Decision)
      requires Valid()
      requires P.Fresh(w, C.MakeClientRef(strategy, signing.signature(intent), uuid))
      modifies this`index, this`w, this`history
      ensures Running() && old(history) <= history
      ensures
        var sig := signing.signature(intent);
        && d == old(Decide(index, store, unsent, findOk, sig, C.MakeClientRef(strategy, sig, uuid)))
        && w.phase == (if d.SendAs? then P.Reserved(sig, d.ref) else P.Idle)
        && index == (if d.NoAnswer? then old(index) else old(index)[sig := d.ref])
    {
      var sig := signing.signature(intent);
      assert S.Carried(signing, intent);
      if !findOk {
        return NoAnswer;
      }
      if sig in index {
        var ref := index[sig];
        assert index == index[sig := ref];
        if ref in store {
          return Existing(ref);
        }
        if ref !in unsent {
          return MayBeLive(ref);
        }
        SendAgain(sig, ref);
        return SendAs(ref);
      }
      var ref := C.MakeClientRef(strategy, sig, uuid);
      Bind(sig, ref);
      d := if ref in store then Existing(ref) else SendAs(ref);
    }

    /** A ref that is known never to have been recorded is used again. */
    ghost method SendAgain(sig: string, ref: string)
      requires Valid() && sig in index && ref == index[sig] && ref !in store && ref in unsent
      modifies this`w, this`history
      ensures Running() && old(history) <= history && w.phase == P.Reserved(sig, ref)
    {
      var w' := w.(phase := P.Reserved(sig, ref));
      assert P.ReserveKnown(w, w', sig);
      P.RunSnoc(history, w');
      Advance(w');
    }

    method Bind(sig: string, ref: string)
      requires Valid() && sig !in index && sig != "" && P.Fresh(w, ref)
      modifies this`index, this`w, this`history
      ensures Running() && old(history) <= history && index == old(index)[sig := ref]
      ensures w.phase == if ref in store then P.Idle else P.Reserved(sig, ref)
    {
      index := index[sig := ref];
      ReservingIsAStep(history, w, sig, ref);
      Advance(NewlyReserved(w, sig, ref));
    }

    ghost predicate Same(store: map<string, Order>, index: map<string, string>, unsent: set<string>, wire: seq<Sent>)
      reads this
    {
      this.store == store && this.index == index && this.unsent == unsent && this.wire == wire
    }

    /** The part of place behind a successful reservation. */
    method SendReserved(sig: string, ref: string, intent: OrderIntent, env: Surroundings, answer: Result<string, Error>)
      returns (r: Result<Order, Failure>)
      requires Running() && w.phase == P.Reserved(sig, ref) && sig == signing.signature(intent)
      requires ref !in store
      modifies this, log, fsm
      ensures Valid() && old(history) <= history
      ensures
        var placed := intent.(clientRef := ref);
        var row := PlacedRow(old(fsm.lastKey), placed, answer);
        if env.intentAppend.Some? then
          r == Err(LogFailed) && Same(old(store), old(index), old(unsent) + {ref}, old(wire))
        else if !env.writeOk then
          r == Err(StoreFailed)
          && Same(old(store), old(index), old(unsent) - {ref}, old(wire) + [PlaceSent(placed)])
        else
          r == (if env.resultAppend.None? then Ok(row) else Err(LogFailed))
          && Same(old(store)[ref := row], old(index), old(unsent) - {ref}, old(wire) + [PlaceSent(placed)])
      ensures fsm.lastKey == if env.intentAppend.None? then KeysBehindPlace(old(fsm.lastKey), ref, answer)
                             else old(fsm.lastKey)
    {
      var placed := intent.(clientRef := ref);
      assert S.Carried(signing, intent);
      var recorded := RecordAndSend(sig, placed, env);
      if !recorded {
        return Err(LogFailed);
      }
      var row := RowOf(placed, answer);
      r := InsertRow(sig, ref, row, env);
    }

    /** The row of an order that was sent; an acknowledgement goes through the state machine. */
    method RowOf(placed: OrderIntent, answer: Result<string, Error>) returns (row: Order)
      modifies fsm`lastKey
      ensures row == PlacedRow(old(fsm.lastKey), placed, answer)
      ensures fsm.lastKey == KeysBehindPlace(old(fsm.lastKey), placed.clientRef, answer)
    {
      if answer.Ok? {
        var _, acked := fsm.Apply(MakeOrder(placed, Sent), AckView(placed.clientRef, answer.value));
        row := acked;
      } else {
        row := MakeOrder(placed, if MayHaveReachedExchange(answer.error) then Unknown else Rejected);
      }
    }

    /** Insert the row of an order that was sent, and record the result. */
    method InsertRow(sig: string, ref: string, row: Order, env: Surroundings) returns (r: Result<Order, Failure>)
      requires Running() && w.phase == P.Answered(sig, ref) && ref !in store
      modifies this, log
      ensures Valid() && old(history) <= history
      ensures r == (if !env.writeOk then Err(StoreFailed)
                    else if env.resultAppend.None? then Ok(row) else Err(LogFailed))
      ensures Same(if env.writeOk then old(store)[ref := row] else old(store), old(index), old(unsent), old(wire))
    {
      if !env.writeOk {
        NotStored(sig, ref, row);
        return Err(StoreFailed);
      }
      Store(sig, ref, row);
      var ok := AppendResult(ref, env);
      r := if ok then Ok(row) else Err(LogFailed);
    }

    ghost method NotStored(sig: string, ref: string, row: Order)
      requires Running() && w.phase == P.Answered(sig, ref)
      modifies this`w, this`history
      ensures Valid() && old(history) <= history
    {
      ghost var w' := w.(phase := P.Idle);
      assert P.Insert(w, w', row);
      P.RunSnoc(history, w');
      Advance(w');
    }

    method Store(ghost sig: string, ref: string, row: Order)
      requires Running() && w.phase == P.Answered(sig, ref) && ref !in store
      modifies this`store, this`w, this`history
      ensures Running() && old(history) <= history && w.phase == P.Settled(ref)
      ensures store == old(store)[ref := row]
    {
      store := store[ref := row];
      ghost var w' := w.(store := store, phase := P.Settled(ref));
      assert P.Insert(w, w', row);
      P.RunSnoc(history, w');
      Advance(w');
    }

    /** Record the intent and, only if that is durable, send. */
    method RecordAndSend(sig: string, placed: OrderIntent, env: Surroundings) returns (ok: bool)
      requires Running() && w.phase == P.Reserved(sig, placed.clientRef) && sig == signing.signature(placed)
      modifies this, log
      ensures Running() && old(history) <= history
      ensures ok <==> env.intentAppend.None?
      ensures ok ==>
        w.phase == P.Answered(sig, placed.clientRef)
        && Same(old(store), old(index), old(unsent) - {placed.clientRef}, old(wire) + [PlaceSent(placed)])
      ensures !ok ==> w.phase == P.Idle && Same(old(store), old(index), old(unsent) + {placed.clientRef}, old(wire))
    {
      ok := RecordIntent(sig, placed, env);
      Note(placed.clientRef, ok);
      if ok {
        SendPlace(sig, placed);
      }
    }

    /** A ref whose record is durable may be sent; one whose record is not will not be. */
    method Note(ref: string, recorded: bool)
      requires Logged() && w.store == store && w.index == index
      requires w.unsent == if recorded then unsent - {ref} else unsent + {ref}
      modifies this`unsent
      ensures Running() && unsent == if recorded then old(unsent) - {ref} else old(unsent) + {ref}
    {
      unsent := if recorded then unsent - {ref} else unsent + {ref};
    }

    method SendPlace(ghost sig: string, placed: OrderIntent)
      requires Running() && w.phase == P.Recorded(sig, placed.clientRef) && |w.log| > 0
      requires sig == signing.signature(placed)
      modifies this`wire, this`w, this`history
      ensures Running() && old(history) <= history
      ensures w.phase == P.Answered(sig, placed.clientRef) && wire == old(wire) + [PlaceSent(placed)]
    {
      ghost var call := P.Call(PlaceOrder, sig, placed.clientRef, |w.log| - 1);
      ghost var w' := w.(calls := w.calls + [call], phase := P.Answered(sig, placed.clientRef));
      assert P.Send(w, w');
      P.RunSnoc(history, w');
      Send(PlaceSent(placed), call, w');
    }

    method RecordIntent(sig: string, placed: OrderIntent, env: Surroundings) returns (ok: bool)
      requires Running() && w.phase == P.Reserved(sig, placed.clientRef) && sig == signing.signature(placed)
      modifies this`recs, this`w, this`history, this`stuck, log
      ensures Logged() && old(history) <= history && w.store == store && w.index == index
      ensures ok <==> env.intentAppend.None?
      ensures w.unsent == if ok then unsent - {placed.clientRef} else unsent + {placed.clientRef}
      ensures if ok then |w.log| > 0 && w.phase == P.Recorded(sig, placed.clientRef) else w.phase == P.Idle
    {
      var ref := placed.clientRef;
      ghost var rec := P.PlaceRec(sig, ref);
      assert S.Carried(signing, placed);
      ghost var failed := w.(unsent := w.unsent + {ref}, phase := P.Idle);
      ghost var recorded := P.Appended(w, rec).(unsent := w.unsent - {ref}, phase := P.Recorded(sig, ref));
      RecordingIsAStep(history, w, sig, ref, env.intentAppend);
      ok := AppendRecord(IL.Request(PlaceOrder, ref, signing.payload(placed), env.wallTs), env.intentAppend, rec,
                         recorded, failed);
    }

    /** One mutation at the broker. */
    method Send(sent: Sent, ghost call: P.Call, ghost w': P.World)
      requires Running() && Matches(signing, sent, call)
      requires w' == w.(calls := w.calls + [call], phase := w'.phase) && P.IsRun(history + [w'])
      modifies this`wire, this`w, this`history
      ensures Running() && old(history) <= history && w == w' && wire == old(wire) + [sent]
    {
      TracedSnoc(signing, wire, w.calls, sent, call);
      wire := wire + [sent];
      Advance(w');
    }

    // -------------------------------------------------------------- modify, cancel, square-off

    /** Record and send any other mutation. */
    method RecordAndSendOther(op: IntentOp, ref: string, payload: string, sent: Sent, env: Surroundings)
      returns (ok: bool)
      requires Valid() && op in {ModifyOrder, CancelOrder, SquareOff}
      requires Matches(signing, sent, P.Call(op, "", ref, 0))
      modifies this, log
      ensures Running() && old(history) <= history
      ensures ok <==> env.intentAppend.None?
      ensures w.phase == if ok then P.OtherAnswered(op, ref) else P.Idle
      ensures Same(old(store), old(index), old(unsent), if ok then old(wire) + [sent] else old(wire))
    {
      ok := RecordOther(op, ref, payload, env);
      if ok {
        SendOther(op, ref, sent);
      }
    }

    method RecordOther(op: IntentOp, ref: string, payload: string, env: Surroundings) returns (ok: bool)
      requires Valid() && op in {ModifyOrder, CancelOrder, SquareOff}
      modifies this`recs, this`w, this`history, this`stuck, log
      ensures Running() && old(history) <= history
      ensures ok <==> env.intentAppend.None?
      ensures if ok then w.phase == P.OtherRecorded(op, ref) && |w.log| > 0 else w.phase == P.Idle
    {
      ghost var rec := P.LogRec(op, Utf8.Canonical(ref), None);
      ghost var recorded := P.Appended(w, rec).(phase := P.OtherRecorded(op, ref));
      OtherIsAStep(history, w, op, ref, env.intentAppend);
      ok := AppendRecord(IL.Request(op, ref, payload, env.wallTs), env.intentAppend, rec, recorded, w);
    }

    method SendOther(ghost op: IntentOp, ghost ref: string, sent: Sent)
      requires Running() && w.phase == P.OtherRecorded(op, ref) && |w.log| > 0
      requires Matches(signing, sent, P.Call(op, "", ref, 0))
      modifies this`wire, this`w, this`history
      ensures Running() && old(history) <= history
      ensures w.phase == P.OtherAnswered(op, ref) && wire == old(wire) + [sent]
    {
      ghost var call := P.Call(op, "", ref, |w.log| - 1);
      ghost var w' := w.(calls := w.calls + [call], phase := P.OtherAnswered(op, ref));
      assert P.SendOther(w, w');
      P.RunSnoc(history, w');
      Send(sent, call, w');
    }

    /** Leave the row as it is; go on to the result record, or stop here. */
    ghost method Keep(op: IntentOp, ref: string, settled: bool)
      requires Running() && w.phase == P.OtherAnswered(op, ref)
      modifies this`w, this`history
      ensures Running() && old(history) <= history
      ensures w.phase == if settled then P.Settled(ref) else P.Idle
    {
      ghost var w' := w.(phase := if settled then P.Settled(ref) else P.Idle);
      assert P.KeepRow(w, w');
      P.RunSnoc(history, w');
      Advance(w');
    }

    /** Write the row of an order that another mutation touched. */
    method WriteRow(op: IntentOp, ref: string, row: Order)
      requires Running() && w.phase == P.OtherAnswered(op, ref)
      requires op != ModifyOrder ==>
        ref in store && !L.IsTerminal(store[ref].state) && row == store[ref].(state := Unknown)
      modifies this`store, this`w, this`history
      ensures Running() && old(history) <= history && w.phase == P.Settled(ref)
      ensures store == old(store)[ref := row]
    {
      store := store[ref := row];
      ghost var w' := w.(store := store, phase := P.Settled(ref));
      assert P.UpdateRow(w, w', row);
      P.RunSnoc(history, w');
      Advance(w');
    }

    /** Write the row, if it is to be touched, and record the result. */
    method Conclude(op: IntentOp, ref: string, row: Option<Order>, env: Surroundings) returns (failed: Option<Failure>)
      requires Running() && w.phase == P.OtherAnswered(op, ref)
      requires op != ModifyOrder && row.Some? ==>
        ref in store && !L.IsTerminal(store[ref].state) && row.value == store[ref].(state := Unknown)
      modifies this, log
      ensures Valid() && old(history) <= history
      ensures failed == if row.Some? && !env.writeOk then Some(StoreFailed)
                        else if env.resultAppend.Some? then Some(LogFailed) else None
      ensures Same(if row.Some? && env.writeOk then old(store)[ref := row.value] else old(store),
                   old(index), old(unsent), old(wire))
    {
      if row.Some? && !env.writeOk {
        Keep(op, ref, false);
        return Some(StoreFailed);
      }
      if row.Some? {
        WriteRow(op, ref, row.value);
      } else {
        Keep(op, ref, true);
      }
      var ok := AppendResult(ref, env);
      failed := if ok then None else Some(LogFailed);
    }

    method Modify(brokerOrderId: string, intent: OrderIntent, env: Surroundings, answer: Result<string, Error>)
      returns (r: Result<Order, Failure>)
      requires Valid()
      modifies this, log
      ensures Valid() && old(history) <= history
      ensures
        var ref := intent.clientRef;
        var sent := old(wire) + [ModifySent(brokerOrderId, intent)];
        var row := ModifiedRow(if ref in old(store) then old(store)[ref] else MakeOrder(intent, Acknowledged),
                               brokerOrderId, answer);
        if env.intentAppend.Some? then
          r == Err(LogFailed) && Same(old(store), old(index), old(unsent), old(wire))
        else if !env.findOk || (row.Some? && !env.writeOk) then
          r == Err(StoreFailed) && Same(old(store), old(index), old(unsent), sent)
        else
          r == (if env.resultAppend.Some? then Err(LogFailed)
                else if row.Some? then Ok(row.value) else Err(Refused(answer.error)))
          && Same(if row.Some? then old(store)[ref := row.value] else old(store), old(index), old(unsent), sent)
    {
      var ref := intent.clientRef;
      var recorded := RecordAndSendOther(ModifyOrder, ref, signing.payload(intent),
                                         ModifySent(brokerOrderId, intent), env);
      if !recorded {
        return Err(LogFailed);
      }
      if !env.findOk {
        Keep(ModifyOrder, ref, false);
        return Err(StoreFailed);
      }
      var row := ModifiedRow(if ref in store then store[ref] else MakeOrder(intent, Acknowledged),
                             brokerOrderId, answer);
      var failed := Conclude(ModifyOrder, ref, row, env);
      r := if failed.Some? then Err(failed.value)
           else if row.Some? then Ok(row.value) else Err(Refused(answer.error));
    }

    /** Cancel and square-off, which differ only in the operation they record and send. `answer` is
        the broker's error, if it reported one. */
    method Withdraw(op: IntentOp, brokerOrderId: string, ref: string, payload: string, env: Surroundings,
                    answer: Option<Error>)
      returns (r: Result<(), Failure>)
      requires Valid() && op in {CancelOrder, SquareOff}
      modifies this, log
      ensures Valid() && old(history) <= history
      ensures
        var sent := old(wire) + [if op.CancelOrder? then CancelSent(brokerOrderId) else SquareOffSent(brokerOrderId)];
        var doubtful := (match answer
                         case None => false
                         case Some(Error(category, action)) =>
                           action == ReconcileFirst || category == Timeout || category == Network
                           || category == UnknownError)
          && env.findOk && ref in old(store) && old(store)[ref].state !in {Filled, Rejected, Cancelled};
        if env.intentAppend.Some? then
          r == Err(LogFailed) && Same(old(store), old(index), old(unsent), old(wire))
        else if doubtful && !env.writeOk then
          r == Err(StoreFailed) && Same(old(store), old(index), old(unsent), sent)
        else
          r == (if env.resultAppend.Some? then Err(LogFailed)
                else if answer.Some? then Err(Refused(answer.value)) else Ok(()))
          && Same(if doubtful then old(store)[ref := old(store)[ref].(state := Unknown)] else old(store),
                  old(index), old(unsent), sent)
    {
      var sent := if op.CancelOrder? then CancelSent(brokerOrderId) else SquareOffSent(brokerOrderId);
      var recorded := RecordAndSendOther(op, ref, payload, sent, env);
      if !recorded {
        return Err(LogFailed);
      }
      var doubtful := answer.Some? && MayHaveReachedExchange(answer.value) && env.findOk && ref in store
        && !L.IsTerminal(store[ref].state);
      var failed := Conclude(op, ref, if doubtful then Some(store[ref].(state := Unknown)) else None, env);
      r := if failed.Some? then Err(failed.value) else if answer.Some? then Err(Refused(answer.value)) else Ok(());
    }
  }

  /** The world right behind a boot. */
  ghost predicate Booted(w: P.World, log: seq<P.LogRec>, store: map<string, Order>, index: map<string, string>) {
    && w.log == log && !w.dirty && !w.corrupt && w.up && w.phase == P.Idle
    && w.store == store && w.index == index && w.unsent == {}
  }

  /** What may remain of a failed append. */
  ghost function Residue(w: P.World, rec: P.LogRec, left: nat): (w': P.World)
    ensures P.AppendFailed(w, w', rec)
    ensures w'.dirty == (w.dirty || left > 0) && w' == w.(dirty := w'.dirty, residue := w'.residue)
  {
    if left == 0 then w else w.(dirty := true, residue := w.residue + [rec])
  }

  /** Recording a reserved signal is a step of the protocol, whether the append works or not. */
  lemma RecordingIsAStep(history: seq<P.World>, w: P.World, sig: string, ref: string, left: Option<nat>)
    requires P.IsRun(history) && history[|history| - 1] == w && w.up && w.phase == P.Reserved(sig, ref)
    ensures var rec := P.PlaceRec(sig, ref);
      P.IsRun(history + [if left.None?
        then P.Appended(w, rec).(unsent := w.unsent - {ref}, phase := P.Recorded(sig, ref))
        else Residue(w.(unsent := w.unsent + {ref}, phase := P.Idle), rec, left.value)])
  {
    var rec := P.PlaceRec(sig, ref);
    if left.None? {
      var w' := P.Appended(w, rec).(unsent := w.unsent - {ref}, phase := P.Recorded(sig, ref));
      assert P.Record(w, w');
      P.RunSnoc(history, w');
    } else {
      var w' := Residue(w.(unsent := w.unsent + {ref}, phase := P.Idle), rec, left.value);
      assert P.RecordFails(w, w');
      P.RunSnoc(history, w');
    }
  }

  /** So is recording a result, */
  lemma ResultIsAStep(history: seq<P.World>, w: P.World, ref: string, left: Option<nat>)
    requires P.IsRun(history) && history[|history| - 1] == w && w.up && w.phase == P.Settled(ref)
    ensures var rec := P.LogRec(OpResult, Utf8.Canonical(ref), None);
      P.IsRun(history + [if left.None? then P.Appended(w, rec).(phase := P.Idle)
                         else Residue(w.(phase := P.Idle), rec, left.value)])
  {
    var rec := P.LogRec(OpResult, Utf8.Canonical(ref), None);
    var w' := if left.None? then P.Appended(w, rec).(phase := P.Idle)
              else Residue(w.(phase := P.Idle), rec, left.value);
    assert P.RecordResult(w, w');
    P.RunSnoc(history, w');
  }

  /** recording another mutation, */
  lemma OtherIsAStep(history: seq<P.World>, w: P.World, op: IntentOp, ref: string, left: Option<nat>)
    requires P.IsRun(history) && history[|history| - 1] == w && P.Live(w) && op in {ModifyOrder, CancelOrder, SquareOff}
    ensures var rec := P.LogRec(op, Utf8.Canonical(ref), None);
      P.IsRun(history + [if left.None? then P.Appended(w, rec).(phase := P.OtherRecorded(op, ref))
                         else Residue(w, rec, left.value)])
  {
    var rec := P.LogRec(op, Utf8.Canonical(ref), None);
    var w' := if left.None? then P.Appended(w, rec).(phase := P.OtherRecorded(op, ref))
              else Residue(w, rec, left.value);
    assert P.RecordOther(w, w', op, ref);
    P.RunSnoc(history, w');
  }

  /** and reserving a signal that is not known. */
  lemma ReservingIsAStep(history: seq<P.World>, w: P.World, sig: string, ref: string)
    requires P.IsRun(history) && history[|history| - 1] == w
    requires P.Live(w) && sig !in w.index && sig != "" && P.Fresh(w, ref)
    ensures P.IsRun(history + [NewlyReserved(w, sig, ref)])
  {
    assert P.ReserveNew(w, NewlyReserved(w, sig, ref), sig, ref);
    P.RunSnoc(history, NewlyReserved(w, sig, ref));
  }

  function NewlyReserved(w: P.World, sig: string, ref: string): P.World {
    var w1 := w.(minted := w.minted + {ref}, index := w.index[sig := ref]);
    if ref in w.store then w1 else w1.(phase := P.Reserved(sig, ref))
  }

  function RequestView(s: S.Signing, op: IntentOp, ref: string, payload: string): P.LogRec {
    P.LogRec(op, Utf8.Canonical(ref), if op.PlaceOrder? then s.read(Utf8.Canonical(payload)) else None)
  }

  /** The broker's calls are the protocol's calls. */
  predicate Matches(g: S.Signing, s: Sent, c: P.Call) {
    match s
    case PlaceSent(i) => c.op == PlaceOrder && c.sig == g.signature(i) && c.ref == i.clientRef
    case ModifySent(_, i) => c.op == ModifyOrder && c.ref == i.clientRef
    case CancelSent(_) => c.op == CancelOrder
    case SquareOffSent(_) => c.op == SquareOff
  }

  ghost predicate Traced(g: S.Signing, wire: seq<Sent>, calls: seq<P.Call>) {
    |wire| == |calls| && forall i :: 0 <= i < |wire| ==> Matches(g, wire[i], calls[i])
  }

  lemma TracedSnoc(g: S.Signing, wire: seq<Sent>, calls: seq<P.Call>, s: Sent, c: P.Call)
    requires Traced(g, wire, calls) && Matches(g, s, c)
    ensures Traced(g, wire + [s], calls + [c])
  {
  }

  // ---------------------------------------------------------------- crash and boot

  /** The loop that rebuilds the index from the replayed records. */
  method RebuildIndex(signing: S.Signing, records: seq<Record>) returns (index: map<string, string>)
    ensures index == P.Rebuild(Views(signing, records))
  {
    index := map[];
    var i := 0;
    while i < |records|
      invariant 0 <= i <= |records|
      invariant index == P.Rebuild(Views(signing, records[..i]))
    {
      var rec := records[i];
      assert records[..i + 1] == records[..i] + [rec];
      ViewsSnoc(signing, records[..i], rec);
      assert Views(signing, records[..i + 1])[..i] == Views(signing, records[..i]);
      if rec.op.PlaceOrder? {
        var sig := signing.read(rec.payload);
        if sig.Some? && sig.value != "" && rec.clientRef != "" && sig.value !in index {
          index := index[sig.value := rec.clientRef];
        }
      }
      i := i + 1;
    }
    assert records[..|records|] == records;
  }

  /** The first boot, over a log that does not exist yet. */
  method FirstBoot(signing: S.Signing, layout: IL.Layout, fsm: L.LifecycleEngine, store: map<string, Order>)
    returns (d: Dispatcher)
    requires S.Sound(signing) && IL.Usable(layout)
    ensures fresh(d) && d.Valid() && d.wire == [] && d.index == map[]
    ensures d.signing == signing && d.log.layout == layout && d.store == store
  {
    ghost var init := P.World([], [], false, false, store, map[], {}, false, P.Idle, {}, []);
    ghost var booted := init.(up := true);
    assert P.Restart(init, booted, None);
    P.RunSnoc([init], booted);
    ghost var run := [init, booted];
    assert run == [init] + [booted];
    var log := new IL.Log(layout, "");
    d := new Dispatcher(signing, log, fsm, store, map[], [], [], run);
  }

  /** The process `dead` was anywhere inside any operation when it died, with `cut` bytes of the
      record it was appending in the file; or it had failed to append `q` before, and of the bytes
      that left there are `cut` and nothing else behind the log. Behind that any number of boots may
      have died inside their own repair. A boot from those bytes, with whatever projection the
      store then has, continues the run. */
  method Restart(ghost dead: Dispatcher, ghost q: IL.Request, ghost cut: nat, ghost boots: seq<nat>,
                 signing: S.Signing, layout: IL.Layout, bytes: string, fsm: L.LifecycleEngine,
                 store: map<string, Order>, wire: seq<Sent>)
    returns (d: Dispatcher)
    requires dead.Running()
    requires dead.signing == signing && dead.log.layout == layout && dead.wire == wire
    requires bytes == IL.FileAfter(layout, dead.recs, IL.Life([], q, cut, boots))
    requires if dead.w.dirty then dead.stuck.Some? && dead.stuck.value.0 == q && cut <= dead.stuck.value.1
             else cut == 0 || P.InFlight(dead.w, RequestView(signing, q.op, q.clientRef, q.payload))
    ensures fresh(d) && d.Valid() && dead.history <= d.history
    ensures d.signing == signing && d.log.layout == layout
    ensures d.wire == wire && d.store == store && d.unsent == {}
    ensures dead.recs <= d.recs && d.index == P.Rebuild(d.w.log)
  {
    ghost var recs := dead.recs;
    ghost var run := RunAfterCrash(dead.history, dead.w, recs, q, cut, boots, signing, layout, store);
    var log, records := IL.Boot(layout, recs, IL.Life([], q, cut, boots), bytes);
    var index := RebuildIndex(signing, records);
    d := new Dispatcher(signing, log, fsm, store, index, wire, records, run);
  }

  /** The run that a boot continues from what a crash left of the records `recs`. */
  lemma RunAfterCrash(history: seq<P.World>, w: P.World, recs: seq<Record>, q: IL.Request, cut: nat, boots: seq<nat>,
                      signing: S.Signing, layout: IL.Layout, store: map<string, Order>)
    returns (run: seq<P.World>)
    requires P.IsRun(history) && history[|history| - 1] == w && w.up && !w.corrupt && w.log == Views(signing, recs)
    requires IL.Usable(layout) && IL.WellBuilt(layout, recs)
    requires var view := RequestView(signing, q.op, q.clientRef, q.payload);
      if w.dirty then view in w.residue else cut == 0 || P.InFlight(w, view)
    ensures P.IsRun(run) && history <= run
    ensures var g := IL.ScanFile(layout, IL.FileAfter(layout, recs, IL.Life([], q, cut, boots)));
      && g.Good? && recs <= g.records
      && run[|run| - 1] == P.World(Views(signing, g.records), [], false, false, store,
                                   P.Rebuild(Views(signing, g.records)), {}, true, P.Idle, w.minted, w.calls)
  {
    IL.CrashedAppendKeeps(layout, recs, q, cut, boots);
    var g := IL.ScanFile(layout, IL.FileAfter(layout, recs, IL.Life([], q, cut, boots)));
    run := RunAfterReplay(history, w, recs, g.records, IL.Next(layout, recs, q), cut > 0 && !w.dirty, signing, store);
  }

  /** The run that a boot from `records` continues, when `dead` had the records `recs`. */
  lemma RunAfterReplay(history: seq<P.World>, w: P.World, recs: seq<Record>, records: seq<Record>, r: Record,
                       torn: bool, signing: S.Signing, store: map<string, Order>)
    returns (run: seq<P.World>)
    requires P.IsRun(history) && history[|history| - 1] == w && w.up && !w.corrupt && w.log == Views(signing, recs)
    requires torn ==> P.InFlight(w, View(signing, r))
    requires records == recs || (records == recs + [r] && (torn || View(signing, r) in w.residue))
    ensures P.IsRun(run) && history <= run
    ensures var w' := run[|run| - 1];
      w' == P.World(Views(signing, records), [], false, false, store, P.Rebuild(Views(signing, records)), {}, true,
                    P.Idle, w.minted, w.calls)
  {
    ViewsSnoc(signing, recs, r);
    run := Rebooted(history, w, View(signing, r), torn, records != recs, store);
  }

  ghost function Died(w: P.World, rec: P.LogRec, torn: bool): P.World {
    var dead := w.(up := false, index := map[], unsent := {}, phase := P.Idle);
    if torn then dead.(dirty := true, residue := w.residue + [rec]) else dead
  }

  ghost function Reborn(w: P.World, rec: P.LogRec, found: bool, store: map<string, Order>): P.World {
    var log := if found then w.log + [rec] else w.log;
    w.(log := log, residue := [], dirty := false, index := P.Rebuild(log), up := true, store := store)
  }

  lemma DyingIsAStep(history: seq<P.World>, w: P.World, rec: P.LogRec, torn: bool)
    requires P.IsRun(history) && history[|history| - 1] == w && w.up && (torn ==> P.InFlight(w, rec))
    ensures P.IsRun(history + [Died(w, rec, torn)])
  {
    assert P.Crash(w, Died(w, rec, torn), if torn then Some(rec) else None);
    P.RunSnoc(history, Died(w, rec, torn));
  }

  lemma BootingIsAStep(history: seq<P.World>, w: P.World, rec: P.LogRec, found: bool, store: map<string, Order>)
    requires P.IsRun(history) && history[|history| - 1] == w
    requires !w.up && !w.corrupt && (found ==> rec in w.residue)
    ensures P.IsRun(history + [Reborn(w, rec, found, store)])
  {
    assert P.Restart(w, Reborn(w, rec, found, store), if found then Some(rec) else None);
    P.RunSnoc(history, Reborn(w, rec, found, store));
  }

  /** The two steps behind a run that ends in `w`: the process dies, then it boots. */
  lemma Rebooted(history: seq<P.World>, w: P.World, rec: P.LogRec, torn: bool, found: bool, store: map<string, Order>)
    returns (run: seq<P.World>)
    requires P.IsRun(history) && history[|history| - 1] == w && w.up && !w.corrupt
    requires (torn ==> P.InFlight(w, rec)) && (found ==> torn || rec in w.residue)
    ensures P.IsRun(run) && history <= run
    ensures run[|run| - 1] == Reborn(Died(w, rec, torn), rec, found, store)
  {
    var dead := Died(w, rec, torn);
    DyingIsAStep(history, w, rec, torn);
    BootingIsAStep(history + [dead], dead, rec, found, store);
    run := history + [dead] + [Reborn(dead, rec, found, store)];
  }

  // ---------------------------------------------------------------- what the broker has seen

  /** Whatever has happened to the dispatcher and to the processes before it: no two orders at the
      broker carry one signature. */
  lemma NoSignaturePlacedTwice(d: Dispatcher)
    requires d.Running()
    ensures forall i, j :: 0 <= i < j < |d.wire| && d.wire[i].PlaceSent? && d.wire[j].PlaceSent? ==>
      d.signing.signature(d.wire[i].intent) != d.signing.signature(d.wire[j].intent)
  {
    P.AtMostOncePlacePerSignature(d.history, d.w);
    forall i, j | 0 <= i < j < |d.wire| && d.wire[i].PlaceSent? && d.wire[j].PlaceSent?
      ensures d.signing.signature(d.wire[i].intent) != d.signing.signature(d.wire[j].intent)
    {
      assert Matches(d.signing, d.wire[i], d.w.calls[i]) && Matches(d.signing, d.wire[j], d.w.calls[j]);
      assert P.IsPlaceCall(d.w.calls[i]) && P.IsPlaceCall(d.w.calls[j]);
    }
  }

  /** In terms of the orders themselves: no signal reaches the broker twice. */
  lemma NoSignalPlacedTwice(d: Dispatcher, h: S.Digest)
    requires d.Running() && d.signing == S.JsonSigning(h)
    ensures forall i, j :: 0 <= i < j < |d.wire| && d.wire[i].PlaceSent? && d.wire[j].PlaceSent? ==>
      !S.SameSignal(d.wire[i].intent, d.wire[j].intent)
  {
    NoSignaturePlacedTwice(d);
    forall i, j | 0 <= i < j < |d.wire| && d.wire[i].PlaceSent? && d.wire[j].PlaceSent?
      ensures !S.SameSignal(d.wire[i].intent, d.wire[j].intent)
    {
      S.SignatureInputEqualIff(d.wire[i].intent, d.wire[j].intent);
    }
  }

  /** Everything sent to the broker has a durable record of its own, in the bytes the next boot
      reads. */
  lemma SentIsRecorded(d: Dispatcher, i: nat)
    requires d.Running() && i < |d.wire|
    ensures var at := d.w.calls[i].at;
      && at < |d.recs|
      && d.recs[at].op == d.w.calls[i].op
      && (d.wire[i].PlaceSent? ==>
            && d.recs[at].clientRef == Utf8.Canonical(d.wire[i].intent.clientRef)
            && d.signing.read(d.recs[at].payload) == Some(d.signing.signature(d.wire[i].intent)))
      && (!d.w.dirty ==> IL.ScanFile(d.log.layout, d.log.file) == IL.Good(d.recs, IL.Clean))
      && (d.stuck.Some? ==>
            var g := IL.ScanFile(d.log.layout, d.log.file);
            g.Good? && d.recs <= g.records)
  {
    P.AtMostOncePlacePerSignature(d.history, d.w);
    assert Matches(d.signing, d.wire[i], d.w.calls[i]);
    var at := d.w.calls[i].at;
    assert d.w.log[at] == View(d.signing, d.recs[at]);
    if d.wire[i].PlaceSent? {
      assert P.IsPlaceCall(d.w.calls[i]);
      assert P.IsPlaceOf(d.w.log[at], d.w.calls[i].sig);
    }
    if !d.w.dirty {
      IL.HeldIsReplayed(d.log, d.recs);
    } else if d.stuck.Some? {
      IL.CrashedAppendKeeps(d.log.layout, d.recs, d.stuck.value.0, d.stuck.value.1, []);
    }
  }
}
