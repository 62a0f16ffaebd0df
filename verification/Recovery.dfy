/** The boot sequence that decides whether trading may resume (src/reconcile/recovery.cpp). */
module Recovery {
  import opened Options
  import opened Domain
  import L = Lifecycle
  import R = Reconciler

  const SNAPSHOT := 1

  datatype Status = ResumedSafe | Blocked | ManualIntervention

  datatype RecoveryOutcome = RecoveryOutcome(
    status: Status,
    orders: seq<Order>,
    unknownsResolved: nat,
    unknownsUnresolved: nat,
    mismatches: nat,
    escalated: bool)

  /** What the surroundings answer: the replayed orders, the session check, the snapshot or why
      there is none, and the safe-start gate. */
  datatype Answers = Answers(
    loaded: Option<seq<Order>>,
    sessionOk: bool,
    fetched: Result<seq<Order>, Error>,
    safeStart: bool)

  /** The categories that prove the broker was reached and its reply inspected. */
  predicate BrokerAnswered(e: Error) {
    e.category.DataStale? || e.category.Validation?
  }

  function UnknownIn(orders: seq<Order>): (n: nat)
    ensures n == 0 <==> forall i :: 0 <= i < |orders| ==> orders[i].state != Unknown
  {
    if orders == [] then 0
    else UnknownIn(orders[..|orders| - 1]) + (if orders[|orders| - 1].state == Unknown then 1 else 0)
  }

  /** An order whose fate cannot be learned is handed to a human. */
  function HandedOver(o: Order): Order {
    if o.state == Unknown then o.(state := ManualInterventionRequired) else o
  }

  function AllHandedOver(orders: seq<Order>): (r: seq<Order>)
    ensures |r| == |orders|
  {
    seq(|orders|, i requires 0 <= i < |orders| => HandedOver(orders[i]))
  }

  function Stopped(orders: seq<Order>): RecoveryOutcome {
    RecoveryOutcome(Blocked, orders, 0, 0, 0, false)
  }

  /** No snapshot: a double fault if the broker is out of reach and some order is Unknown. */
  function WithoutSnapshot(orders: seq<Order>, e: Error): RecoveryOutcome {
    if !BrokerAnswered(e) && UnknownIn(orders) > 0
    then RecoveryOutcome(ManualIntervention, AllHandedOver(orders), 0, UnknownIn(orders), 0, true)
    else Stopped(orders)
  }

  function WithSnapshot(orders: seq<Order>, keys: L.Keys, rows: seq<Order>, safeStart: bool): RecoveryOutcome {
    var s := R.AfterSnapshot(orders, keys, rows, SNAPSHOT, -1);
    var before, after := UnknownIn(orders), UnknownIn(s.locals);
    RecoveryOutcome(if safeStart && after == 0 && s.counts.mismatches == 0 then ResumedSafe else Blocked,
                    s.locals, if before > after then before - after else 0, after, s.counts.mismatches, false)
  }

  /** The outcome, by what the surroundings answer. */
  function Recovered(a: Answers, keys: L.Keys): RecoveryOutcome {
    if a.loaded.None? then Stopped([])
    else if !a.sessionOk then Stopped(a.loaded.value)
    else
      match a.fetched
      case Err(e) => WithoutSnapshot(a.loaded.value, e)
      case Ok(rows) => WithSnapshot(a.loaded.value, keys, rows, a.safeStart)
  }

  /** Load, check the session, fetch, reconcile, and only then decide. */
  method Recover(engine: L.LifecycleEngine, a: Answers) returns (out: RecoveryOutcome)
    modifies engine`lastKey
    ensures out == Recovered(a, old(engine.lastKey))
    ensures engine.lastKey ==
      if a.loaded.Some? && a.sessionOk && a.fetched.Ok?
      then R.AfterSnapshot(a.loaded.value, old(engine.lastKey), a.fetched.value, SNAPSHOT, -1).keys
      else old(engine.lastKey)
  {
    out := RecoveryOutcome(Blocked, [], 0, 0, 0, false);
    if a.loaded.None? {
      return;
    }
    ghost var loaded := a.loaded.value;
    var orders := new Order[|a.loaded.value|](i requires 0 <= i < |a.loaded.value| => a.loaded.value[i]);
    assert orders[..] == loaded;
    out := out.(orders := orders[..]);
    if !a.sessionOk {
      return;
    }
    if a.fetched.Err? {
      if BrokerAnswered(a.fetched.error) {
        return;
      }
      var unknown := HandOver(orders);
      out := out.(orders := orders[..]);
      if unknown > 0 {
        out := out.(status := ManualIntervention, unknownsUnresolved := unknown, escalated := true);
      } else {
        NothingToHandOver(loaded);
      }
      return;
    }
    out := Reconcile(engine, a.fetched.value, orders, a.safeStart);
  }

  /** Fold the snapshot in, and decide. */
  method Reconcile(engine: L.LifecycleEngine, rows: seq<Order>, orders: array<Order>, safeStart: bool)
    returns (out: RecoveryOutcome)
    modifies engine`lastKey, orders
    ensures out == WithSnapshot(old(orders[..]), old(engine.lastKey), rows, safeStart)
    ensures engine.lastKey == R.AfterSnapshot(old(orders[..]), old(engine.lastKey), rows, SNAPSHOT, -1).keys
  {
    var before := CountUnknown(orders[..]);
    var applier := new R.ReconcileApplier(engine);
    var recon := applier.Apply(rows, SNAPSHOT, orders);
    var after := CountUnknown(orders[..]);
    out := RecoveryOutcome(Blocked, orders[..], if before > after then before - after else 0, after,
                           recon.mismatches, false);
    if !safeStart || after > 0 || recon.blockNewOrders || recon.mismatches > 0 {
      return;
    }
    out := out.(status := ResumedSafe);
  }

  method CountUnknown(orders: seq<Order>) returns (n: nat)
    ensures n == UnknownIn(orders)
  {
    n := 0;
    for i := 0 to |orders|
      invariant n == UnknownIn(orders[..i])
    {
      assert orders[..i + 1][..i] == orders[..i];
      if orders[i].state == Unknown {
        n := n + 1;
      }
    }
    assert orders[..|orders|] == orders;
  }

  method HandOver(orders: array<Order>) returns (n: nat)
    modifies orders
    ensures orders[..] == AllHandedOver(old(orders[..])) && n == UnknownIn(old(orders[..]))
  {
    n := 0;
    ghost var was := orders[..];
    for i := 0 to orders.Length
      invariant n == UnknownIn(was[..i])
      invariant forall j :: 0 <= j < i ==> orders[j] == HandedOver(was[j])
      invariant forall j :: i <= j < orders.Length ==> orders[j] == was[j]
    {
      assert was[..i + 1][..i] == was[..i];
      if orders[i].state == Unknown {
        orders[i] := orders[i].(state := ManualInterventionRequired);
        n := n + 1;
      }
    }
    assert was[..orders.Length] == was;
  }

  lemma NothingToHandOver(orders: seq<Order>)
    requires UnknownIn(orders) == 0
    ensures AllHandedOver(orders) == orders
  {
  }

  // ---------------------------------------------------------------- what the outcomes mean

  /** What resuming means, for orders and rows that correspond one to one and whatever the engine has
      recorded: no order is Unknown, every acknowledged working order is in the snapshot, and every
      broker row agrees with a local order if and only if no recorded key silences a row. */
  lemma ResumedSafeMeansAgreement(a: Answers, keys: L.Keys)
    requires Recovered(a, keys).status == ResumedSafe && R.OneToOne(a.loaded.value, a.fetched.value)
    ensures var before, after, rows := a.loaded.value, Recovered(a, keys).orders, a.fetched.value;
      && |after| == |before|
      && (forall i :: 0 <= i < |after| ==> after[i].state != Unknown)
      && (R.AllAgree(before, after, rows) <==> !R.SilencesOne(before, keys, rows, SNAPSHOT))
      && (forall i :: 0 <= i < |after| && !L.IsTerminal(after[i].state) && after[i].brokerOrderId != "" ==>
            R.Present(after[i], rows))
  {
    R.DivergenceIsSilentIff(a.loaded.value, keys, a.fetched.value, SNAPSHOT, -1);
  }

  /** In particular with an engine that has recorded nothing as new as the snapshot, as one has that
      was made for this boot. */
  lemma FreshEngineResumesInAgreement(a: Answers, keys: L.Keys)
    requires Recovered(a, keys).status == ResumedSafe && R.OneToOne(a.loaded.value, a.fetched.value)
    requires R.Above(keys, a.loaded.value, SNAPSHOT)
    ensures R.AllAgree(a.loaded.value, Recovered(a, keys).orders, a.fetched.value)
  {
    R.NoSilentDivergence(a.loaded.value, keys, a.fetched.value, SNAPSHOT, -1);
  }

  /** The three outcomes, exactly: a human is called only for an Unknown order behind a broker out
      of reach; trading resumes only if every check passes, and then no order is Unknown; and
      nothing is changed unless one of the two happens or a snapshot was folded in. */
  lemma OutcomeIff(a: Answers, keys: L.Keys)
    ensures var out := Recovered(a, keys);
      && (out.status == ManualIntervention <==>
            && a.loaded.Some? && a.sessionOk && a.fetched.Err? && a.fetched.error.category !in {DataStale, Validation}
            && exists i :: 0 <= i < |a.loaded.value| && a.loaded.value[i].state == Unknown)
      && (out.status == ResumedSafe <==>
            && a.loaded.Some? && a.sessionOk && a.fetched.Ok? && a.safeStart
            && (forall i :: 0 <= i < |out.orders| ==> out.orders[i].state != Unknown)
            && !R.OutcomeOf(R.AfterSnapshot(a.loaded.value, keys, a.fetched.value, SNAPSHOT, -1).counts).blockNewOrders)
      && (out.escalated <==> out.status == ManualIntervention)
      && (out.status == ManualIntervention ==>
            |out.orders| == |a.loaded.value|
            && forall i :: 0 <= i < |out.orders| ==>
              var o := a.loaded.value[i];
              out.orders[i] == o.(state := if o.state == Unknown then ManualInterventionRequired else o.state))
      && (a.loaded.Some? && a.fetched.Err? && out.status == Blocked ==> out.orders == a.loaded.value)
  {
  }

  // ---------------------------------------------------------------- how many are resolved

  /** Every Unknown order was Unknown before. */
  ghost predicate NoNewUnknown(before: seq<Order>, after: seq<Order>) {
    && |after| == |before|
    && forall i :: 0 <= i < |after| && after[i].state == Unknown ==> before[i].state == Unknown
  }

  lemma {:induction false} RowsCreateNoUnknown(locals: seq<Order>, keys: L.Keys, rows: seq<Order>, newer: bool)
    requires forall r :: 0 <= r < |rows| ==> rows[r].state != Unknown
    ensures NoNewUnknown(locals, R.ApplyRows(R.Start(locals, keys), rows, SNAPSHOT, newer).locals)
    decreases |rows|
  {
    if rows != [] {
      var front, row := rows[..|rows| - 1], rows[|rows| - 1];
      RowsCreateNoUnknown(locals, keys, front, newer);
      var s := R.ApplyRows(R.Start(locals, keys), front, SNAPSHOT, newer);
      RowCreatesNoUnknown(s, row, newer);
    }
  }

  lemma RowCreatesNoUnknown(s: R.State, row: Order, newer: bool)
    requires row.state != Unknown
    ensures NoNewUnknown(s.locals, R.ApplyRow(s, row, SNAPSHOT, newer).locals)
  {
  }

  lemma {:induction false} FewerUnknown(before: seq<Order>, after: seq<Order>)
    requires NoNewUnknown(before, after)
    ensures UnknownIn(after) <= UnknownIn(before)
    decreases |before|
  {
    if before != [] {
      var n := |before| - 1;
      assert forall i :: 0 <= i < n ==> before[..n][i] == before[i] && after[..n][i] == after[i];
      FewerUnknown(before[..n], after[..n]);
    }
  }

  /** While no row is Unknown, the two counters add up to the Unknown orders there were. */
  lemma ResolvedAddsUp(orders: seq<Order>, keys: L.Keys, rows: seq<Order>, safeStart: bool)
    requires forall r :: 0 <= r < |rows| ==> rows[r].state != Unknown
    ensures var out := WithSnapshot(orders, keys, rows, safeStart);
      out.unknownsResolved + out.unknownsUnresolved == UnknownIn(orders)
  {
    RowsCreateNoUnknown(orders, keys, rows, true);
    FewerUnknown(orders, R.AfterSnapshot(orders, keys, rows, SNAPSHOT, -1).locals);
  }

  /** The row makes an order Unknown that was not, or the other way round. */
  predicate TurnsUnknown(keys: L.Keys, o: Order, row: Order) {
    && o.state != Unknown && row.state == Unknown
    && !L.IsTerminal(o.state) && R.Admits(o, row) && !R.IsOld(keys, o, SNAPSHOT)
  }

  predicate TurnsKnown(keys: L.Keys, o: Order, row: Order) {
    o.state == Unknown && row.state != Unknown && R.Admits(o, row) && !R.IsOld(keys, o, SNAPSHOT)
  }

  function Lost(orders: seq<Order>, keys: L.Keys, rows: seq<Order>): set<nat> {
    set i: nat | i < |orders| && exists r ::
      0 <= r < |rows| && R.SameOrder(orders[i], rows[r]) && TurnsUnknown(keys, orders[i], rows[r])
  }

  function Found(orders: seq<Order>, keys: L.Keys, rows: seq<Order>): set<nat> {
    set i: nat | i < |orders| && exists r ::
      0 <= r < |rows| && R.SameOrder(orders[i], rows[r]) && TurnsKnown(keys, orders[i], rows[r])
  }

  function UnknownSet(orders: seq<Order>): set<nat> {
    set i: nat | i < |orders| && orders[i].state == Unknown
  }

  lemma {:induction false} UnknownInIsSize(orders: seq<Order>)
    ensures UnknownIn(orders) == |UnknownSet(orders)|
    decreases |orders|
  {
    if orders == [] {
      assert UnknownSet(orders) == {};
    } else {
      var n := |orders| - 1;
      var front := orders[..n];
      UnknownInIsSize(front);
      assert UnknownSet(orders) == UnknownSet(front) + (if orders[n].state == Unknown then {n} else {});
    }
  }

  /** What a row makes of the state, as far as Unknown is concerned. */
  lemma RowTurns(keys: L.Keys, o: Order, row: Order)
    ensures R.Resolved(keys, o, row, SNAPSHOT).state == Unknown
      <==> TurnsUnknown(keys, o, row) || (o.state == Unknown && !TurnsKnown(keys, o, row))
  {
  }

  /** Unknown after the snapshot are those that were and were not found, and those that were lost. */
  lemma UnknownAfter(orders: seq<Order>, keys: L.Keys, rows: seq<Order>, s: R.State)
    requires R.OneToOne(orders, rows) && R.Folded(orders, keys, rows, SNAPSHOT, s)
    ensures UnknownSet(s.locals) == UnknownSet(orders) - Found(orders, keys, rows) + Lost(orders, keys, rows)
  {
    forall i: nat | i < |orders|
      ensures s.locals[i].state == Unknown
        <==> i in Lost(orders, keys, rows) || (orders[i].state == Unknown && i !in Found(orders, keys, rows))
    {
      OrderAfter(orders, keys, rows, s, i);
    }
  }

  lemma OrderAfter(orders: seq<Order>, keys: L.Keys, rows: seq<Order>, s: R.State, i: nat)
    requires R.OneToOne(orders, rows) && R.Folded(orders, keys, rows, SNAPSHOT, s) && i < |orders|
    ensures s.locals[i].state == Unknown
      <==> i in Lost(orders, keys, rows) || (orders[i].state == Unknown && i !in Found(orders, keys, rows))
  {
    if R.Present(orders[i], rows) {
      var r :| 0 <= r < |rows| && R.SameOrder(orders[i], rows[r]);
      RowTurns(keys, orders[i], rows[r]);
      assert s.locals[i] == R.Resolved(keys, orders[i], rows[r], SNAPSHOT);
    }
  }

  lemma FoundWereUnknown(orders: seq<Order>, keys: L.Keys, rows: seq<Order>)
    ensures Found(orders, keys, rows) <= UnknownSet(orders) && UnknownSet(orders) !! Lost(orders, keys, rows)
  {
  }

  lemma Exchanged(before: seq<Order>, after: seq<Order>, out: set<nat>, into: set<nat>)
    requires out <= UnknownSet(before) && UnknownSet(before) !! into
    requires UnknownSet(after) == UnknownSet(before) - out + into
    ensures UnknownIn(after) == UnknownIn(before) - |out| + |into|
  {
    UnknownInIsSize(before);
    UnknownInIsSize(after);
    var a := UnknownSet(before);
    assert a == (a - out) + out;
  }

  /** For any rows that correspond to the orders one to one: the two counters add up to the Unknown
      orders there were if and only if the broker does not make more orders Unknown than it resolves. */
  lemma ResolvedAddsUpIff(orders: seq<Order>, keys: L.Keys, rows: seq<Order>, safeStart: bool)
    requires R.OneToOne(orders, rows)
    ensures var out := WithSnapshot(orders, keys, rows, safeStart);
      && out.unknownsUnresolved == UnknownIn(orders) - |Found(orders, keys, rows)| + |Lost(orders, keys, rows)|
      && (out.unknownsResolved + out.unknownsUnresolved == UnknownIn(orders)
          <==> |Lost(orders, keys, rows)| <= |Found(orders, keys, rows)|)
  {
    var s := R.ApplyRows(R.Start(orders, keys), rows, SNAPSHOT, true);
    R.RowsFold(orders, keys, rows, SNAPSHOT);
    UnknownAfter(orders, keys, rows, s);
    FoundWereUnknown(orders, keys, rows);
    Exchanged(orders, s.locals, Found(orders, keys, rows), Lost(orders, keys, rows));
  }

  // ---------------------------------------------------------------- a second recovery

  /** Recovery always uses the same snapshot key. An engine that has recorded it, as after an
      earlier recovery or after a place, lets a second recovery resume over a row that it refuses:
      here a working order without the fill that is known locally. */
  lemma SecondRecoveryHidesRefusal(o: Order)
    requires o.state == PartiallyFilled && o.intent.clientRef != "" && o.brokerOrderId != ""
    ensures
      var first := Answers(Some([o]), true, Ok([o]), false);
      var keys := R.AfterSnapshot([o], map[], [o], SNAPSHOT, -1).keys;
      var row := WithoutFill(o);
      var second := Answers(Some([o]), true, Ok([row]), true);
      && Recovered(first, map[]).status == Blocked
      && R.OneToOne([o], [row])
      && Recovered(second, keys).status == ResumedSafe
      && Recovered(second, keys).orders == [o]
      && R.Silenced(keys, o, row, SNAPSHOT)
      && Recovered(second, map[]).status == Blocked
  {
    var row := WithoutFill(o);
    OneRow(o, o, map[]);
    var keys := R.AfterSnapshot([o], map[], [o], SNAPSHOT, -1).keys;
    RepeatedRow(o, map[]);
    assert keys == map[R.Key(o) := SNAPSHOT];
    RefusedRow(o, row, keys);
    RefusedRow(o, row, map[]);
    assert R.SameOrder(o, [row][0]);
  }

  function WithoutFill(o: Order): Order {
    o.(state := Acknowledged, filledQty := 0)
  }

  /** A row that says what is known only records the key. */
  lemma RepeatedRow(o: Order, keys: L.Keys)
    requires !L.IsTerminal(o.state) && !o.state.Sent? && R.SameOrder(o, o) && R.Key(o) !in keys
    ensures R.ApplyRow(R.Start([o], keys), o, SNAPSHOT, true).keys == keys[R.Key(o) := SNAPSHOT]
    ensures R.FindMatch([o], o) == 0
  {
    OneRow(o, o, keys);
  }

  lemma RefusedRow(o: Order, row: Order, keys: L.Keys)
    requires R.SameOrder(o, row) && o.brokerOrderId != ""
    requires o.state == PartiallyFilled && row.state == Acknowledged
    requires R.Key(o) !in keys || keys[R.Key(o)] == SNAPSHOT
    ensures var s := R.AfterSnapshot([o], keys, [row], SNAPSHOT, -1);
      s.locals == [o] && s.counts.mismatches == if R.Key(o) in keys then 0 else 1
    ensures UnknownIn([o]) == 0
  {
    OneRow(o, row, keys);
    assert [o][..0] == [];
    assert R.Present(o, [row]) by {
      assert R.SameOrder(o, [row][0]);
    }
    R.RefusalIsCountedIff(keys, o, row, SNAPSHOT);
    assert [o][0 := o] == [o];
  }

  /** A snapshot of one row for one order. */
  lemma OneRow(o: Order, row: Order, keys: L.Keys)
    requires R.SameOrder(o, row)
    ensures R.ApplyRows(R.Start([o], keys), [row], SNAPSHOT, true)
         == R.ApplyRow(R.Start([o], keys), row, SNAPSHOT, true)
    ensures R.FindMatch([o], row) == 0
  {
    assert [row][..0] == [] && [o][..0] == [];
  }
}
