/** Folding a broker snapshot into the local orders (src/reconcile/reconciler.cpp). */
module Reconciler {
  import opened Options
  import opened Domain
  import L = Lifecycle

  /** Same client ref, or else same broker id; empty fields never match. */
  predicate SameOrder(local: Order, row: Order) {
    || (local.intent.clientRef != "" && local.intent.clientRef == row.intent.clientRef)
    || (local.brokerOrderId != "" && local.brokerOrderId == row.brokerOrderId)
  }

  /** The key a local order's observations are recorded under. */
  function Key(local: Order): string {
    if local.intent.clientRef != "" then local.intent.clientRef else local.brokerOrderId
  }

  function RowView(local: Order, row: Order, snapshot: int): L.View {
    L.View(Key(local), row.brokerOrderId, row.state, row.filledQty, row.avgPrice, snapshot)
  }

  /** The first local order that is the row's, or the number of orders. */
  function FindMatch(locals: seq<Order>, row: Order): (i: nat)
    ensures i <= |locals|
    ensures i < |locals| ==> SameOrder(locals[i], row)
    ensures forall j :: 0 <= j < i ==> !SameOrder(locals[j], row)
  {
    if locals == [] then 0
    else
      var i := FindMatch(locals[..|locals| - 1], row);
      if i < |locals| - 1 then i
      else if SameOrder(locals[|locals| - 1], row) then |locals| - 1 else |locals|
  }

  /** Did the engine refuse broker truth, and does that hide a disagreement? A refused transition
      shows by the key not landing. */
  predicate Contradicts(keys: L.Keys, local: Order, row: Order, snapshot: int) {
    var v := RowView(local, row, snapshot);
    match L.ApplyView(keys, local, v)
    case (Applied, _, _) => false
    case (DroppedStale, _, _) => false
    case (DroppedTerminal, _, _) =>
      row.state != local.state || row.filledQty != local.filledQty || row.avgPrice != local.avgPrice
    case (NoChange, _, keys') => v.key !in keys' || keys'[v.key] != snapshot
  }

  /** A contradiction the snapshot is new enough, for this order, to be believed about. */
  predicate Escalates(keys: L.Keys, local: Order, row: Order, snapshot: int) {
    Contradicts(keys, local, row, snapshot) && !(Key(local) in keys && snapshot < keys[Key(local)])
  }

  datatype Counts = Counts(applied: nat, advanced: nat, droppedStale: nat, mismatches: nat)

  datatype State = State(locals: seq<Order>, keys: L.Keys, counts: Counts)

  function Start(locals: seq<Order>, keys: L.Keys): State {
    State(locals, keys, Counts(0, 0, 0, 0))
  }

  function OneIf(b: bool): nat {
    if b then 1 else 0
  }

  /** One broker row. */
  function ApplyRow(s: State, row: Order, snapshot: int, newer: bool): (s': State)
    ensures |s'.locals| == |s.locals|
  {
    var i := FindMatch(s.locals, row);
    if i == |s.locals| then
      s.(counts := s.counts.(mismatches := s.counts.mismatches + OneIf(newer)))
    else
      var local := s.locals[i];
      var (outcome, local', keys') := L.ApplyView(s.keys, local, RowView(local, row, snapshot));
      State(s.locals[i := local'], keys',
            Counts(s.counts.applied + 1,
                   s.counts.advanced + OneIf(outcome.Applied?),
                   s.counts.droppedStale + OneIf(outcome.DroppedStale?),
                   s.counts.mismatches + OneIf(newer && Escalates(s.keys, local, row, snapshot))))
  }

  function ApplyRows(s: State, rows: seq<Order>, snapshot: int, newer: bool): (s': State)
    ensures |s'.locals| == |s.locals|
    decreases |rows|
  {
    if rows == [] then s
    else ApplyRow(ApplyRows(s, rows[..|rows| - 1], snapshot, newer), rows[|rows| - 1], snapshot, newer)
  }

  predicate Present(local: Order, rows: seq<Order>) {
    exists r :: 0 <= r < |rows| && SameOrder(local, rows[r])
  }

  /** An acknowledged order that still works must be in the snapshot. */
  predicate IsVanished(local: Order, rows: seq<Order>) {
    !L.IsTerminal(local.state) && local.brokerOrderId != "" && !Present(local, rows)
  }

  function CountVanished(locals: seq<Order>, rows: seq<Order>): (n: nat)
    ensures n == 0 <==> forall i :: 0 <= i < |locals| ==> !IsVanished(locals[i], rows)
  {
    if locals == [] then 0
    else CountVanished(locals[..|locals| - 1], rows) + OneIf(IsVanished(locals[|locals| - 1], rows))
  }

  /** A whole snapshot; `mismatches` also counts what has vanished. */
  function AfterSnapshot(locals: seq<Order>, keys: L.Keys, rows: seq<Order>, snapshot: int, lastSnapshot: int): State {
    var newer := snapshot > lastSnapshot;
    var s := ApplyRows(Start(locals, keys), rows, snapshot, newer);
    if newer
    then s.(counts := s.counts.(mismatches := s.counts.mismatches + CountVanished(s.locals, rows)))
    else s
  }

  datatype Outcome = Outcome(applied: nat, advanced: nat, droppedStale: nat, mismatches: nat, blockNewOrders: bool)

  function OutcomeOf(c: Counts): Outcome {
    Outcome(c.applied, c.advanced, c.droppedStale, c.mismatches, c.mismatches > 0)
  }

  class ReconcileApplier {
    const engine: L.LifecycleEngine
    var lastSnapshotKey: int

    constructor (engine: L.LifecycleEngine)
      ensures this.engine == engine && lastSnapshotKey == -1
    {
      this.engine := engine;
      lastSnapshotKey := -1;
    }

    /** Feed every row to the engine, count what contradicts it, and then what is missing. */
    method Apply(rows: seq<Order>, snapshot: int, locals: array<Order>) returns (out: Outcome)
      modifies this, engine`lastKey, locals
      ensures
        var s := AfterSnapshot(old(locals[..]), old(engine.lastKey), rows, snapshot, old(lastSnapshotKey));
        locals[..] == s.locals && engine.lastKey == s.keys && out == OutcomeOf(s.counts)
      ensures lastSnapshotKey == if snapshot > old(lastSnapshotKey) then snapshot else old(lastSnapshotKey)
      ensures engine.childrenByParent == old(engine.childrenByParent)
    {
      out := Outcome(0, 0, 0, 0, false);
      var stale := snapshot <= lastSnapshotKey;
      if !stale {
        lastSnapshotKey := snapshot;
      }
      ghost var start := Start(locals[..], engine.lastKey);
      for r := 0 to |rows|
        invariant var s := ApplyRows(start, rows[..r], snapshot, !stale);
          locals[..] == s.locals && engine.lastKey == s.keys && out == OutcomeOf(s.counts)
        invariant lastSnapshotKey == if stale then old(lastSnapshotKey) else snapshot
        invariant engine.childrenByParent == old(engine.childrenByParent)
      {
        assert rows[..r + 1][..r] == rows[..r];
        out := ApplyOne(rows[r], snapshot, stale, locals, out, ApplyRows(start, rows[..r], snapshot, !stale));
      }
      assert rows[..|rows|] == rows;
      if !stale {
        var gone := MissingFrom(locals, rows);
        out := out.(mismatches := out.mismatches + gone, blockNewOrders := out.blockNewOrders || gone > 0);
      }
    }

    /** Did the engine refuse the row, and does the refusal hide a disagreement? */
    method RefusesTruth(applied: L.ApplyOutcome, believed: Order, row: Order, snapshot: int, ghost keys: L.Keys)
      returns (contradiction: bool)
      requires var r := L.ApplyView(keys, believed, RowView(believed, row, snapshot));
        applied == r.0 && engine.lastKey == r.2
      ensures contradiction == Contradicts(keys, believed, row, snapshot)
    {
      match applied {
        case DroppedTerminal =>
          contradiction := row.state != believed.state || row.filledQty != believed.filledQty
            || row.avgPrice != believed.avgPrice;
        case NoChange =>
          var key := Key(believed);
          contradiction := key !in engine.lastKey || engine.lastKey[key] != snapshot;
        case _ =>
          contradiction := false;
      }
    }

    /** One row: match it, let the engine decide, and see whether a refusal hides a disagreement. */
    method ApplyOne(row: Order, snapshot: int, stale: bool, locals: array<Order>, out: Outcome, ghost s: State)
      returns (out': Outcome)
      requires locals[..] == s.locals && engine.lastKey == s.keys && out == OutcomeOf(s.counts)
      modifies engine`lastKey, locals
      ensures var s' := ApplyRow(s, row, snapshot, !stale);
        locals[..] == s'.locals && engine.lastKey == s'.keys && out' == OutcomeOf(s'.counts)
    {
      var m := MatchIn(locals, row);
      if m < locals.Length {
        out' := ApplyMatched(m, row, snapshot, stale, locals, out, s);
      } else {
        out' := out;
        if !stale {
          out' := out'.(mismatches := out'.mismatches + 1, blockNewOrders := true);
        }
      }
    }

    method ApplyMatched(m: nat, row: Order, snapshot: int, stale: bool, locals: array<Order>, out: Outcome,
                        ghost s: State)
      returns (out': Outcome)
      requires locals[..] == s.locals && engine.lastKey == s.keys && out == OutcomeOf(s.counts)
      requires m == FindMatch(s.locals, row) && m < locals.Length
      modifies engine`lastKey, locals
      ensures var s' := ApplyRow(s, row, snapshot, !stale);
        locals[..] == s'.locals && engine.lastKey == s'.keys && out' == OutcomeOf(s'.counts)
    {
      var local := locals[m];
      var view := RowView(local, row, snapshot);
      var keyBefore := if view.key in engine.lastKey then Some(engine.lastKey[view.key]) else None;
      var applied, local' := engine.Apply(local, view);
      locals[m] := local';
      out' := out.(applied := out.applied + 1);
      if applied.Applied? {
        out' := out'.(advanced := out'.advanced + 1);
      } else if applied.DroppedStale? {
        out' := out'.(droppedStale := out'.droppedStale + 1);
      }
      var contradiction := RefusesTruth(applied, local, row, snapshot, s.keys);
      var viewIsOlder := keyBefore.Some? && snapshot < keyBefore.value;
      if contradiction && !stale && !viewIsOlder {
        out' := out'.(mismatches := out'.mismatches + 1, blockNewOrders := true);
      }
    }
  }

  method MatchIn(locals: array<Order>, row: Order) returns (m: nat)
    ensures m == FindMatch(locals[..], row)
  {
    m := 0;
    while m < locals.Length && !SameOrder(locals[m], row)
      invariant 0 <= m <= locals.Length
      invariant forall j :: 0 <= j < m ==> !SameOrder(locals[j], row)
    {
      m := m + 1;
    }
    assert forall j :: 0 <= j < m ==> !SameOrder(locals[..][j], row);
  }

  method MissingFrom(locals: array<Order>, rows: seq<Order>) returns (gone: nat)
    ensures gone == CountVanished(locals[..], rows)
  {
    gone := 0;
    for i := 0 to locals.Length
      invariant gone == CountVanished(locals[..i], rows)
    {
      assert locals[..i + 1][..i] == locals[..i];
      if L.IsTerminal(locals[i].state) || locals[i].brokerOrderId == "" {
        continue;
      }
      var present := false;
      for r := 0 to |rows|
        invariant present <==> exists k :: 0 <= k < r && SameOrder(locals[i], rows[k])
      {
        if SameOrder(locals[i], rows[r]) {
          present := true;
          break;
        }
      }
      if !present {
        gone := gone + 1;
      }
    }
    assert locals[..locals.Length] == locals[..];
  }

  // ---------------------------------------------------------------- one row, and what is missing

  /** What a row does that finds order `i`: it is taken over if the order is open, has not been seen in
      a newer snapshot and admits the row; it is counted against a new snapshot if it says something
      else of a finished order, or is not taken and the snapshot is newer than all that is recorded. */
  ghost predicate RowLands(s: State, i: nat, row: Order, snapshot: int, newer: bool, s': State)
    requires i < |s.locals|
  {
    var local := s.locals[i];
    var key := if local.intent.clientRef == "" then local.brokerOrderId else local.intent.clientRef;
    var behind, finished := key in s.keys && s.keys[key] > snapshot, local.state in {Filled, Rejected, Cancelled};
    var taken := !finished && !behind && L.TakenFrom(local.state, row.state, row.filledQty);
    var after := Order(local.intent, L.TakenAs(local.state, row.state, row.filledQty),
                       if row.brokerOrderId == "" then local.brokerOrderId else row.brokerOrderId,
                       row.filledQty, row.avgPrice);
    var other := (row.state, row.filledQty, row.avgPrice) != (local.state, local.filledQty, local.avgPrice);
    var refused := if finished then other else !taken && (key in s.keys ==> s.keys[key] != snapshot);
    && s'.locals == (if taken then s.locals[i := after] else s.locals)
    && s'.keys == (if taken then s.keys[key := snapshot] else s.keys)
    && s'.counts.applied == s.counts.applied + 1
    && s'.counts.advanced == s.counts.advanced + OneIf(taken && after != local)
    && s'.counts.droppedStale == s.counts.droppedStale + OneIf(!finished && behind)
    && s'.counts.mismatches == s.counts.mismatches + OneIf(newer && !behind && refused)
  }

  /** An order has a row's client ref or its broker id; neither counts if it is empty. */
  lemma SameOrderIff(local: Order, row: Order)
    ensures SameOrder(local, row) <==>
      || (local.intent.clientRef == row.intent.clientRef && row.intent.clientRef != "")
      || (local.brokerOrderId == row.brokerOrderId && row.brokerOrderId != "")
  {
  }

  /** A row lands on the first order that it is the row of; one that finds no order is counted against
      a new snapshot and does nothing else. */
  lemma RowSays(s: State, row: Order, snapshot: int, newer: bool, i: nat)
    requires i <= |s.locals| && (forall j :: 0 <= j < i ==> !SameOrder(s.locals[j], row))
    requires i < |s.locals| ==> SameOrder(s.locals[i], row)
    ensures var s' := ApplyRow(s, row, snapshot, newer);
      if i < |s.locals| then RowLands(s, i, row, snapshot, newer, s')
      else s' == State(s.locals, s.keys, s.counts.(mismatches := s.counts.mismatches + OneIf(newer)))
  {
    assert i == FindMatch(s.locals, row);
    if i < |s.locals| {
      L.ViewIsTakenIff(s.keys, s.locals[i], RowView(s.locals[i], row, snapshot));
    }
  }

  /** The orders at the broker that still work and that no row has. */
  ghost function Missing(locals: seq<Order>, rows: seq<Order>): set<nat> {
    set i: nat | i < |locals| && locals[i].state !in {Filled, Rejected, Cancelled} && locals[i].brokerOrderId != ""
      && forall r :: 0 <= r < |rows| ==> !SameOrder(locals[i], rows[r])
  }

  /** A snapshot that is not newer than the last counts nothing; one that is counts its rows' refusals
      and every order that is missing, and any count blocks. */
  lemma SnapshotSays(locals: seq<Order>, keys: L.Keys, rows: seq<Order>, snapshot: int, lastSnapshot: int)
    ensures var newer := snapshot > lastSnapshot;
      var s, s' := ApplyRows(Start(locals, keys), rows, snapshot, newer),
                   AfterSnapshot(locals, keys, rows, snapshot, lastSnapshot);
      && s' == s.(counts := s.counts.(mismatches := s'.counts.mismatches))
      && s'.counts.mismatches == s.counts.mismatches + (if newer then |Missing(s.locals, rows)| else 0)
      && (OutcomeOf(s'.counts).blockNewOrders <==> s'.counts.mismatches > 0)
  {
    VanishedAreMissing(ApplyRows(Start(locals, keys), rows, snapshot, snapshot > lastSnapshot).locals, rows);
  }

  lemma {:induction false} VanishedAreMissing(locals: seq<Order>, rows: seq<Order>)
    ensures CountVanished(locals, rows) == |Missing(locals, rows)|
  {
    if locals != [] {
      var n := |locals| - 1;
      VanishedAreMissing(locals[..n], rows);
      MissingSnoc(locals, rows);
    }
  }

  lemma MissingSnoc(locals: seq<Order>, rows: seq<Order>)
    requires locals != []
    ensures var n := |locals| - 1;
      Missing(locals, rows) == Missing(locals[..n], rows) + if IsVanished(locals[n], rows) then {n} else {}
  {
    var n := |locals| - 1;
    assert forall i: nat :: i < n ==> locals[..n][i] == locals[i];
  }

  // ---------------------------------------------------------------- when a refusal is counted

  /** The engine accepts what the row says about the order, or has nothing to change. */
  predicate Admits(local: Order, row: Order) {
    if L.IsTerminal(local.state) then
      row.state == local.state && row.filledQty == local.filledQty && row.avgPrice == local.avgPrice
    else
      L.IsValidTransition(local.state, L.CanonicalObserved(local.state, RowView(local, row, 0)))
  }

  /** The recorded key keeps a refusal of the snapshot from being counted: it is newer, or as new
      while the order lives. */
  predicate Hidden(keys: L.Keys, local: Order, snapshot: int) {
    && Key(local) in keys
    && (keys[Key(local)] > snapshot || (keys[Key(local)] == snapshot && !L.IsTerminal(local.state)))
  }

  /** A row the engine refuses is counted exactly if the snapshot is new for this order: strictly
      above the recorded key while the order lives, not below it once the order is terminal. */
  lemma RefusalIsCountedIff(keys: L.Keys, local: Order, row: Order, snapshot: int)
    ensures Escalates(keys, local, row, snapshot) <==> !Admits(local, row) && !Hidden(keys, local, snapshot)
  {
  }

  /** At an equal key a broker that reports a working order without the fill we have is not heard:
      the order stays where it was and nothing is counted. */
  lemma EqualKeyHidesRefusal(local: Order, row: Order, snapshot: int)
    requires local.state == PartiallyFilled && row.state == Acknowledged
    ensures var keys := map[Key(local) := snapshot];
      && !Admits(local, row)
      && !Escalates(keys, local, row, snapshot)
      && L.ApplyView(keys, local, RowView(local, row, snapshot)).1 == local
  {
  }

  // ---------------------------------------------------------------- no silent divergence

  /** Rows and local orders correspond one to one, and so do orders and keys. */
  ghost predicate OneToOne(locals: seq<Order>, rows: seq<Order>) {
    && (forall i, j, r | 0 <= i < |locals| && 0 <= j < |locals| && 0 <= r < |rows| ::
          SameOrder(locals[i], rows[r]) && SameOrder(locals[j], rows[r]) ==> i == j)
    && (forall i, r, t | 0 <= i < |locals| && 0 <= r < |rows| && 0 <= t < |rows| ::
          SameOrder(locals[i], rows[r]) && SameOrder(locals[i], rows[t]) ==> r == t)
    && (forall r, t | 0 <= r < |rows| && 0 <= t < |rows| ::
          rows[r].brokerOrderId != "" && rows[r].brokerOrderId == rows[t].brokerOrderId ==> r == t)
    && (forall i, j | 0 <= i < |locals| && 0 <= j < |locals| ::
          Key(locals[i]) != "" && Key(locals[i]) == Key(locals[j]) ==> i == j)
  }

  /** The snapshot is newer than everything recorded about these orders. */
  ghost predicate Above(keys: L.Keys, locals: seq<Order>, snapshot: int) {
    forall i :: 0 <= i < |locals| && Key(locals[i]) in keys ==> keys[Key(locals[i])] < snapshot
  }

  /** The engine has seen the order in a newer snapshot. */
  predicate IsOld(keys: L.Keys, local: Order, snapshot: int) {
    Key(local) in keys && snapshot < keys[Key(local)]
  }

  /** What a row makes of its order. */
  function Resolved(keys: L.Keys, local: Order, row: Order, snapshot: int): Order {
    if L.IsTerminal(local.state) || !Admits(local, row) || IsOld(keys, local, snapshot) then local
    else
      local.(state := L.CanonicalObserved(local.state, RowView(local, row, 0)),
             filledQty := row.filledQty, avgPrice := row.avgPrice,
             brokerOrderId := if row.brokerOrderId != "" then row.brokerOrderId else local.brokerOrderId)
  }

  /** Some local order is the row's, and the row is admitted or its refusal is not counted. */
  ghost predicate Passes(locals: seq<Order>, keys: L.Keys, row: Order, snapshot: int) {
    exists i :: 0 <= i < |locals| && SameOrder(locals[i], row)
      && (Admits(locals[i], row) || Hidden(keys, locals[i], snapshot))
  }

  lemma ApplyIsResolved(keys: L.Keys, local: Order, row: Order, snapshot: int)
    ensures L.ApplyView(keys, local, RowView(local, row, snapshot)).1 == Resolved(keys, local, row, snapshot)
    ensures forall k :: k != Key(local) ==>
      var keys' := L.ApplyView(keys, local, RowView(local, row, snapshot)).2;
      (k in keys' <==> k in keys) && (k in keys ==> keys'[k] == keys[k])
  {
  }

  /** Only the order's own key decides. */
  lemma OwnKeyDecides(keys: L.Keys, keys': L.Keys, local: Order, row: Order, snapshot: int)
    requires Key(local) in keys <==> Key(local) in keys'
    requires Key(local) in keys ==> keys[Key(local)] == keys'[Key(local)]
    ensures Resolved(keys, local, row, snapshot) == Resolved(keys', local, row, snapshot)
    ensures Hidden(keys, local, snapshot) == Hidden(keys', local, snapshot)
  {
  }

  /** A row that is not the order's own does not become so when the order adopts its own row. */
  lemma StillNotTheRow(keys: L.Keys, snapshot: int, local: Order, own: Order, other: Order)
    requires SameOrder(local, own) && !SameOrder(local, other)
    requires own.brokerOrderId != "" ==> own.brokerOrderId != other.brokerOrderId
    ensures !SameOrder(Resolved(keys, local, own, snapshot), other)
  {
  }

  /** The effect of the rows `rows`, stated without the order in which they were processed. */
  ghost predicate Folded(locals: seq<Order>, keys: L.Keys, rows: seq<Order>, snapshot: int, s: State) {
    && |s.locals| == |locals|
    && (forall i, r :: 0 <= i < |locals| && 0 <= r < |rows| && SameOrder(locals[i], rows[r]) ==>
          s.locals[i] == Resolved(keys, locals[i], rows[r], snapshot))
    && (forall i :: 0 <= i < |locals| && !Present(locals[i], rows) ==>
          && s.locals[i] == locals[i]
          && (Key(locals[i]) != "" ==>
                && (Key(locals[i]) in s.keys <==> Key(locals[i]) in keys)
                && (Key(locals[i]) in keys ==> s.keys[Key(locals[i])] == keys[Key(locals[i])])))
    && (s.counts.mismatches == 0 <==> forall r :: 0 <= r < |rows| ==> Passes(locals, keys, rows[r], snapshot))
  }

  lemma OneToOneFront(locals: seq<Order>, front: seq<Order>, row: Order)
    requires OneToOne(locals, front + [row])
    ensures OneToOne(locals, front)
  {
    assert forall r :: 0 <= r < |front| ==> (front + [row])[r] == front[r];
  }

  lemma {:induction false} RowsFold(locals: seq<Order>, keys: L.Keys, rows: seq<Order>, snapshot: int)
    requires OneToOne(locals, rows)
    ensures Folded(locals, keys, rows, snapshot, ApplyRows(Start(locals, keys), rows, snapshot, true))
    decreases |rows|
  {
    if rows != [] {
      var front, row := rows[..|rows| - 1], rows[|rows| - 1];
      assert front + [row] == rows;
      OneToOneFront(locals, front, row);
      RowsFold(locals, keys, front, snapshot);
      RowFolds(locals, keys, front, row, ApplyRows(Start(locals, keys), front, snapshot, true), snapshot);
    }
  }

  /** Before its own turn, a row finds its order as it was, and no other. */
  lemma MatchSurvives(locals: seq<Order>, keys: L.Keys, front: seq<Order>, row: Order, snapshot: int, s: State, i: nat)
    requires OneToOne(locals, front + [row]) && Folded(locals, keys, front, snapshot, s) && i < |locals|
    ensures SameOrder(s.locals[i], row) <==> SameOrder(locals[i], row)
    ensures SameOrder(locals[i], row) ==> !Present(locals[i], front)
  {
    var rows := front + [row];
    assert rows[|front|] == row;
    if Present(locals[i], front) {
      var r :| 0 <= r < |front| && SameOrder(locals[i], front[r]);
      assert rows[r] == front[r];
      StillNotTheRow(keys, snapshot, locals[i], front[r], row);
    }
  }

  /** All of the above at once: the row finds the order it finds in the original. */
  lemma MatchIsOriginal(locals: seq<Order>, keys: L.Keys, front: seq<Order>, row: Order, snapshot: int, s: State)
    requires OneToOne(locals, front + [row]) && Folded(locals, keys, front, snapshot, s)
    ensures var m := FindMatch(s.locals, row);
      && (forall i :: 0 <= i < |locals| ==> (SameOrder(locals[i], row) <==> i == m))
      && (m < |locals| ==> !Present(locals[m], front) && s.locals[m] == locals[m])
  {
    forall i | 0 <= i < |locals|
      ensures SameOrder(s.locals[i], row) <==> SameOrder(locals[i], row)
      ensures SameOrder(locals[i], row) ==> !Present(locals[i], front)
    {
      MatchSurvives(locals, keys, front, row, snapshot, s, i);
    }
    assert (front + [row])[|front|] == row;
  }

  lemma RowFolds(locals: seq<Order>, keys: L.Keys, front: seq<Order>, row: Order, s: State, snapshot: int)
    requires OneToOne(locals, front + [row])
    requires Folded(locals, keys, front, snapshot, s)
    ensures Folded(locals, keys, front + [row], snapshot, ApplyRow(s, row, snapshot, true))
  {
    MatchIsOriginal(locals, keys, front, row, snapshot, s);
    var m := FindMatch(s.locals, row);
    PresentSnoc(locals, front, row, m);
    PassesSnoc(locals, keys, front, row, snapshot, m);
    if m < |locals| {
      RefusalIsCountedIff(s.keys, locals[m], row, snapshot);
      OwnKeyDecides(keys, s.keys, locals[m], row, snapshot);
      MatchedRowFolds(locals, keys, front, row, s, snapshot, m);
    }
  }

  lemma MatchedRowFolds(locals: seq<Order>, keys: L.Keys, front: seq<Order>, row: Order, s: State, snapshot: int,
                        m: nat)
    requires OneToOne(locals, front + [row])
    requires Folded(locals, keys, front, snapshot, s) && m < |locals| && m == FindMatch(s.locals, row)
    requires forall i :: 0 <= i < |locals| ==> (SameOrder(locals[i], row) <==> i == m)
    requires s.locals[m] == locals[m] && !Present(locals[m], front)
    requires forall i :: 0 <= i < |locals| ==>
      (Present(locals[i], front + [row]) <==> Present(locals[i], front) || i == m)
    requires (forall r :: 0 <= r < |front + [row]| ==> Passes(locals, keys, (front + [row])[r], snapshot))
      <==> && !Escalates(s.keys, locals[m], row, snapshot)
           && (forall r :: 0 <= r < |front| ==> Passes(locals, keys, front[r], snapshot))
    requires Resolved(s.keys, locals[m], row, snapshot) == Resolved(keys, locals[m], row, snapshot)
    ensures Folded(locals, keys, front + [row], snapshot, ApplyRow(s, row, snapshot, true))
  {
    var rows := front + [row];
    assert rows[|front|] == row;
    assert forall r :: 0 <= r < |front| ==> rows[r] == front[r];
    ApplyIsResolved(s.keys, s.locals[m], row, snapshot);
  }

  lemma PresentSnoc(locals: seq<Order>, front: seq<Order>, row: Order, m: nat)
    requires forall i :: 0 <= i < |locals| ==> (SameOrder(locals[i], row) <==> i == m)
    ensures var rows := front + [row];
      && rows[|front|] == row && (forall r :: 0 <= r < |front| ==> rows[r] == front[r])
      && forall i :: 0 <= i < |locals| ==> (Present(locals[i], rows) <==> Present(locals[i], front) || i == m)
  {
    var rows := front + [row];
    assert rows[|front|] == row;
    assert forall r :: 0 <= r < |front| ==> rows[r] == front[r];
  }

  lemma PassesSnoc(locals: seq<Order>, keys: L.Keys, front: seq<Order>, row: Order, snapshot: int, m: nat)
    requires forall i :: 0 <= i < |locals| ==> (SameOrder(locals[i], row) <==> i == m)
    ensures Passes(locals, keys, row, snapshot)
      <==> m < |locals| && (Admits(locals[m], row) || Hidden(keys, locals[m], snapshot))
    ensures var rows := front + [row];
      (forall r :: 0 <= r < |rows| ==> Passes(locals, keys, rows[r], snapshot))
      <==> && Passes(locals, keys, row, snapshot)
           && (forall r :: 0 <= r < |front| ==> Passes(locals, keys, front[r], snapshot))
  {
    var rows := front + [row];
    assert rows[|front|] == row;
    assert forall r :: 0 <= r < |front| ==> rows[r] == front[r];
  }

  /** The local order agrees with the row: same fill, same price, and the row's state, read as
      "still working" where the adapter's `Sent` means that. */
  predicate Agrees(before: Order, after: Order, row: Order) {
    && after.filledQty == row.filledQty && after.avgPrice == row.avgPrice
    && after.state == L.CanonicalObserved(before.state, RowView(before, row, 0))
  }

  /** For a new snapshot, with rows and orders one to one and whatever the engine has recorded: new
      orders are blocked exactly if some row has no order, or is refused by its order under a key
      that lets the refusal count, or if some acknowledged working order is in no row. */
  lemma BlockedIff(locals: seq<Order>, keys: L.Keys, rows: seq<Order>, snapshot: int, lastSnapshot: int)
    requires snapshot > lastSnapshot && OneToOne(locals, rows)
    ensures var s := AfterSnapshot(locals, keys, rows, snapshot, lastSnapshot);
      OutcomeOf(s.counts).blockNewOrders <==>
        || (exists r :: 0 <= r < |rows| && !Passes(locals, keys, rows[r], snapshot))
        || (exists i :: 0 <= i < |locals| && IsVanished(locals[i], rows))
  {
    RowsFold(locals, keys, rows, snapshot);
    VanishedIsOriginal(locals, keys, rows, snapshot, ApplyRows(Start(locals, keys), rows, snapshot, true));
  }

  /** What is missing from the snapshot was missing before its rows were applied. */
  lemma VanishedIsOriginal(locals: seq<Order>, keys: L.Keys, rows: seq<Order>, snapshot: int, s: State)
    requires Folded(locals, keys, rows, snapshot, s)
    ensures forall i :: 0 <= i < |locals| ==> (IsVanished(s.locals[i], rows) <==> IsVanished(locals[i], rows))
  {
    forall i | 0 <= i < |locals| && Present(locals[i], rows)
      ensures Present(s.locals[i], rows)
    {
      var r :| 0 <= r < |rows| && SameOrder(locals[i], rows[r]);
      StillTheRow(keys, snapshot, locals[i], rows[r]);
    }
  }

  lemma StillTheRow(keys: L.Keys, snapshot: int, local: Order, own: Order)
    requires SameOrder(local, own)
    ensures SameOrder(Resolved(keys, local, own, snapshot), own)
  {
  }

  /** A disagreement the engine leaves standing and nobody counts: the order does not agree with its
      row, and the recorded key is newer than the snapshot, or as new and the row is refused. */
  predicate Silenced(keys: L.Keys, local: Order, row: Order, snapshot: int) {
    && !Agrees(local, local, row)
    && Key(local) in keys
    && (|| snapshot < keys[Key(local)]
        || (snapshot == keys[Key(local)] && !L.IsTerminal(local.state) && !Admits(local, row)))
  }

  ghost predicate SilencesOne(locals: seq<Order>, keys: L.Keys, rows: seq<Order>, snapshot: int) {
    exists i, r :: 0 <= i < |locals| && 0 <= r < |rows| && SameOrder(locals[i], rows[r])
      && Silenced(keys, locals[i], rows[r], snapshot)
  }

  /** After the snapshot the row has a local order that agrees with it. */
  ghost predicate AgreesWithOne(locals: seq<Order>, after: seq<Order>, row: Order)
    requires |after| == |locals|
  {
    exists i :: 0 <= i < |locals| && SameOrder(locals[i], row) && Agrees(locals[i], after[i], row)
  }

  ghost predicate AllAgree(locals: seq<Order>, after: seq<Order>, rows: seq<Order>)
    requires |after| == |locals|
  {
    forall r :: 0 <= r < |rows| ==> AgreesWithOne(locals, after, rows[r])
  }

  /** An order agrees with its row afterwards exactly if the row was admitted and not dropped as
      old, or they agreed before. */
  lemma AgreesAfterIff(keys: L.Keys, local: Order, row: Order, snapshot: int)
    ensures Agrees(local, Resolved(keys, local, row, snapshot), row)
      <==> || (Admits(local, row) && (L.IsTerminal(local.state) || !IsOld(keys, local, snapshot)))
           || Agrees(local, local, row)
  {
  }

  /** Of a row that passes. */
  lemma PassedAgreesIff(keys: L.Keys, local: Order, row: Order, snapshot: int)
    requires Admits(local, row) || Hidden(keys, local, snapshot)
    ensures Agrees(local, Resolved(keys, local, row, snapshot), row) <==> !Silenced(keys, local, row, snapshot)
  {
    AgreesAfterIff(keys, local, row, snapshot);
  }

  /** Exactly when a disagreement is silent: if new orders are not blocked by a new snapshot, then
      every row has a local order that agrees with it if and only if no recorded key silences a
      row. Every acknowledged working order is in the snapshot in any case. */
  lemma DivergenceIsSilentIff(locals: seq<Order>, keys: L.Keys, rows: seq<Order>, snapshot: int, lastSnapshot: int)
    requires snapshot > lastSnapshot && OneToOne(locals, rows)
    requires !OutcomeOf(AfterSnapshot(locals, keys, rows, snapshot, lastSnapshot).counts).blockNewOrders
    ensures var after := AfterSnapshot(locals, keys, rows, snapshot, lastSnapshot).locals;
      && |after| == |locals|
      && (AllAgree(locals, after, rows) <==> !SilencesOne(locals, keys, rows, snapshot))
      && (forall i :: 0 <= i < |after| && !L.IsTerminal(after[i].state) && after[i].brokerOrderId != "" ==>
            Present(after[i], rows))
  {
    RowsFold(locals, keys, rows, snapshot);
    BlockedIff(locals, keys, rows, snapshot, lastSnapshot);
    var s := AfterSnapshot(locals, keys, rows, snapshot, lastSnapshot);
    RowsAgreeIff(locals, keys, rows, snapshot, s.locals);
    forall i | 0 <= i < |s.locals| && !L.IsTerminal(s.locals[i].state) && s.locals[i].brokerOrderId != ""
      ensures Present(s.locals[i], rows)
    {
      assert !IsVanished(s.locals[i], rows);
    }
  }

  lemma RowsAgreeIff(locals: seq<Order>, keys: L.Keys, rows: seq<Order>, snapshot: int, after: seq<Order>)
    requires |after| == |locals| && OneToOne(locals, rows)
    requires forall r :: 0 <= r < |rows| ==> Passes(locals, keys, rows[r], snapshot)
    requires forall i, r :: 0 <= i < |locals| && 0 <= r < |rows| && SameOrder(locals[i], rows[r]) ==>
      after[i] == Resolved(keys, locals[i], rows[r], snapshot)
    ensures AllAgree(locals, after, rows) <==> !SilencesOne(locals, keys, rows, snapshot)
  {
    forall i, r | 0 <= i < |locals| && 0 <= r < |rows| && SameOrder(locals[i], rows[r])
      ensures Agrees(locals[i], after[i], rows[r]) <==> !Silenced(keys, locals[i], rows[r], snapshot)
    {
      assert Passes(locals, keys, rows[r], snapshot);
      PassedAgreesIff(keys, locals[i], rows[r], snapshot);
    }
    if !SilencesOne(locals, keys, rows, snapshot) {
      forall r | 0 <= r < |rows|
        ensures AgreesWithOne(locals, after, rows[r])
      {
        assert Passes(locals, keys, rows[r], snapshot);
      }
    }
  }

  /** No disagreement is silent: if the snapshot is also newer than everything recorded about these
      orders and new orders are not blocked, every broker row has a local order that agrees with it,
      and every acknowledged local order that is not terminal is in the snapshot. */
  lemma NoSilentDivergence(locals: seq<Order>, keys: L.Keys, rows: seq<Order>, snapshot: int, lastSnapshot: int)
    requires snapshot > lastSnapshot
    requires OneToOne(locals, rows) && Above(keys, locals, snapshot)
    requires !OutcomeOf(AfterSnapshot(locals, keys, rows, snapshot, lastSnapshot).counts).blockNewOrders
    ensures var after := AfterSnapshot(locals, keys, rows, snapshot, lastSnapshot).locals;
      && |after| == |locals| && AllAgree(locals, after, rows)
      && (forall i :: 0 <= i < |after| && !L.IsTerminal(after[i].state) && after[i].brokerOrderId != "" ==>
            Present(after[i], rows))
  {
    DivergenceIsSilentIff(locals, keys, rows, snapshot, lastSnapshot);
  }

  // ---------------------------------------------------------------- for any snapshot at all

  /** What no row and no snapshot can do to the orders and the keys. */
  ghost predicate Keeps(locals: seq<Order>, keys: L.Keys, s: State) {
    && |s.locals| == |locals|
    && (forall i :: 0 <= i < |locals| ==>
          && s.locals[i].intent == locals[i].intent
          && (L.IsTerminal(locals[i].state) ==> s.locals[i] == locals[i]))
    && (forall k :: k in keys ==> k in s.keys && s.keys[k] >= keys[k])
  }

  lemma RowKeeps(locals: seq<Order>, keys: L.Keys, s: State, row: Order, snapshot: int, newer: bool)
    requires Keeps(locals, keys, s)
    ensures Keeps(locals, keys, ApplyRow(s, row, snapshot, newer))
    ensures !newer ==> ApplyRow(s, row, snapshot, newer).counts.mismatches == s.counts.mismatches
  {
  }

  lemma {:induction false} RowsKeep(locals: seq<Order>, keys: L.Keys, rows: seq<Order>, snapshot: int, newer: bool)
    ensures Keeps(locals, keys, ApplyRows(Start(locals, keys), rows, snapshot, newer))
    ensures !newer ==> ApplyRows(Start(locals, keys), rows, snapshot, newer).counts.mismatches == 0
    decreases |rows|
  {
    if rows != [] {
      RowsKeep(locals, keys, rows[..|rows| - 1], snapshot, newer);
      var s := ApplyRows(Start(locals, keys), rows[..|rows| - 1], snapshot, newer);
      RowKeeps(locals, keys, s, rows[|rows| - 1], snapshot, newer);
    }
  }

  /** Whatever the snapshot and however its rows match: a terminal local order is not changed, no
      recorded key goes down, no order changes its intent, and a stale snapshot never blocks. */
  lemma TerminalsAreKept(locals: seq<Order>, keys: L.Keys, rows: seq<Order>, snapshot: int, lastSnapshot: int)
    ensures var s := AfterSnapshot(locals, keys, rows, snapshot, lastSnapshot);
      && Keeps(locals, keys, s)
      && (snapshot <= lastSnapshot ==> !OutcomeOf(s.counts).blockNewOrders)
  {
    RowsKeep(locals, keys, rows, snapshot, snapshot > lastSnapshot);
  }
}
