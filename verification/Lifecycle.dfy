/** The order state machine (src/lifecycle/lifecycle.cpp). */
module Lifecycle {
  import opened Domain
  import R = ClientRef

  predicate IsTerminal(s: OrderState) {
    s.Filled? || s.Rejected? || s.Cancelled?
  }

  /** The transition table, without self-transitions that it does not list. */
  predicate TableAllows(from: OrderState, to: OrderState) {
    match from
    case Created => to in {Validated, Rejected, Unknown}
    case Validated => to in {PendingSend, Rejected, Unknown}
    case PendingSend => to in {Sent, Rejected, Unknown}
    case Sent => to in {Acknowledged, PartiallyFilled, Filled, Rejected, Cancelled, Unknown}
    case Acknowledged => to in {PartiallyFilled, Filled, Rejected, Cancelled, Unknown}
    case PartiallyFilled => to in {PartiallyFilled, Filled, Cancelled, Rejected, Unknown}
    case Filled => false
    case Rejected => false
    case Cancelled => false
    case Unknown =>
      to in {Acknowledged, PartiallyFilled, Filled, Rejected, Cancelled, Reconciled, PartiallyPlaced,
             ManualInterventionRequired}
    case Reconciled =>
      to in {Acknowledged, PartiallyFilled, Filled, Rejected, Cancelled, Unknown, ManualInterventionRequired}
    case PartiallyPlaced =>
      to in {PartiallyPlaced, PartiallyFilled, Filled, Cancelled, Rejected, Unknown, ManualInterventionRequired}
    case ManualInterventionRequired => to in {Reconciled, Cancelled}
  }

  predicate IsValidTransition(from: OrderState, to: OrderState) {
    from == to || TableAllows(from, to)
  }

  /** What the broker reports about one order. */
  datatype View = View(
    key: string,
    brokerOrderId: string,
    observed: OrderState,
    filledQty: int,
    avgPrice: int,
    orderingKey: int)

  predicate SentMeansStillWorking(from: OrderState) {
    from in {Sent, Acknowledged, PartiallyFilled, Unknown, Reconciled}
  }

  /** The observed state the table is asked about: an adapter's `Sent` for an order that has
      already reached the broker says that it is still working. */
  function CanonicalObserved(from: OrderState, v: View): OrderState {
    if !v.observed.Sent? || !SentMeansStillWorking(from) then v.observed
    else if v.filledQty > 0 then PartiallyFilled else Acknowledged
  }

  datatype ApplyOutcome = Applied | DroppedStale | DroppedTerminal | NoChange

  type Keys = map<string, int>

  /** One view applied to one order: what happened, the order and the recorded keys after it. */
  function ApplyView(keys: Keys, o: Order, v: View): (ApplyOutcome, Order, Keys) {
    if IsTerminal(o.state) then (DroppedTerminal, o, keys)
    else if v.key in keys && v.orderingKey < keys[v.key] then (DroppedStale, o, keys)
    else
      var observed := CanonicalObserved(o.state, v);
      if !IsValidTransition(o.state, observed) then (NoChange, o, keys)
      else
        var keys' := keys[v.key := v.orderingKey];
        if o.state == observed && v.filledQty == o.filledQty && v.avgPrice == o.avgPrice
           && (v.brokerOrderId == "" || v.brokerOrderId == o.brokerOrderId)
        then (NoChange, o, keys')
        else
          (Applied,
           o.(state := observed, filledQty := v.filledQty, avgPrice := v.avgPrice,
              brokerOrderId := if v.brokerOrderId != "" then v.brokerOrderId else o.brokerOrderId),
           keys')
  }

  /** May an open order in `from` take over what a view says? Listed by what the view says, `filled`
      being the quantity it reports. */
  predicate TakenFrom(from: OrderState, observed: OrderState, filled: int) {
    match observed
    case Created => from == Created
    case Validated => from in {Created, Validated}
    case PendingSend => from in {Validated, PendingSend}
    case Sent =>
      from in {PendingSend, Sent, Acknowledged, Unknown, Reconciled} || (from == PartiallyFilled && filled > 0)
    case Acknowledged => from in {Sent, Acknowledged, Unknown, Reconciled}
    case PartiallyFilled | Filled =>
      from in {Sent, Acknowledged, PartiallyFilled, Unknown, Reconciled, PartiallyPlaced}
    case Rejected | Unknown => from != ManualInterventionRequired
    case Cancelled => from !in {Created, Validated, PendingSend}
    case Reconciled => from in {Unknown, Reconciled, ManualInterventionRequired}
    case PartiallyPlaced => from in {Unknown, PartiallyPlaced}
    case ManualInterventionRequired => from in {Unknown, Reconciled, PartiallyPlaced, ManualInterventionRequired}
  }

  /** What an order becomes that takes over a view: what the view says, except that an order already
      at the broker is never set back to Sent. */
  function TakenAs(from: OrderState, observed: OrderState, filled: int): OrderState {
    if observed == Sent && from != PendingSend then if filled > 0 then PartiallyFilled else Acknowledged
    else observed
  }

  /** A view is taken over exactly if the order is open, no newer view is recorded under the view's key
      and the order's state admits it; then its fill, price and key are recorded, and its broker id if
      it has one. Otherwise nothing changes at all. */
  lemma ViewIsTakenIff(keys: Keys, o: Order, v: View)
    ensures var (outcome, o', keys') := ApplyView(keys, o, v);
      if o.state in {Filled, Rejected, Cancelled} then
        outcome == DroppedTerminal && o' == o && keys' == keys
      else if v.key in keys && keys[v.key] > v.orderingKey then
        outcome == DroppedStale && o' == o && keys' == keys
      else if !TakenFrom(o.state, v.observed, v.filledQty) then
        outcome == NoChange && o' == o && keys' == keys
      else
        && keys' == keys[v.key := v.orderingKey]
        && o' == Order(o.intent, TakenAs(o.state, v.observed, v.filledQty),
                       if v.brokerOrderId == "" then o.brokerOrderId else v.brokerOrderId, v.filledQty, v.avgPrice)
        && outcome == if o' == o then NoChange else Applied
  {
  }

  /** The state of a sliced parent is determined by which states its children are in. */
  function FoldOf(children: set<OrderState>): OrderState {
    if children == {} then Created
    else if Unknown in children then PartiallyPlaced
    else if Rejected in children then ManualInterventionRequired
    else if children == {Filled} then Filled
    else if children == {Cancelled} then Cancelled
    else if children <= {Filled, Cancelled, Rejected} then PartiallyFilled
    else PartiallyPlaced
  }

  /** Which parent states mean what about the children. */
  lemma FoldSays(children: set<OrderState>)
    ensures var s := FoldOf(children);
      && (s == Created <==> children == {})
      && (s == Filled <==> children == {Filled})
      && (s == Cancelled <==> children == {Cancelled})
      && (s == PartiallyFilled <==> children == {Filled, Cancelled})
      && (s == ManualInterventionRequired <==> Rejected in children && Unknown !in children)
      && (s == PartiallyPlaced <==>
            Unknown in children
            || (Rejected !in children && exists c :: c in children && c !in {Filled, Rejected, Cancelled}))
  {
    if s: OrderState :| s in children && s !in {Filled, Rejected, Cancelled} {
    } else if children != {} && Rejected !in children {
      assert children <= {Filled, Cancelled};
      assert Filled !in children ==> children == {Cancelled};
      assert Cancelled !in children ==> children == {Filled};
    }
  }

  function StatesOf(children: map<string, OrderState>): set<OrderState> {
    children.Values
  }

  /** The flag loop of the source: its result depends on the set of states alone, so the order in
      which a hash map yields the children cannot matter. */
  method FoldParentState(children: seq<OrderState>) returns (s: OrderState)
    ensures s == FoldOf(set c | c in children)
  {
    if |children| == 0 {
      assert (set c | c in children) == {};
      return Created;
    }
    var anyUnknown, anyRejected, allFilled, allCancelled, allTerminal := false, false, true, true, true;
    for i := 0 to |children|
      invariant anyUnknown <==> exists j :: 0 <= j < i && children[j] == Unknown
      invariant anyRejected <==> exists j :: 0 <= j < i && children[j] == Rejected
      invariant allFilled <==> forall j :: 0 <= j < i ==> children[j] == Filled
      invariant allCancelled <==> forall j :: 0 <= j < i ==> children[j] == Cancelled
      invariant allTerminal <==> forall j :: 0 <= j < i ==> IsTerminal(children[j])
    {
      var child := children[i];
      anyUnknown := anyUnknown || child == Unknown;
      anyRejected := anyRejected || child == Rejected;
      allFilled := allFilled && child == Filled;
      allCancelled := allCancelled && child == Cancelled;
      allTerminal := allTerminal && IsTerminal(child);
    }
    ghost var states := set c | c in children;
    assert children[0] in states;
    assert forall j :: 0 <= j < |children| ==> children[j] in states;
    assert allFilled <==> states == {Filled};
    assert allCancelled <==> states == {Cancelled};
    assert allTerminal <==> states <= {Filled, Cancelled, Rejected};
    if anyUnknown {
      return PartiallyPlaced;
    }
    if anyRejected {
      return ManualInterventionRequired;
    }
    if allFilled {
      return Filled;
    }
    if allCancelled {
      return Cancelled;
    }
    if allTerminal {
      return PartiallyFilled;
    }
    return PartiallyPlaced;
  }

  /** The bucket a child is filed under: the parent named by its own ref, if it names one. */
  function ParentKey(parentRef: string, childRef: string): string {
    if R.ParentOf(childRef) != "" then R.ParentOf(childRef) else parentRef
  }

  class LifecycleEngine {
    var lastKey: Keys
    var childrenByParent: map<string, map<string, OrderState>>

    constructor ()
      ensures lastKey == map[] && childrenByParent == map[]
    {
      lastKey := map[];
      childrenByParent := map[];
    }

    /** Apply a view to an order: terminal orders first, then the ordering key, then the table. */
    method Apply(o: Order, v: View) returns (outcome: ApplyOutcome, o': Order)
      modifies this`lastKey
      ensures (outcome, o', lastKey) == ApplyView(old(lastKey), o, v)
    {
      o' := o;
      if IsTerminal(o.state) {
        return DroppedTerminal, o';
      }
      if v.key in lastKey {
        if v.orderingKey < lastKey[v.key] {
          return DroppedStale, o';
        }
      }
      var observed := CanonicalObserved(o.state, v);
      if !IsValidTransition(o.state, observed) {
        return NoChange, o';
      }
      var stateChanges := o.state != observed;
      var fillAdvances := v.filledQty != o.filledQty || v.avgPrice != o.avgPrice
        || (v.brokerOrderId != "" && v.brokerOrderId != o.brokerOrderId);
      lastKey := lastKey[v.key := v.orderingKey];
      if !stateChanges && !fillAdvances {
        return NoChange, o';
      }
      o' := o'.(state := observed, filledQty := v.filledQty, avgPrice := v.avgPrice);
      if v.brokerOrderId != "" {
        o' := o'.(brokerOrderId := v.brokerOrderId);
      }
      return Applied, o';
    }

    /** File a child's state under its parent and refold the parent. */
    method ApplyChild(parentRef: string, childRef: string, state: OrderState) returns (folded: OrderState)
      modifies this`childrenByParent
      ensures var key := ParentKey(parentRef, childRef);
        && key in childrenByParent
        && childrenByParent[key]
           == (if key in old(childrenByParent) then old(childrenByParent)[key] else map[])[childRef := state]
        && childrenByParent.Keys == old(childrenByParent).Keys + {key}
        && (forall k :: k in old(childrenByParent) && k != key ==> childrenByParent[k] == old(childrenByParent)[k])
        && folded == FoldOf(StatesOf(childrenByParent[key]))
    {
      var key := ParentKey(parentRef, childRef);
      var children := if key in childrenByParent then childrenByParent[key] else map[];
      children := children[childRef := state];
      childrenByParent := childrenByParent[key := children];
      var states := ValuesOf(children);
      folded := FoldParentState(states);
    }
  }

  /** The values of a hash map, in some order. */
  method ValuesOf(children: map<string, OrderState>) returns (states: seq<OrderState>)
    ensures (set c | c in states) == StatesOf(children)
  {
    states := [];
    var left := children.Keys;
    while left != {}
      invariant left <= children.Keys
      invariant forall c :: c in states <==> exists k :: k in children && k !in left && children[k] == c
      decreases |left|
    {
      var k :| k in left;
      ghost var before, was := states, left;
      states := states + [children[k]];
      left := left - {k};
      assert forall c :: c in states <==> c in before || c == children[k];
      assert forall j :: j in children && j !in left <==> (j in children && j !in was) || j == k;
    }
  }

  // ---------------------------------------------------------------- runs of views

  /** Views applied one after another to one order. */
  function ApplyAll(keys: Keys, o: Order, vs: seq<View>): (Order, Keys)
    decreases |vs|
  {
    if vs == [] then (o, keys)
    else
      var (_, o', keys') := ApplyView(keys, o, vs[0]);
      ApplyAll(keys', o', vs[1..])
  }

  /** Over any sequence of views: a terminal order is never changed in any field, and no recorded
      ordering key ever goes down or disappears. */
  lemma {:induction false} ViewsAreAbsorbedInOrder(keys: Keys, o: Order, vs: seq<View>)
    ensures var (o', keys') := ApplyAll(keys, o, vs);
      && (IsTerminal(o.state) ==> o' == o && keys' == keys)
      && (forall k :: k in keys ==> k in keys' && keys'[k] >= keys[k])
      && o'.intent == o.intent
    decreases |vs|
  {
    if vs != [] {
      var (_, o1, keys1) := ApplyView(keys, o, vs[0]);
      ViewsAreAbsorbedInOrder(keys1, o1, vs[1..]);
    }
  }

  /** How far along the happy path a state is. */
  function Progress(s: OrderState): nat {
    match s
    case Created => 0
    case Validated => 1
    case PendingSend => 2
    case Sent => 3
    case Acknowledged => 4
    case PartiallyPlaced => 4
    case PartiallyFilled => 5
    case _ => 6
  }

  /** The states only an ambiguity or a human leads into. */
  predicate Exceptional(s: OrderState) {
    s in {Unknown, Reconciled, ManualInterventionRequired}
  }

  /** As long as no view is exceptional, an order that is not exceptional only moves forward,
      whatever the views are, stale and contradictory ones included. */
  lemma {:induction false} OnlyForward(keys: Keys, o: Order, vs: seq<View>)
    requires !Exceptional(o.state)
    requires forall v :: v in vs ==> !Exceptional(v.observed)
    ensures var o' := ApplyAll(keys, o, vs).0;
      !Exceptional(o'.state) && Progress(o.state) <= Progress(o'.state)
      && (Progress(o.state) == Progress(o'.state) ==> o.state == o'.state)
    decreases |vs|
  {
    if vs != [] {
      var (_, o1, keys1) := ApplyView(keys, o, vs[0]);
      assert !Exceptional(o1.state) && (o1.state == o.state || Progress(o.state) < Progress(o1.state));
      OnlyForward(keys1, o1, vs[1..]);
    }
  }
}
