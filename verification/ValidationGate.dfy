/** The shape checks of the pre-trade gate, numbers 4 to 9 (src/risk/validation_gate.cpp), and what
    they say about the children of a sliced order. */
module ValidationGate {
  import opened Options
  import opened Domain
  import S = FreezeSlicer

  datatype Context = Context(
    intent: OrderIntent,
    instrument: Instrument,
    allowedExchanges: seq<string>,
    allowedProducts: seq<Product>,
    sliceMode: bool)

  datatype GateOutcome = Allow | AllowWithSlicing

  datatype Check = ExchangeCheck | ProductCheck | LotCheck | ShapeCheck | TickCheck | FreezeCheck

  predicate UsesLimitPrice(t: OrderType) {
    t.Limit? || t.StopLoss?
  }

  predicate UsesTriggerPrice(t: OrderType) {
    t.StopLoss? || t.StopLossMarket?
  }

  predicate TickViolation(price: int, tick: int) {
    price <= 0 || tick <= 0 || price % tick != 0
  }

  /** The checks in the order of the source; the first that fails decides. */
  function Validate(c: Context): Result<GateOutcome, Check> {
    var i, inst := c.intent, c.instrument;
    var qty, lot, freeze := i.quantity, inst.lotSize, inst.freezeQty;
    if inst.exchange == "" then Err(ExchangeCheck)
    else if c.allowedExchanges != [] && inst.exchange !in c.allowedExchanges then Err(ExchangeCheck)
    else if c.allowedProducts != [] && i.product !in c.allowedProducts then Err(ProductCheck)
    else if qty <= 0 || lot <= 0 || qty < lot || qty % lot != 0 then Err(LotCheck)
    else if UsesTriggerPrice(i.orderType) && i.trigger.None? then Err(ShapeCheck)
    else if !UsesTriggerPrice(i.orderType) && i.trigger.Some? then Err(ShapeCheck)
    else if i.orderType.StopLoss?
            && !(if i.side.Sell? then i.price <= i.trigger.value else i.price >= i.trigger.value) then Err(ShapeCheck)
    else if UsesLimitPrice(i.orderType) && TickViolation(i.price, inst.tickSize) then Err(TickCheck)
    else if UsesTriggerPrice(i.orderType) && TickViolation(i.trigger.value, inst.tickSize) then Err(TickCheck)
    else if freeze <= 0 then Err(FreezeCheck)
    else if qty > freeze then (if c.sliceMode then Ok(AllowWithSlicing) else Err(FreezeCheck))
    else Ok(Allow)
  }

  /** An order passed on to be sliced can be sliced exactly if one whole lot fits under the freeze
      quantity and it is not itself a child; and then every child passes the same checks to be
      placed as it is, whether slicing is enabled or not. */
  lemma SlicedChildrenPass(c: Context, children: seq<OrderIntent>, sliceMode: bool)
    requires Validate(c) == Ok(AllowWithSlicing)
    requires c.instrument.lotSize > 0 && S.IsSlicing(children, c.intent, c.instrument)
    ensures S.Sliceable(c.intent, c.instrument)
      <==> c.instrument.freezeQty >= c.instrument.lotSize && '#' !in c.intent.clientRef
    ensures forall k :: 0 <= k < |children| ==>
      Validate(c.(intent := children[k], sliceMode := sliceMode)) == Ok(Allow)
  {
    forall k | 0 <= k < |children|
      ensures Validate(c.(intent := children[k], sliceMode := sliceMode)) == Ok(Allow)
    {
      assert S.IsChild(children[k], c.intent, k + 1);
    }
  }

  /** An order that passes to be placed as it is comes back from the slicer as it is, unless its ref
      is a child's. */
  lemma AllowedIsNotSliced(c: Context)
    requires Validate(c) == Ok(Allow)
    ensures c.intent.quantity <= c.instrument.freezeQty
    ensures S.Sliceable(c.intent, c.instrument) <==> '#' !in c.intent.clientRef
  {
  }

  predicate OnTick(price: int, tick: int) {
    tick > 0 && price > 0 && price % tick == 0
  }

  /** The shape each order type must have: the prices it works at are on the tick, it carries a
      trigger if and only if it is armed by one, and the two prices of a stop-loss stand in the
      order in which it can fill. */
  predicate WellShaped(i: OrderIntent, tick: int) {
    match i.orderType
    case Market => i.trigger.None?
    case Limit => i.trigger.None? && OnTick(i.price, tick)
    case StopLossMarket => i.trigger.Some? && OnTick(i.trigger.value, tick)
    case StopLoss =>
      && i.trigger.Some? && OnTick(i.trigger.value, tick) && OnTick(i.price, tick)
      && (if i.side.Sell? then i.price <= i.trigger.value else i.price >= i.trigger.value)
  }

  /** What one check demands. */
  predicate Passes(c: Context, check: Check) {
    var i, inst := c.intent, c.instrument;
    match check
    case ExchangeCheck => inst.exchange != "" && (c.allowedExchanges == [] || inst.exchange in c.allowedExchanges)
    case ProductCheck => c.allowedProducts == [] || i.product in c.allowedProducts
    case LotCheck => inst.lotSize > 0 && i.quantity > 0 && i.quantity % inst.lotSize == 0
    case ShapeCheck =>
      && (i.trigger.Some? <==> i.orderType in {StopLoss, StopLossMarket})
      && (i.orderType == StopLoss && i.trigger.Some? ==>
            if i.side == Sell then i.price <= i.trigger.value else i.price >= i.trigger.value)
    case TickCheck =>
      && (i.orderType in {Limit, StopLoss} ==> OnTick(i.price, inst.tickSize))
      && (i.orderType in {StopLoss, StopLossMarket} && i.trigger.Some? ==> OnTick(i.trigger.value, inst.tickSize))
    case FreezeCheck => inst.freezeQty > 0 && (c.sliceMode || i.quantity <= inst.freezeQty)
  }

  function Rank(check: Check): nat {
    match check
    case ExchangeCheck => 4
    case ProductCheck => 5
    case LotCheck => 6
    case ShapeCheck => 7
    case TickCheck => 8
    case FreezeCheck => 9
  }

  /** An order is rejected by the first check, by number, that it does not pass. */
  lemma RejectedIff(c: Context, check: Check)
    ensures Validate(c) == Err(check) <==>
      !Passes(c, check) && forall earlier :: Rank(earlier) < Rank(check) ==> Passes(c, earlier)
  {
    var qty, lot := c.intent.quantity, c.instrument.lotSize;
    if 0 < qty < lot {
      S.Smaller(qty, lot);
    }
    assert (forall earlier :: Rank(earlier) < Rank(check) ==> Passes(c, earlier))
      <==> && (Rank(check) > 4 ==> Passes(c, ExchangeCheck))
           && (Rank(check) > 5 ==> Passes(c, ProductCheck))
           && (Rank(check) > 6 ==> Passes(c, LotCheck))
           && (Rank(check) > 7 ==> Passes(c, ShapeCheck))
           && (Rank(check) > 8 ==> Passes(c, TickCheck));
  }

  /** What the chain of early returns accepts, and when it asks for slicing. */
  lemma AcceptedIff(c: Context)
    ensures var i, inst := c.intent, c.instrument;
      && (Validate(c).Ok? <==>
            && inst.exchange != "" && (c.allowedExchanges == [] || inst.exchange in c.allowedExchanges)
            && (c.allowedProducts == [] || i.product in c.allowedProducts)
            && inst.lotSize > 0 && i.quantity > 0 && i.quantity % inst.lotSize == 0
            && WellShaped(i, inst.tickSize)
            && inst.freezeQty > 0 && (c.sliceMode || i.quantity <= inst.freezeQty))
      && (Validate(c) == Ok(Allow) ==> i.quantity <= inst.freezeQty)
      && (Validate(c) == Ok(AllowWithSlicing) ==> i.quantity > inst.freezeQty && c.sliceMode)
  {
    var qty, lot := c.intent.quantity, c.instrument.lotSize;
    if 0 < qty < lot {
      S.Smaller(qty, lot);
    }
  }
}
