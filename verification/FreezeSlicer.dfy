/** Slicing an order above the exchange's freeze quantity (src/slicing/freeze_slicer.cpp). */
module FreezeSlicer {
  import opened Arithmetic
  import opened Options
  import opened Domain
  import C = ClientRef

  datatype SliceError =
    | ChildRef
    | BadLot
    | BadQuantity
    | NotLotAligned
    | BadFreeze
    | FreezeBelowLot

  /** What the slicer demands of an order and its instrument. */
  predicate Sliceable(parent: OrderIntent, inst: Instrument) {
    && '#' !in parent.clientRef
    && inst.lotSize > 0 && parent.quantity > 0 && parent.quantity % inst.lotSize == 0
    && inst.freezeQty >= inst.lotSize
  }

  function Total(children: seq<OrderIntent>): int {
    if children == [] then 0 else Total(children[..|children| - 1]) + children[|children| - 1].quantity
  }

  /** A quantity that may be sent as one order. */
  predicate Sendable(q: int, inst: Instrument)
    requires inst.lotSize > 0
  {
    inst.lotSize <= q <= inst.freezeQty && q % inst.lotSize == 0
  }

  /** The child is the parent with another quantity, under the parent's k-th child ref. */
  predicate IsChild(child: OrderIntent, parent: OrderIntent, k: int) {
    child == parent.(clientRef := C.ChildRef(parent.clientRef, k), quantity := child.quantity)
  }

  /** A slicing of the parent: sendable children in order that add up to it. */
  predicate IsSlicing(children: seq<OrderIntent>, parent: OrderIntent, inst: Instrument)
    requires inst.lotSize > 0
  {
    && Total(children) == parent.quantity
    && forall k :: 0 <= k < |children| ==> IsChild(children[k], parent, k + 1) && Sendable(children[k].quantity, inst)
  }

  /** The largest sendable quantity. */
  function Chunk(inst: Instrument): int
    requires inst.lotSize > 0
  {
    inst.freezeQty / inst.lotSize * inst.lotSize
  }

  /** What is to be sent for an order: the order itself if it is within the freeze quantity, and
      otherwise a slicing of it in which all children but the last are as large as can be. */
  ghost predicate SliceOf(children: seq<OrderIntent>, parent: OrderIntent, inst: Instrument) {
    && inst.lotSize > 0
    && if parent.quantity <= inst.freezeQty then children == [parent]
       else
         && IsSlicing(children, parent, inst)
         && (|children| - 1) * Chunk(inst) < parent.quantity <= |children| * Chunk(inst)
         && forall k :: 0 <= k < |children| - 1 ==> children[k].quantity == Chunk(inst)
  }

  method Slice(parent: OrderIntent, inst: Instrument) returns (r: Result<seq<OrderIntent>, SliceError>)
    ensures r.Ok? <==> Sliceable(parent, inst)
    ensures r.Ok? ==> SliceOf(r.value, parent, inst)
    ensures r.Err? ==> r.error == ErrorOf(parent, inst)
  {
    var qty, freeze, lot := parent.quantity, inst.freezeQty, inst.lotSize;
    if '#' in parent.clientRef {
      return Err(ChildRef);
    }
    if lot <= 0 {
      return Err(BadLot);
    }
    if qty <= 0 {
      return Err(BadQuantity);
    }
    if qty < lot || qty % lot != 0 {
      if qty < lot {
        Smaller(qty, lot);
      }
      return Err(NotLotAligned);
    }
    if freeze <= 0 {
      return Err(BadFreeze);
    }
    if freeze < lot {
      return Err(FreezeBelowLot);
    }
    if qty <= freeze {
      return Ok([parent]);
    }
    var chunk := freeze / lot * lot;
    ChunkIsSendable(inst);
    var full, rem := qty / chunk, qty % chunk;
    Division(qty, chunk, full, rem);
    var children := Cut(parent, chunk, full, rem);
    PartsAreSendable(inst, qty, full, rem);
    PartCount(qty, chunk, full, rem);
    return Ok(children);
  }

  /** Full chunks first, then the remainder. */
  method Cut(parent: OrderIntent, chunk: int, full: nat, rem: int) returns (children: seq<OrderIntent>)
    requires rem >= 0
    ensures |children| == full + if rem > 0 then 1 else 0
    ensures forall k :: 0 <= k < |children| ==>
      IsChild(children[k], parent, k + 1) && children[k].quantity == if k < full then chunk else rem
    ensures Total(children) == full * chunk + rem
  {
    children := [];
    var k := 1;
    var i := 0;
    while i < full
      invariant 0 <= i <= full && k == i + 1 && |children| == i
      invariant Total(children) == i * chunk
      invariant forall j :: 0 <= j < i ==> IsChild(children[j], parent, j + 1) && children[j].quantity == chunk
    {
      var child := parent.(quantity := chunk, clientRef := C.ChildRef(parent.clientRef, k));
      TotalSnoc(children, child);
      OneMore(i, chunk);
      children := children + [child];
      i := i + 1;
      k := k + 1;
    }
    if rem > 0 {
      var child := parent.(quantity := rem, clientRef := C.ChildRef(parent.clientRef, k));
      TotalSnoc(children, child);
      children := children + [child];
    }
  }

  lemma Division(qty: int, chunk: int, full: int, rem: int)
    requires 0 < chunk <= qty && full == qty / chunk && rem == qty % chunk
    ensures full >= 1 && 0 <= rem < chunk && qty == full * chunk + rem
  {
    assert qty == chunk * full + rem;
    if full <= 0 {
      Monotone(chunk, full, 0);
    }
  }

  /** The number of parts is the quotient, rounded up. */
  lemma PartCount(qty: int, chunk: int, full: int, rem: int)
    requires chunk > 0 && 0 <= rem < chunk && qty == full * chunk + rem
    ensures var n := full + if rem > 0 then 1 else 0; (n - 1) * chunk < qty <= n * chunk
  {
    OneMore(full - 1, chunk);
    OneMore(full, chunk);
  }

  lemma PartsAreSendable(inst: Instrument, qty: int, full: int, rem: int)
    requires inst.lotSize > 0 && inst.freezeQty >= inst.lotSize && qty % inst.lotSize == 0
    requires qty == full * Chunk(inst) + rem && 0 <= rem < Chunk(inst)
    ensures Sendable(Chunk(inst), inst) && (rem > 0 ==> Sendable(rem, inst))
  {
    ChunkIsSendable(inst);
    if rem > 0 {
      RemainderIsSendable(qty, inst, full, rem);
    }
  }

  /** The first check that fails. */
  function ErrorOf(parent: OrderIntent, inst: Instrument): SliceError {
    if '#' in parent.clientRef then ChildRef
    else if inst.lotSize <= 0 then BadLot
    else if parent.quantity <= 0 then BadQuantity
    else if parent.quantity % inst.lotSize != 0 then NotLotAligned
    else if inst.freezeQty <= 0 then BadFreeze
    else FreezeBelowLot
  }

  lemma TotalSnoc(children: seq<OrderIntent>, child: OrderIntent)
    ensures Total(children + [child]) == Total(children) + child.quantity
  {
    assert (children + [child])[..|children|] == children;
  }

  lemma Smaller(qty: int, lot: int)
    requires 0 < qty < lot
    ensures qty % lot == qty
  {
  }

  lemma ChunkIsSendable(inst: Instrument)
    requires inst.lotSize > 0 && inst.freezeQty >= inst.lotSize
    ensures Sendable(Chunk(inst), inst)
  {
    var lot, freeze := inst.lotSize, inst.freezeQty;
    var n := freeze / lot;
    assert freeze == lot * n + freeze % lot;
    if n < 1 {
      Monotone(lot, n, 0);
    }
    Monotone(lot, 1, n);
    MultipleOf(lot, n);
  }

  lemma RemainderIsMultiple(qty: int, lot: int, n: int, full: int, rem: int)
    requires lot > 0 && qty % lot == 0 && qty == full * (n * lot) + rem
    ensures rem == (qty / lot - full * n) * lot
  {
    var a := qty / lot;
    assert qty == lot * a;
    assert full * (n * lot) == full * n * lot;
  }

  lemma RemainderIsSendable(qty: int, inst: Instrument, full: int, rem: int)
    requires inst.lotSize > 0 && inst.freezeQty >= inst.lotSize && qty % inst.lotSize == 0
    requires qty == full * Chunk(inst) + rem && 0 < rem < Chunk(inst)
    ensures Sendable(rem, inst)
  {
    var lot := inst.lotSize;
    ChunkIsSendable(inst);
    var q := qty / lot - full * (inst.freezeQty / lot);
    RemainderIsMultiple(qty, lot, inst.freezeQty / lot, full, rem);
    MultipleOf(lot, q);
    if q < 1 {
      Monotone(lot, q, 0);
    }
    Monotone(lot, 1, q);
  }

  // ---------------------------------------------------------------- no split is shorter

  function Sum(qs: seq<int>): int {
    if qs == [] then 0 else Sum(qs[..|qs| - 1]) + qs[|qs| - 1]
  }

  /** No sendable quantity is above the chunk. */
  lemma ChunkIsLargest(q: int, inst: Instrument)
    requires inst.lotSize > 0 && Sendable(q, inst)
    ensures q <= Chunk(inst)
  {
    var lot, freeze := inst.lotSize, inst.freezeQty;
    var m, n := q / lot, freeze / lot;
    assert q == m * lot && freeze == lot * n + freeze % lot;
    if m > n {
      Monotone(lot, n + 1, m);
      OneMore(n, lot);
    }
    Monotone(lot, m, n);
  }

  lemma {:induction false} SumAtMost(qs: seq<int>, chunk: int)
    requires forall k :: 0 <= k < |qs| ==> qs[k] <= chunk
    ensures Sum(qs) <= |qs| * chunk
  {
    if qs != [] {
      SumAtMost(qs[..|qs| - 1], chunk);
      OneMore(|qs| - 1, chunk);
    }
  }

  /** Any other split of the order into sendable quantities has at least as many parts. */
  lemma SliceCountIsMinimal(count: nat, parent: OrderIntent, inst: Instrument, qs: seq<int>)
    requires inst.lotSize > 0 && inst.freezeQty >= inst.lotSize
    requires (count - 1) * Chunk(inst) < parent.quantity
    requires Sum(qs) == parent.quantity && forall k :: 0 <= k < |qs| ==> Sendable(qs[k], inst)
    ensures count <= |qs|
  {
    var chunk := Chunk(inst);
    ChunkIsSendable(inst);
    forall k | 0 <= k < |qs|
      ensures qs[k] <= chunk
    {
      ChunkIsLargest(qs[k], inst);
    }
    SumAtMost(qs, chunk);
    if |qs| <= count - 1 {
      Monotone(chunk, |qs|, count - 1);
    }
  }

  /** The children of a slicing have different refs, none of them the parent's. */
  lemma SliceRefsDistinct(children: seq<OrderIntent>, parent: OrderIntent, inst: Instrument)
    requires inst.lotSize > 0 && IsSlicing(children, parent, inst)
    ensures forall j, k :: 0 <= j < k < |children| ==> children[j].clientRef != children[k].clientRef
    ensures forall k :: 0 <= k < |children| ==>
      children[k].clientRef != parent.clientRef && C.ParentOf(children[k].clientRef) == parent.clientRef
  {
    forall j, k | 0 <= j < k < |children|
      ensures children[j].clientRef != children[k].clientRef
    {
      assert IsChild(children[j], parent, j + 1) && IsChild(children[k], parent, k + 1);
      if children[j].clientRef == children[k].clientRef {
        C.ChildRefsDistinct(parent.clientRef, j + 1, parent.clientRef, k + 1);
      }
    }
    forall k | 0 <= k < |children|
      ensures children[k].clientRef != parent.clientRef && C.ParentOf(children[k].clientRef) == parent.clientRef
    {
      assert IsChild(children[k], parent, k + 1);
      C.ParentOfChild(parent.clientRef, k + 1);
      assert |children[k].clientRef| > |parent.clientRef|;
    }
  }
}
