/** Executing a basket of legs (execute_basket in src/options/basket.cpp). The two seams are
    parameters: what the broker answers when a leg is placed, and whether unwinding a leg works. */
module Basket {
  import opened Options
  import opened Domain
  import opened Sequences
  import opened G = BasketGraph

  datatype LegStatus = Executed | Failed | SkippedUnmetDependency | Unwound | AmbiguousMayBeLive

  datatype LegFailurePolicy = UnwindExecuted | LeaveAndAlert

  datatype BasketOutcome =
    | Complete
    | PartiallyExecutedUnwound
    | PartiallyExecutedLeft
    | Blocked
    | ReconcileRequired

  datatype Seams = Seams(place: Option<nat -> Result<string, Error>>, unwind: Option<nat -> bool>)

  /** One call of the unwind seam: the leg, and the order id it was called with. */
  datatype UnwindCall = UnwindCall(leg: nat, orderId: string)

  /** The result, and what was sent: the legs placed, and the unwinds, in order. */
  datatype BasketResult = BasketResult(
    outcome: BasketOutcome,
    status: seq<LegStatus>,
    placed: seq<nat>,
    unwinds: seq<UnwindCall>)

  /** What an answer to a placement says about the order's existence. */
  function Verdict(answer: Result<string, Error>): LegStatus {
    match answer
    case Ok(_) => Executed
    case Err(e) => if MayHaveReachedExchange(e) then AmbiguousMayBeLive else Failed
  }

  predicate Ready(g: Graph, status: seq<LegStatus>, i: nat)
    requires i < |g|
  {
    forall k :: 0 <= k < |g[i]| ==> g[i][k] < |status| && status[g[i][k]] == Executed
  }

  /** The leg has the status its answer gives it if it was ready, and was skipped if not. */
  predicate Settles(g: Graph, place: nat -> Result<string, Error>, status: seq<LegStatus>, i: nat)
    requires i < |g| && i < |status|
  {
    status[i] == if Ready(g, status, i) then Verdict(place(i)) else SkippedUnmetDependency
  }

  /** The statuses behind the placement phase, without reference to an order. */
  predicate Placement(g: Graph, place: nat -> Result<string, Error>, status: seq<LegStatus>) {
    |status| == |g| && forall i :: 0 <= i < |g| ==> Settles(g, place, status, i)
  }

  /** The part of a sequence that is in a set. */
  function Select(s: seq<nat>, keep: set<nat>): seq<nat> {
    if s == [] then []
    else (if s[0] in keep then [s[0]] else []) + Select(s[1..], keep)
  }

  function Reverse(s: seq<nat>): (r: seq<nat>)
    ensures |r| == |s|
  {
    if s == [] then [] else Reverse(s[1..]) + [s[0]]
  }

  function ReadySet(g: Graph, status: seq<LegStatus>): set<nat> {
    set i | 0 <= i < |g| && Ready(g, status, i)
  }

  function ExecutedSet(status: seq<LegStatus>): set<nat> {
    set i | 0 <= i < |status| && status[i] == Executed
  }

  function LegsOf(unwinds: seq<UnwindCall>): (s: seq<nat>)
    ensures |s| == |unwinds|
  {
    seq(|unwinds|, k requires 0 <= k < |unwinds| => unwinds[k].leg)
  }

  /** The outcome depends on the statuses behind the placement phase and the policy alone. */
  function Classify(status: seq<LegStatus>, policy: LegFailurePolicy): BasketOutcome {
    if AmbiguousMayBeLive in status then ReconcileRequired
    else if forall i :: 0 <= i < |status| ==> status[i] == Executed then Complete
    else if policy.UnwindExecuted? then PartiallyExecutedUnwound
    else PartiallyExecutedLeft
  }

  function AfterUnwind(status: seq<LegStatus>, unwind: nat -> bool): (s: seq<LegStatus>)
    ensures |s| == |status|
  {
    seq(|status|, i requires 0 <= i < |status| => if status[i] == Executed && unwind(i) then Unwound else status[i])
  }

  /** All executed legs were tried, newest first, each under its own order id. */
  ghost predicate UnwindsAll(order: seq<nat>, verdicts: seq<LegStatus>, place: nat -> Result<string, Error>,
                             unwinds: seq<UnwindCall>)
  {
    && LegsOf(unwinds) == Reverse(Select(order, ExecutedSet(verdicts)))
    && forall k :: 0 <= k < |unwinds| ==> place(unwinds[k].leg) == Ok(unwinds[k].orderId)
  }

  /** What a run of the executor does, given the order it found and the statuses behind its
      placement phase. */
  ghost predicate Runs(legs: seq<Leg>, policy: LegFailurePolicy, seams: Seams,
                       order: seq<nat>, verdicts: seq<LegStatus>, r: BasketResult)
  {
    if seams.place.None? || !Executable(legs) then
      r == BasketResult(Blocked, seq(|legs|, _ => SkippedUnmetDependency), [], [])
    else
      var g, place := GraphOf(legs), seams.place.value;
      && ExecutionOrder(g, order) && Placement(g, place, verdicts)
      && r.placed == Select(order, ReadySet(g, verdicts))
      && r.outcome == Classify(verdicts, policy)
      && if r.outcome == PartiallyExecutedUnwound && seams.unwind.Some?
         then r.status == AfterUnwind(verdicts, seams.unwind.value) && UnwindsAll(order, verdicts, place, r.unwinds)
         else r.status == verdicts && r.unwinds == []
  }

  method ExecuteBasket(legs: seq<Leg>, policy: LegFailurePolicy, seams: Seams)
    returns (r: BasketResult)
    ensures exists order, verdicts :: Runs(legs, policy, seams, order, verdicts, r)
  {
    var valid, order := TopologicalOrder(legs);
    if seams.place.None? || !valid {
      r := BasketResult(Blocked, seq(|legs|, _ => SkippedUnmetDependency), [], []);
      assert Runs(legs, policy, seams, order, [], r);
      return;
    }
    var place := seams.place.value;
    var status, orderIds, placed := PlaceAll(legs, order, place);
    ghost var verdicts := status[..];
    var outcome := ClassifyLegs(status[..], policy);
    var unwinds := [];
    if outcome == PartiallyExecutedUnwound && seams.unwind.Some? {
      unwinds := UnwindAll(GraphOf(legs), order, status, orderIds, place, seams.unwind.value);
    }
    r := BasketResult(outcome, status[..], placed, unwinds);
    assert Runs(legs, policy, seams, order, verdicts, r);
  }

  /** Place every leg whose prerequisites all executed, in the order given; skip the others. */
  method PlaceAll(legs: seq<Leg>, order: seq<nat>, place: nat -> Result<string, Error>)
    returns (status: array<LegStatus>, orderIds: array<string>, placed: seq<nat>)
    requires WellNamed(legs) && Closed(GraphOf(legs)) && ExecutionOrder(GraphOf(legs), order)
    ensures fresh(status) && fresh(orderIds) && status.Length == orderIds.Length == |legs|
    ensures Placement(GraphOf(legs), place, status[..])
    ensures placed == Select(order, ReadySet(GraphOf(legs), status[..]))
    ensures Unwound !in status[..]
    ensures forall i :: 0 <= i < |legs| && status[i] == Executed ==> place(i) == Ok(orderIds[i])
  {
    var _, ids := IndexNames(legs);
    ghost var g := GraphOf(legs);
    status := new LegStatus[|legs|](_ => SkippedUnmetDependency);
    orderIds := new string[|legs|](_ => "");
    placed := [];
    ghost var ready: set<nat> := {};
    for p := 0 to |order|
      invariant fresh(status) && fresh(orderIds) && status.Length == orderIds.Length == |legs|
      invariant PlacedUpTo(g, place, order, p, status[..], orderIds[..], placed, ready)
    {
      var i := order[p];
      var met := PrerequisitesMet(legs, ids, status, i);
      ghost var before, idsBefore := status[..], orderIds[..];
      if met {
        var ack := place(i);
        if ack.Err? {
          status[i] := if MayHaveReachedExchange(ack.error) then AmbiguousMayBeLive else Failed;
        } else {
          status[i] := Executed;
          orderIds[i] := ack.value;
        }
        assert status[..] == before[i := Verdict(ack)];
        assert orderIds[..] == if ack.Err? then idsBefore else idsBefore[i := ack.value];
        PlacedOne(g, place, order, p, before, idsBefore, placed, ready);
        placed := placed + [i];
        ready := ready + {i};
      } else {
        SkippedOne(g, place, order, p, before, idsBefore, placed, ready);
      }
    }
    PlacedEverything(g, place, order, status[..], orderIds[..], placed, ready);
  }

  /** The placement phase stands before `order[p]`; `ready` is what it has placed so far. */
  ghost predicate PlacedUpTo(g: Graph, place: nat -> Result<string, Error>, order: seq<nat>, p: nat,
                             status: seq<LegStatus>, orderIds: seq<string>, placed: seq<nat>, ready: set<nat>)
  {
    && |status| == |orderIds| == |g| && p <= |order|
    && (forall q :: 0 <= q < |order| ==> order[q] < |g|)
    && (forall q :: 0 <= q < p ==> Settles(g, place, status, order[q]))
    && (forall q :: 0 <= q < p ==> (order[q] in ready <==> Ready(g, status, order[q])))
    && (forall i :: 0 <= i < |g| && i !in order[..p] ==> status[i] == SkippedUnmetDependency)
    && (forall i :: i in ready ==> i in order[..p])
    && placed == Select(order[..p], ready)
    && (forall i :: 0 <= i < |g| && status[i] == Executed ==> place(i) == Ok(orderIds[i]))
  }

  lemma PlacedOne(g: Graph, place: nat -> Result<string, Error>, order: seq<nat>, p: nat,
                  status: seq<LegStatus>, orderIds: seq<string>, placed: seq<nat>, ready: set<nat>)
    requires PlacedUpTo(g, place, order, p, status, orderIds, placed, ready)
    requires ExecutionOrder(g, order) && Closed(g) && p < |order| && Ready(g, status, order[p])
    ensures var i := order[p];
      var ack := place(i);
      PlacedUpTo(g, place, order, p + 1, status[i := Verdict(ack)],
                 if ack.Err? then orderIds else orderIds[i := ack.value], placed + [i], ready + {i})
  {
    var i := order[p];
    FrontSnoc(order, p);
    SelectSnoc(order[..p], i, ready, ready + {i});
    SettledUpTo(g, place, order, p, status, status[i := Verdict(place(i))], ready);
  }

  lemma FrontSnoc(order: seq<nat>, p: nat)
    requires Distinct(order) && p < |order|
    ensures order[..p + 1] == order[..p] + [order[p]] && order[p] !in order[..p]
  {
  }

  /** The legs up to `order[p]` are settled once that one has its answer. */
  lemma SettledUpTo(g: Graph, place: nat -> Result<string, Error>, order: seq<nat>, p: nat,
                    status: seq<LegStatus>, after: seq<LegStatus>, ready: set<nat>)
    requires ExecutionOrder(g, order) && Closed(g) && p < |order| && |status| == |g| && Ready(g, status, order[p])
    requires after == status[order[p] := Verdict(place(order[p]))]
    requires forall q :: 0 <= q < p ==> Settles(g, place, status, order[q])
    requires forall q :: 0 <= q < p ==> (order[q] in ready <==> Ready(g, status, order[q]))
    ensures forall q :: 0 <= q <= p ==> Settles(g, place, after, order[q])
    ensures forall q :: 0 <= q <= p ==> (order[q] in ready + {order[p]} <==> Ready(g, after, order[q]))
  {
    AllUntouched(g, order, p, status, after);
    assert forall q :: 0 <= q < p ==> order[q] != order[p];
  }

  lemma AllUntouched(g: Graph, order: seq<nat>, p: nat, before: seq<LegStatus>, after: seq<LegStatus>)
    requires ExecutionOrder(g, order) && Closed(g) && p < |order| && |before| == |after| == |g|
    requires forall i :: 0 <= i < |g| && i != order[p] ==> after[i] == before[i]
    ensures forall q :: 0 <= q <= p ==> (Ready(g, after, order[q]) <==> Ready(g, before, order[q]))
  {
    forall q | 0 <= q <= p
      ensures Ready(g, after, order[q]) <==> Ready(g, before, order[q])
    {
      EarlierUntouched(g, order, p, q, before, after);
    }
  }

  lemma SkippedOne(g: Graph, place: nat -> Result<string, Error>, order: seq<nat>, p: nat,
                   status: seq<LegStatus>, orderIds: seq<string>, placed: seq<nat>, ready: set<nat>)
    requires PlacedUpTo(g, place, order, p, status, orderIds, placed, ready)
    requires ExecutionOrder(g, order) && p < |order| && !Ready(g, status, order[p])
    ensures PlacedUpTo(g, place, order, p + 1, status, orderIds, placed, ready)
  {
    var i := order[p];
    assert i !in order[..p];
    assert order[..p + 1] == order[..p] + [i];
    SelectSnoc(order[..p], i, ready, ready);
  }

  lemma PlacedEverything(g: Graph, place: nat -> Result<string, Error>, order: seq<nat>,
                         status: seq<LegStatus>, orderIds: seq<string>, placed: seq<nat>, ready: set<nat>)
    requires PlacedUpTo(g, place, order, |order|, status, orderIds, placed, ready) && ExecutionOrder(g, order)
    ensures Placement(g, place, status) && placed == Select(order, ReadySet(g, status))
    ensures Unwound !in status
  {
    assert order[..|order|] == order;
    forall i | 0 <= i < |g|
      ensures Settles(g, place, status, i) && (i in ready <==> Ready(g, status, i))
    {
      assert i in order;
    }
    assert ready == ReadySet(g, status);
  }

  /** Every prerequisite of the leg has executed. */
  method PrerequisitesMet(legs: seq<Leg>, ids: map<string, nat>, status: array<LegStatus>, i: nat) returns (met: bool)
    requires Indexes(legs, ids) && Closed(GraphOf(legs)) && i < |legs| && status.Length == |legs|
    ensures met == Ready(GraphOf(legs), status[..], i)
  {
    var g := GraphOf(legs);
    for k := 0 to |legs[i].dependsOn|
      invariant forall m :: 0 <= m < k ==> g[i][m] < |legs| && status[g[i][m]] == Executed
    {
      var dep := legs[i].dependsOn[k];
      assert g[i][k] == LegIndex(legs, dep);
      if status[ids[dep]] != Executed {
        return false;
      }
    }
    return true;
  }

  /** Changing the status of the leg at `p` changes nothing for what comes before it, or for itself. */
  lemma EarlierUntouched(g: Graph, order: seq<nat>, p: nat, q: nat, before: seq<LegStatus>, after: seq<LegStatus>)
    requires ExecutionOrder(g, order) && Closed(g) && q <= p < |order| && |before| == |after| == |g|
    requires forall i :: 0 <= i < |g| && i != order[p] ==> after[i] == before[i]
    ensures Ready(g, after, order[q]) <==> Ready(g, before, order[q])
  {
    forall k | 0 <= k < |g[order[q]]|
      ensures g[order[q]][k] != order[p]
    {
      var d := g[order[q]][k];
      assert Edge(g, order[q], d);
      assert d in order[..q];
    }
  }

  lemma SelectSnoc(s: seq<nat>, x: nat, keep: set<nat>, keep': set<nat>)
    requires keep' == keep || keep' == keep + {x}
    requires x !in s && (x in keep' <==> keep' != keep)
    ensures Select(s + [x], keep') == Select(s, keep) + if x in keep' then [x] else []
  {
    SelectAppend(s, x, keep');
    SelectAgrees(s, keep, keep');
  }

  lemma {:induction false} SelectAppend(s: seq<nat>, x: nat, keep: set<nat>)
    ensures Select(s + [x], keep) == Select(s, keep) + if x in keep then [x] else []
  {
    if s == [] {
      SelectCons(x, [], keep);
      assert [] + [x] == [x] + [];
    } else {
      var tail := s[1..];
      assert s == [s[0]] + tail && s + [x] == [s[0]] + (tail + [x]);
      SelectCons(s[0], tail, keep);
      SelectCons(s[0], tail + [x], keep);
      SelectAppend(tail, x, keep);
    }
  }

  lemma {:induction false} SelectAgrees(s: seq<nat>, keep: set<nat>, keep': set<nat>)
    requires forall k :: 0 <= k < |s| ==> (s[k] in keep <==> s[k] in keep')
    ensures Select(s, keep) == Select(s, keep')
  {
    if s != [] {
      SelectAgrees(s[1..], keep, keep');
    }
  }

  /** The scan over all statuses: ambiguity is kept apart from failure. */
  method ClassifyLegs(status: seq<LegStatus>, policy: LegFailurePolicy) returns (outcome: BasketOutcome)
    requires Unwound !in status
    ensures outcome == Classify(status, policy)
  {
    var anyAmbiguous, anyFailedOrSkipped := false, false;
    for i := 0 to |status|
      invariant anyAmbiguous <==> AmbiguousMayBeLive in status[..i]
      invariant !anyFailedOrSkipped && !anyAmbiguous ==> forall j :: 0 <= j < i ==> status[j] == Executed
      invariant anyFailedOrSkipped ==> exists j :: 0 <= j < i && status[j] != Executed
    {
      if status[i] == AmbiguousMayBeLive {
        anyAmbiguous := true;
      } else if status[i] == Failed || status[i] == SkippedUnmetDependency {
        anyFailedOrSkipped := true;
      } else {
        assert status[i] in status;
      }
    }
    assert status[..|status|] == status;
    if anyAmbiguous {
      outcome := ReconcileRequired;
    } else if !anyFailedOrSkipped {
      outcome := Complete;
    } else if policy.UnwindExecuted? {
      outcome := PartiallyExecutedUnwound;
    } else {
      outcome := PartiallyExecutedLeft;
    }
  }

  /** Unwind the executed legs, newest first; a failed unwind leaves its leg executed. */
  method UnwindAll(ghost g: Graph, order: seq<nat>, status: array<LegStatus>, orderIds: array<string>,
                   place: nat -> Result<string, Error>, unwind: nat -> bool)
    returns (unwinds: seq<UnwindCall>)
    requires ExecutionOrder(g, order) && status.Length == orderIds.Length == |g|
    requires forall i :: 0 <= i < |g| && status[i] == Executed ==> place(i) == Ok(orderIds[i])
    modifies status
    ensures status[..] == AfterUnwind(old(status[..]), unwind)
    ensures UnwindsAll(order, old(status[..]), place, unwinds)
  {
    ghost var verdicts := status[..];
    unwinds := [];
    var k := |order|;
    while k > 0
      invariant 0 <= k <= |order|
      invariant UnwoundDownTo(g, place, unwind, order, k, verdicts, status[..], unwinds)
    {
      k := k - 1;
      var i := order[k];
      ghost var before := status[..];
      UnwindStep(g, place, unwind, order, k, verdicts, before, unwinds, orderIds[i]);
      if status[i] == Executed {
        unwinds := unwinds + [UnwindCall(i, orderIds[i])];
        if unwind(i) {
          status[i] := Unwound;
        }
      }
      assert status[..] == before[i := AfterUnwind(verdicts, unwind)[i]];
    }
    UnwoundEverything(g, place, unwind, order, verdicts, status[..], unwinds);
  }

  /** The unwind loop has dealt with `order[k..]`. */
  ghost predicate UnwoundDownTo(g: Graph, place: nat -> Result<string, Error>, unwind: nat -> bool, order: seq<nat>,
                                k: nat, verdicts: seq<LegStatus>, status: seq<LegStatus>, unwinds: seq<UnwindCall>)
  {
    && k <= |order| && |status| == |verdicts| == |g|
    && (forall i :: 0 <= i < |g| ==>
          status[i] == if i in order[k..] then AfterUnwind(verdicts, unwind)[i] else verdicts[i])
    && LegsOf(unwinds) == Reverse(Select(order[k..], ExecutedSet(verdicts)))
    && (forall m :: 0 <= m < |unwinds| ==> place(unwinds[m].leg) == Ok(unwinds[m].orderId))
  }

  lemma UnwindStep(g: Graph, place: nat -> Result<string, Error>, unwind: nat -> bool, order: seq<nat>, k: nat,
                   verdicts: seq<LegStatus>, status: seq<LegStatus>, unwinds: seq<UnwindCall>, orderId: string)
    requires UnwoundDownTo(g, place, unwind, order, k + 1, verdicts, status, unwinds) && ExecutionOrder(g, order)
    requires verdicts[order[k]] == Executed ==> place(order[k]) == Ok(orderId)
    ensures var i := order[k];
      && status[i] == verdicts[i]
      && UnwoundDownTo(g, place, unwind, order, k, verdicts, status[i := AfterUnwind(verdicts, unwind)[i]],
                       if verdicts[i] == Executed then unwinds + [UnwindCall(i, orderId)] else unwinds)
  {
    var i := order[k];
    var rest := order[k + 1..];
    assert order[k..] == [i] + rest;
    assert i !in rest;
    SelectCons(i, rest, ExecutedSet(verdicts));
    LegsSnoc(unwinds, UnwindCall(i, orderId));
    assert forall x :: x in order[k..] <==> x == i || x in rest;
  }

  lemma LegsSnoc(unwinds: seq<UnwindCall>, c: UnwindCall)
    ensures LegsOf(unwinds + [c]) == LegsOf(unwinds) + [c.leg]
  {
  }

  lemma UnwoundEverything(g: Graph, place: nat -> Result<string, Error>, unwind: nat -> bool, order: seq<nat>,
                          verdicts: seq<LegStatus>, status: seq<LegStatus>, unwinds: seq<UnwindCall>)
    requires UnwoundDownTo(g, place, unwind, order, 0, verdicts, status, unwinds) && ExecutionOrder(g, order)
    ensures status == AfterUnwind(verdicts, unwind) && UnwindsAll(order, verdicts, place, unwinds)
  {
    assert order[0..] == order;
  }

  lemma SelectCons(x: nat, s: seq<nat>, keep: set<nat>)
    ensures Select([x] + s, keep) == (if x in keep then [x] else []) + Select(s, keep)
    ensures Reverse([x] + s) == Reverse(s) + [x]
    ensures Reverse(Select([x] + s, keep)) == Reverse(Select(s, keep)) + if x in keep then [x] else []
  {
    assert ([x] + s)[1..] == s;
    if x in keep {
      assert ([x] + Select(s, keep))[1..] == Select(s, keep);
    } else {
      assert [] + Select(s, keep) == Select(s, keep);
    }
  }

  // ---------------------------------------------------------------- selections of an order

  lemma {:induction false} SelectMembers(s: seq<nat>, keep: set<nat>)
    ensures forall x :: x in Select(s, keep) <==> x in s && x in keep
    ensures Distinct(s) ==> Distinct(Select(s, keep))
  {
    if s != [] {
      var tail := s[1..];
      SelectMembers(tail, keep);
      assert s == [s[0]] + tail;
      if Distinct(s) {
        assert Distinct(tail) && s[0] !in tail;
      }
    }
  }

  /** What comes before a member of the order and is selected comes before it in the selection. */
  lemma {:induction false} SelectKeepsOrder(s: seq<nat>, keep: set<nat>, p: nat, q: nat, r: nat)
    requires Distinct(s) && p < |Select(s, keep)| && q < r < |s|
    requires s[q] in keep && s[r] == Select(s, keep)[p]
    ensures s[q] in Select(s, keep)[..p]
  {
    var tail := s[1..];
    var rest := Select(tail, keep);
    DistinctTail(s);
    assert tail[r - 1] == s[r];
    if s[0] !in keep {
      assert Select(s, keep) == rest;
      SelectKeepsOrder(tail, keep, p, q - 1, r - 1);
    } else {
      assert Select(s, keep) == [s[0]] + rest;
      FrontOf(s[0], rest, p);
      if q > 0 {
        SelectKeepsOrder(tail, keep, p - 1, q - 1, r - 1);
      }
    }
  }

  lemma DistinctTail(s: seq<nat>)
    requires s != [] && Distinct(s)
    ensures Distinct(s[1..]) && forall k :: 0 < k < |s| ==> s[k] != s[0]
  {
  }

  lemma FrontOf(x: nat, rest: seq<nat>, p: nat)
    requires p <= |rest|
    ensures p > 0 ==> ([x] + rest)[..p] == [x] + rest[..p - 1]
  {
  }

  lemma {:induction false} ReverseAt(s: seq<nat>, k: nat)
    requires k < |s|
    ensures Reverse(s)[k] == s[|s| - 1 - k]
  {
    if |s| > 1 {
      ReverseAt(s[1..], if k < |s| - 1 then k else 0);
    }
  }

  // ---------------------------------------------------------------- placement

  /** The statuses behind the placement phase do not depend on the order that was found. */
  lemma {:induction false} PlacementIsUnique(g: Graph, place: nat -> Result<string, Error>, order: seq<nat>,
                                             a: seq<LegStatus>, b: seq<LegStatus>, p: nat)
    requires ExecutionOrder(g, order) && Closed(g) && Placement(g, place, a) && Placement(g, place, b) && p <= |order|
    ensures forall q :: 0 <= q < p ==> a[order[q]] == b[order[q]]
  {
    if p > 0 {
      PlacementIsUnique(g, place, order, a, b, p - 1);
      var i := order[p - 1];
      forall k | 0 <= k < |g[i]|
        ensures a[g[i][k]] == b[g[i][k]]
      {
        assert Edge(g, i, g[i][k]);
        assert g[i][k] in order[..p - 1];
      }
      assert Settles(g, place, a, i) && Settles(g, place, b, i);
    }
  }

  /** Hence any two runs with the same answers agree on every leg. */
  lemma RunsAgree(legs: seq<Leg>, policy: LegFailurePolicy, seams: Seams,
                  o1: seq<nat>, v1: seq<LegStatus>, r1: BasketResult,
                  o2: seq<nat>, v2: seq<LegStatus>, r2: BasketResult)
    requires Runs(legs, policy, seams, o1, v1, r1) && Runs(legs, policy, seams, o2, v2, r2)
    ensures r1.outcome == r2.outcome && r1.status == r2.status
  {
    if r1.outcome != Blocked {
      PlacementIsUnique(GraphOf(legs), seams.place.value, o1, v1, v2, |o1|);
      forall i | 0 <= i < |legs|
        ensures v1[i] == v2[i]
      {
        assert i in o1;
      }
      assert v1 == v2;
    }
  }

  /** No leg is placed twice, and a leg is placed exactly if every prerequisite has executed, each
      of them placed before it. */
  lemma PlacedOnceAndReady(legs: seq<Leg>, policy: LegFailurePolicy, seams: Seams,
                           order: seq<nat>, verdicts: seq<LegStatus>, r: BasketResult)
    requires Runs(legs, policy, seams, order, verdicts, r) && r.outcome != Blocked
    ensures |verdicts| == |legs| && PlacesReady(GraphOf(legs), verdicts, r.placed)
  {
    RunOrders(legs, policy, seams, order, verdicts, r);
    ReadyLegsSelected(GraphOf(legs), seams.place.value, order, verdicts);
  }

  /** No leg is placed twice, exactly the ready ones are, each behind all its prerequisites. */
  ghost predicate PlacesReady(g: Graph, verdicts: seq<LegStatus>, placed: seq<nat>)
    requires |verdicts| == |g|
  {
    && Distinct(placed)
    && (forall i :: 0 <= i < |g| ==> (i in placed <==> Ready(g, verdicts, i)))
    && forall p, j: nat :: 0 <= p < |placed| && Edge(g, placed[p], j) ==>
         verdicts[j] == Executed && j in placed[..p]
  }

  /** A run that is not blocked has an order and settled statuses. */
  lemma RunOrders(legs: seq<Leg>, policy: LegFailurePolicy, seams: Seams,
                  order: seq<nat>, verdicts: seq<LegStatus>, r: BasketResult)
    requires Runs(legs, policy, seams, order, verdicts, r) && r.outcome != Blocked
    ensures seams.place.Some? && Closed(GraphOf(legs)) && ExecutionOrder(GraphOf(legs), order)
    ensures Placement(GraphOf(legs), seams.place.value, verdicts) && |verdicts| == |legs|
    ensures r.placed == Select(order, ReadySet(GraphOf(legs), verdicts))
  {
  }

  lemma ReadyLegsSelected(g: Graph, place: nat -> Result<string, Error>, order: seq<nat>, verdicts: seq<LegStatus>)
    requires ExecutionOrder(g, order) && Placement(g, place, verdicts)
    ensures PlacesReady(g, verdicts, Select(order, ReadySet(g, verdicts)))
  {
    var ready := ReadySet(g, verdicts);
    var placed := Select(order, ready);
    SelectMembers(order, ready);
    forall i | 0 <= i < |g|
      ensures i in placed <==> Ready(g, verdicts, i)
    {
      assert i in order;
    }
    forall p, j: nat | 0 <= p < |placed| && Edge(g, placed[p], j)
      ensures verdicts[j] == Executed && j in placed[..p]
    {
      assert placed[p] in placed;
      ExecutedIsReady(g, place, verdicts, placed[p], j);
      SelectedPrerequisiteFirst(g, order, ready, p, j);
    }
  }

  /** If a selected leg depends on a selected leg, that one comes first in the selection. */
  lemma SelectedPrerequisiteFirst(g: Graph, order: seq<nat>, keep: set<nat>, p: nat, j: nat)
    requires ExecutionOrder(g, order) && p < |Select(order, keep)|
    requires Edge(g, Select(order, keep)[p], j) && j in keep
    ensures j in Select(order, keep)[..p]
  {
    SelectMembers(order, keep);
    var i := Select(order, keep)[p];
    assert i in order;
    var at :| 0 <= at < |order| && order[at] == i;
    assert j in order[..at];
    var q :| 0 <= q < at && order[q] == j;
    SelectKeepsOrder(order, keep, p, q, at);
  }

  /** A prerequisite of a ready leg has executed, so it was ready itself. */
  lemma ExecutedIsReady(g: Graph, place: nat -> Result<string, Error>, verdicts: seq<LegStatus>, i: nat, j: nat)
    requires Placement(g, place, verdicts) && Edge(g, i, j) && Ready(g, verdicts, i)
    ensures verdicts[j] == Executed && j in ReadySet(g, verdicts)
  {
    var k :| 0 <= k < |g[i]| && g[i][k] == j;
    assert Settles(g, place, verdicts, j);
  }

  /** Nothing is sent for a basket that cannot be executed; a basket is complete exactly if every
      leg executed; and if any leg may be live at the broker without an order id, nothing at all
      is unwound, whatever the policy. */
  lemma OutcomeSays(legs: seq<Leg>, policy: LegFailurePolicy, seams: Seams,
                    order: seq<nat>, verdicts: seq<LegStatus>, r: BasketResult)
    requires Runs(legs, policy, seams, order, verdicts, r)
    ensures r.outcome == Blocked <==> seams.place.None? || !Executable(legs)
    ensures r.outcome == Blocked ==> r.placed == [] && r.unwinds == []
    ensures r.outcome == ReconcileRequired <==> AmbiguousMayBeLive in r.status
    ensures r.outcome == ReconcileRequired ==> r.unwinds == []
    ensures r.outcome == Complete ==> (forall i :: 0 <= i < |r.status| ==> r.status[i] == Executed) && r.unwinds == []
    ensures r.outcome != Blocked && (forall i :: 0 <= i < |verdicts| ==> verdicts[i] == Executed) ==>
      r.outcome == Complete
    ensures policy.LeaveAndAlert? ==> r.unwinds == []
  {
    if r.outcome == PartiallyExecutedUnwound && seams.unwind.Some? {
      forall i | 0 <= i < |r.status|
        ensures r.status[i] != AmbiguousMayBeLive
      {
        assert verdicts[i] in verdicts;
      }
    } else if r.outcome == Blocked && seams.place.Some? && Executable(legs) {
      assert false;
    }
  }

  /** What the answer to a placement means. */
  ghost predicate Means(answer: Result<string, Error>, status: LegStatus) {
    match answer
    case Ok(_) => status == Executed
    case Err(Error(category, action)) =>
      if action == ReconcileFirst || category == Timeout || category == Network || category == UnknownError
      then status == AmbiguousMayBeLive else status == Failed
  }

  /** A placed leg executed if the broker took it, may be live if its error asks for reconciliation or is
      a timeout, a network failure or an unknown error, and failed otherwise; a leg not placed was
      skipped. One leg that may be live, and nothing else, makes the basket one to reconcile. */
  lemma StatusSays(legs: seq<Leg>, policy: LegFailurePolicy, seams: Seams,
                   order: seq<nat>, verdicts: seq<LegStatus>, r: BasketResult)
    requires Runs(legs, policy, seams, order, verdicts, r) && r.outcome != Blocked
    ensures seams.place.Some? && |verdicts| == |legs|
    ensures forall i :: 0 <= i < |legs| ==>
      if i in r.placed then Means(seams.place.value(i), verdicts[i]) else verdicts[i] == SkippedUnmetDependency
    ensures r.outcome == ReconcileRequired <==>
      exists i :: i in r.placed && Means(seams.place.value(i), AmbiguousMayBeLive)
    ensures r.outcome == Complete <==> forall i :: 0 <= i < |legs| ==> verdicts[i] == Executed
    ensures r.outcome == PartiallyExecutedUnwound ==> policy == UnwindExecuted
    ensures r.outcome == PartiallyExecutedLeft ==> policy == LeaveAndAlert
    ensures |r.status| == |legs| && forall i :: 0 <= i < |legs| ==>
      r.status[i] == if r.outcome == PartiallyExecutedUnwound && seams.unwind.Some? && verdicts[i] == Executed
                        && seams.unwind.value(i) then Unwound else verdicts[i]
  {
    PlacedOnceAndReady(legs, policy, seams, order, verdicts, r);
    RunOrders(legs, policy, seams, order, verdicts, r);
    var g, place := GraphOf(legs), seams.place.value;
    forall i | 0 <= i < |legs|
      ensures if i in r.placed then Means(place(i), verdicts[i]) else verdicts[i] == SkippedUnmetDependency
    {
      assert Settles(g, place, verdicts, i);
    }
    SelectMembers(order, ReadySet(g, verdicts));
    if AmbiguousMayBeLive in verdicts {
      var i :| 0 <= i < |legs| && verdicts[i] == AmbiguousMayBeLive;
      assert i in r.placed && Means(place(i), AmbiguousMayBeLive);
    }
  }

  // ---------------------------------------------------------------- unwinding

  /** The legs live at the broker after the first `k` unwinds. */
  function LiveAfter(verdicts: seq<LegStatus>, unwinds: seq<UnwindCall>, unwind: nat -> bool, k: nat): set<nat>
    requires k <= |unwinds|
  {
    set i | i in ExecutedSet(verdicts) && forall m :: 0 <= m < k && unwinds[m].leg == i ==> !unwind(i)
  }

  /** Every prerequisite of a live leg is live. */
  ghost predicate Covered(g: Graph, live: set<nat>) {
    forall i: nat, j: nat :: i in live && Edge(g, i, j) ==> j in live
  }

  /** The unwind of no executed leg fails while that of a leg it depends on works. */
  ghost predicate DependentsFollow(g: Graph, verdicts: seq<LegStatus>, unwind: nat -> bool)
    requires |verdicts| == |g|
  {
    forall i: nat, j: nat :: Edge(g, i, j) && verdicts[i] == Executed && unwind(j) ==> unwind(i)
  }

  /** The same for the dependents of the legs whose unwind is among the first `k`. */
  ghost predicate DependentsFollowed(g: Graph, verdicts: seq<LegStatus>, unwinds: seq<UnwindCall>,
                                     unwind: nat -> bool, k: nat)
    requires |verdicts| == |g| && k <= |unwinds|
  {
    forall m, i: nat :: 0 <= m < k && Edge(g, i, unwinds[m].leg) && verdicts[i] == Executed && unwind(unwinds[m].leg)
      ==> unwind(i)
  }

  /** Exactly when no live leg has lost a prerequisite after the first `k` unwinds: if of every leg
      unwound so far the executed dependents can be unwound too. */
  lemma UnwindIsSafeIff(legs: seq<Leg>, policy: LegFailurePolicy, seams: Seams,
                        order: seq<nat>, verdicts: seq<LegStatus>, r: BasketResult, k: nat)
    requires Runs(legs, policy, seams, order, verdicts, r)
    requires r.outcome == PartiallyExecutedUnwound && seams.unwind.Some? && k <= |r.unwinds|
    ensures var g, unwind := GraphOf(legs), seams.unwind.value;
      Covered(g, LiveAfter(verdicts, r.unwinds, unwind, k))
      <==> DependentsFollowed(g, verdicts, r.unwinds, unwind, k)
  {
    var g, unwind := GraphOf(legs), seams.unwind.value;
    var live := LiveAfter(verdicts, r.unwinds, unwind, k);
    if Covered(g, live) {
      forall m, i: nat
        | 0 <= m < k && Edge(g, i, r.unwinds[m].leg) && verdicts[i] == Executed && unwind(r.unwinds[m].leg)
        ensures unwind(i)
      {
        assert r.unwinds[m].leg !in live;
        assert i in ExecutedSet(verdicts);
      }
    } else {
      var i: nat, j: nat :| i in live && Edge(g, i, j) && j !in live;
      var m := LostPrerequisite(g, seams.place.value, order, verdicts, r.unwinds, unwind, k, i, j);
      assert unwind(r.unwinds[m].leg) && !unwind(i);
    }
  }

  /** A live leg that has lost a prerequisite is one whose unwind was tried and failed before. */
  lemma LostPrerequisite(g: Graph, place: nat -> Result<string, Error>, order: seq<nat>, verdicts: seq<LegStatus>,
                         unwinds: seq<UnwindCall>, unwind: nat -> bool, k: nat, i: nat, j: nat) returns (m: nat)
    requires ExecutionOrder(g, order) && Placement(g, place, verdicts) && UnwindsAll(order, verdicts, place, unwinds)
    requires k <= |unwinds| && Edge(g, i, j)
    requires i in LiveAfter(verdicts, unwinds, unwind, k) && j !in LiveAfter(verdicts, unwinds, unwind, k)
    ensures m < k && unwinds[m].leg == j && unwind(j) && !unwind(i)
  {
    assert Settles(g, place, verdicts, i);
    ExecutedIsReady(g, place, verdicts, i, j);
    m :| 0 <= m < k && unwinds[m].leg == j && unwind(j);
    DependentUnwoundFirst(g, order, ExecutedSet(verdicts), unwinds, i, j, m);
  }

  /** As long as no unwind has failed, no live leg has lost a prerequisite. */
  lemma UnwindIsSafeUntilFailure(legs: seq<Leg>, policy: LegFailurePolicy, seams: Seams,
                                 order: seq<nat>, verdicts: seq<LegStatus>, r: BasketResult, k: nat)
    requires Runs(legs, policy, seams, order, verdicts, r)
    requires r.outcome == PartiallyExecutedUnwound && seams.unwind.Some? && k <= |r.unwinds|
    requires forall m :: 0 <= m < k ==> seams.unwind.value(r.unwinds[m].leg)
    ensures Covered(GraphOf(legs), LiveAfter(verdicts, r.unwinds, seams.unwind.value, k))
  {
    var g, unwind := GraphOf(legs), seams.unwind.value;
    forall m, i: nat | 0 <= m < k && Edge(g, i, r.unwinds[m].leg) && verdicts[i] == Executed
      ensures unwind(i)
    {
      UnwoundWasExecuted(order, verdicts, seams.place.value, r.unwinds, m);
      DependentUnwoundFirst(g, order, ExecutedSet(verdicts), r.unwinds, i, r.unwinds[m].leg, m);
    }
    UnwindIsSafeIff(legs, policy, seams, order, verdicts, r, k);
  }

  lemma UnwoundWasExecuted(order: seq<nat>, verdicts: seq<LegStatus>, place: nat -> Result<string, Error>,
                           unwinds: seq<UnwindCall>, m: nat)
    requires UnwindsAll(order, verdicts, place, unwinds) && m < |unwinds|
    ensures unwinds[m].leg in ExecutedSet(verdicts)
  {
    var sel := Select(order, ExecutedSet(verdicts));
    SelectMembers(order, ExecutedSet(verdicts));
    ReverseAt(sel, m);
    assert LegsOf(unwinds)[m] == unwinds[m].leg && sel[|sel| - 1 - m] in sel;
  }

  /** Among unwound legs, one that depends on another is unwound before it. */
  lemma DependentUnwoundFirst(g: Graph, order: seq<nat>, executed: set<nat>, unwinds: seq<UnwindCall>,
                              i: nat, j: nat, m: nat)
    requires ExecutionOrder(g, order) && LegsOf(unwinds) == Reverse(Select(order, executed))
    requires Edge(g, i, j) && i in executed && j in executed && m < |unwinds| && unwinds[m].leg == j
    ensures exists n :: 0 <= n < m && unwinds[n].leg == i
  {
    var sel := Select(order, executed);
    SelectMembers(order, executed);
    assert i in order && i in sel;
    var p :| 0 <= p < |sel| && sel[p] == i;
    SelectedPrerequisiteFirst(g, order, executed, p, j);
    ReverseAt(sel, m);
    ReverseAt(sel, |sel| - 1 - p);
    assert LegsOf(unwinds)[m] == j && LegsOf(unwinds)[|sel| - 1 - p] == i;
    assert sel[|sel| - 1 - m] == j;
    assert Distinct(sel);
  }

  /** Exactly when the result leaves a leg live without one of its prerequisites: if the unwinds
      were tried, and the unwind of some executed leg fails and that of a leg it depends on works. */
  lemma ResultIsSafeIff(legs: seq<Leg>, policy: LegFailurePolicy, seams: Seams,
                        order: seq<nat>, verdicts: seq<LegStatus>, r: BasketResult)
    requires Runs(legs, policy, seams, order, verdicts, r) && r.outcome != Blocked
    ensures Covered(GraphOf(legs), ExecutedSet(r.status))
      <==> (r.outcome == PartiallyExecutedUnwound && seams.unwind.Some? ==>
              DependentsFollow(GraphOf(legs), verdicts, seams.unwind.value))
  {
    var g, place := GraphOf(legs), seams.place.value;
    forall i: nat, j: nat | Edge(g, i, j) && verdicts[i] == Executed
      ensures verdicts[j] == Executed
    {
      assert Settles(g, place, verdicts, i);
      ExecutedIsReady(g, place, verdicts, i, j);
    }
    if r.outcome == PartiallyExecutedUnwound && seams.unwind.Some? {
      SafeResultIff(g, verdicts, r.status, seams.unwind.value);
    }
  }

  lemma SafeResultIff(g: Graph, verdicts: seq<LegStatus>, status: seq<LegStatus>, unwind: nat -> bool)
    requires |verdicts| == |g| && status == AfterUnwind(verdicts, unwind)
    requires forall i: nat, j: nat :: Edge(g, i, j) && verdicts[i] == Executed ==> verdicts[j] == Executed
    ensures Covered(g, ExecutedSet(status))
      <==> DependentsFollow(g, verdicts, unwind)
  {
    assert forall i: nat :: i in ExecutedSet(status) <==> i < |g| && verdicts[i] == Executed && !unwind(i);
    if !DependentsFollow(g, verdicts, unwind) {
      var i: nat, j: nat :| Edge(g, i, j) && verdicts[i] == Executed && unwind(j) && !unwind(i);
      assert i in ExecutedSet(status) && j !in ExecutedSet(status);
    }
  }

  /** If no unwind fails, no leg stays behind. */
  lemma NothingLeftLive(legs: seq<Leg>, policy: LegFailurePolicy, seams: Seams,
                        order: seq<nat>, verdicts: seq<LegStatus>, r: BasketResult)
    requires Runs(legs, policy, seams, order, verdicts, r)
    requires r.outcome == PartiallyExecutedUnwound && seams.unwind.Some?
    ensures forall i :: 0 <= i < |legs| && verdicts[i] == Executed ==>
      exists m :: 0 <= m < |r.unwinds| && r.unwinds[m].leg == i
    ensures (forall m :: 0 <= m < |r.unwinds| ==> seams.unwind.value(r.unwinds[m].leg)) ==> Executed !in r.status
  {
    SelectMembers(order, ExecutedSet(verdicts));
    var sel := Select(order, ExecutedSet(verdicts));
    forall i | 0 <= i < |legs| && verdicts[i] == Executed
      ensures exists m :: 0 <= m < |r.unwinds| && r.unwinds[m].leg == i
    {
      assert i in order && i in sel;
      var p :| 0 <= p < |sel| && sel[p] == i;
      ReverseAt(sel, |sel| - 1 - p);
      assert LegsOf(r.unwinds)[|sel| - 1 - p] == i;
    }
    forall i | 0 <= i < |r.status|
      ensures (forall m :: 0 <= m < |r.unwinds| ==> seams.unwind.value(r.unwinds[m].leg)) ==> r.status[i] != Executed
    {
    }
  }

  /** A short leg behind its hedge, and a third leg that is refused as invalid; the hedge can be unwound
      and the short leg cannot. */
  function HedgedLegs(): seq<Leg> {
    [Leg("hedge", []), Leg("short", ["hedge"]), Leg("wing", [])]
  }

  function StuckShort(): Seams {
    Seams(Some(i => if i == 2 then Err(Error(Validation, DoNotRetry)) else Ok("id")), Some(i => i != 1))
  }

  lemma HedgedOrder(legs: seq<Leg>)
    requires legs == HedgedLegs()
    ensures GraphOf(legs) == [[], [0], []]
    ensures WellNamed(legs) && ExecutionOrder(GraphOf(legs), [0, 1, 2]) && Closed(GraphOf(legs))
    ensures Executable(legs)
  {
    var g := GraphOf(legs);
    assert Deps(legs, legs[1].dependsOn) == [LegIndex(legs, "hedge")] == [0];
    assert g == [[], [0], []];
    assert [0, 1, 2][..1] == [0];
    assert ExecutionOrder(g, [0, 1, 2]);
    OrderedIsAcyclic(g, [0, 1, 2]);
  }

  /** Behind a failed unwind the loop goes on: the short leg stays live, and then its hedge is
      unwound. By RunsAgree every run over these legs ends like this one. */
  lemma UnwindGoesOnPastFailure()
    ensures Runs(HedgedLegs(), UnwindExecuted, StuckShort(), [0, 1, 2], [Executed, Executed, Failed],
                 BasketResult(PartiallyExecutedUnwound, [Unwound, Executed, Failed], [0, 1, 2],
                              [UnwindCall(1, "id"), UnwindCall(0, "id")]))
    ensures Edge(GraphOf(HedgedLegs()), 1, 0)
  {
    var legs, seams, order, verdicts := HedgedLegs(), StuckShort(), [0, 1, 2], [Executed, Executed, Failed];
    HedgedOrder(legs);
    HedgedPlacement(GraphOf(legs), seams.place.value, verdicts);
    HedgedUnwind(verdicts, seams);
  }

  lemma HedgedPlacement(g: Graph, place: nat -> Result<string, Error>, verdicts: seq<LegStatus>)
    requires g == [[], [0], []] && verdicts == [Executed, Executed, Failed]
    requires place(0).Ok? && place(1).Ok? && place(2) == Err(Error(Validation, DoNotRetry))
    ensures Placement(g, place, verdicts) && Select([0, 1, 2], ReadySet(g, verdicts)) == [0, 1, 2]
  {
    assert Ready(g, verdicts, 0) && Ready(g, verdicts, 1) && Ready(g, verdicts, 2);
    assert ReadySet(g, verdicts) == {0, 1, 2};
    SelectThree(0, 1, 2, {0, 1, 2});
  }

  lemma HedgedUnwind(verdicts: seq<LegStatus>, seams: Seams)
    requires verdicts == [Executed, Executed, Failed] && seams == StuckShort()
    ensures AfterUnwind(verdicts, seams.unwind.value) == [Unwound, Executed, Failed]
    ensures UnwindsAll([0, 1, 2], verdicts, seams.place.value, [UnwindCall(1, "id"), UnwindCall(0, "id")])
    ensures Classify(verdicts, UnwindExecuted) == PartiallyExecutedUnwound
  {
    assert ExecutedSet(verdicts) == {0, 1};
    SelectThree(0, 1, 2, {0, 1});
    assert LegsOf([UnwindCall(1, "id"), UnwindCall(0, "id")]) == [1, 0];
    assert verdicts[2] != Executed;
  }

  lemma SelectThree(x: nat, y: nat, z: nat, keep: set<nat>)
    requires x in keep && y in keep
    ensures Select([x, y, z], keep) == [x, y] + if z in keep then [z] else []
    ensures Reverse([x, y]) == [y, x]
  {
    assert [x, y, z][1..] == [y, z] && [y, z][1..] == [z] && [z][1..] == [];
    assert Select([z], keep) == if z in keep then [z] else [];
    assert [x, y][1..] == [y] && [y][1..] == [] && Reverse([y]) == [y];
  }
}
