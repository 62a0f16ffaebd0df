/** Placing a sliced order child by child (src/options/sliced_leg.cpp). The two seams are parameters:
    what the idempotency probe says about a ref, and what placing a child comes to. */
module SlicedLeg {
  import opened Options
  import opened Domain
  import opened Sequences
  import S = FreezeSlicer

  datatype ChildPlacement = Acked | AlreadyPlaced | Ambiguous

  datatype SlicedLegOutcome = FilledSliced | UnknownPaused | SliceRejected

  datatype ChildResult = ChildResult(ref: string, placement: ChildPlacement)

  /** None where the seam is not configured; the probe's answer is None where it failed. */
  datatype Seams = Seams(probe: Option<string -> Option<bool>>, place: Option<OrderIntent -> ChildPlacement>)

  /** `attempted` are the refs handed to the placer, in order. */
  datatype SlicedLegResult = SlicedLegResult(
    outcome: SlicedLegOutcome,
    children: seq<ChildResult>,
    attempted: seq<string>,
    placedCount: nat,
    dedupedCount: nat,
    pausedAt: string)

  /** What the probe makes of a ref; without a probe nothing is known to be placed. */
  function Probed(seams: Seams, ref: string): Option<bool> {
    if seams.probe.None? then Some(false) else seams.probe.value(ref)
  }

  /** What becomes of one child. */
  function PlacementOf(seams: Seams, child: OrderIntent): ChildPlacement
    requires seams.place.Some?
  {
    match Probed(seams, child.clientRef)
    case None => Ambiguous
    case Some(true) => AlreadyPlaced
    case Some(false) => if seams.place.value(child).Acked? then Acked else Ambiguous
  }

  predicate Attempts(seams: Seams, child: OrderIntent) {
    Probed(seams, child.clientRef) == Some(false)
  }

  /** How many children are dealt with: all before the first ambiguous one, and that one. */
  function Reached(seams: Seams, children: seq<OrderIntent>): (n: nat)
    requires seams.place.Some?
    ensures n <= |children|
    ensures forall k :: 0 <= k < n - 1 ==> PlacementOf(seams, children[k]) != Ambiguous
    ensures n < |children| ==> n > 0 && PlacementOf(seams, children[n - 1]) == Ambiguous
  {
    if children == [] then 0
    else if PlacementOf(seams, children[0]) == Ambiguous then 1
    else 1 + Reached(seams, children[1..])
  }

  /** The refs among the first children that are handed to the placer. */
  function AttemptedOf(seams: Seams, children: seq<OrderIntent>): seq<string> {
    if children == [] then []
    else
      var last := children[|children| - 1];
      AttemptedOf(seams, children[..|children| - 1]) + if Attempts(seams, last) then [last.clientRef] else []
  }

  function CountOf(results: seq<ChildResult>, p: ChildPlacement): nat {
    if results == [] then 0
    else CountOf(results[..|results| - 1], p) + if results[|results| - 1].placement == p then 1 else 0
  }

  /** A leg that has been sliced is placed in order up to its first ambiguous child. */
  ghost predicate PlacesInOrder(seams: Seams, children: seq<OrderIntent>, r: SlicedLegResult)
    requires seams.place.Some?
  {
    var n := Reached(seams, children);
    && |r.children| == n
    && (forall k :: 0 <= k < n ==>
          r.children[k] == ChildResult(children[k].clientRef, PlacementOf(seams, children[k])))
    && r.attempted == AttemptedOf(seams, children[..n])
    && r.placedCount == CountOf(r.children, Acked)
    && r.dedupedCount == CountOf(r.children, AlreadyPlaced)
    && r.outcome == (if n > 0 && PlacementOf(seams, children[n - 1]) == Ambiguous then UnknownPaused else FilledSliced)
    && r.pausedAt == (if r.outcome.UnknownPaused? then children[n - 1].clientRef else "")
  }

  method ExecuteSlicedLeg(parent: OrderIntent, inst: Instrument, seams: Seams)
    returns (r: SlicedLegResult, ghost children: seq<OrderIntent>)
    ensures r.outcome.SliceRejected? <==> seams.place.None? || !S.Sliceable(parent, inst)
    ensures r.outcome.SliceRejected? ==> r.attempted == [] && r.children == []
    ensures !r.outcome.SliceRejected? ==> S.SliceOf(children, parent, inst) && PlacesInOrder(seams, children, r)
  {
    r := SlicedLegResult(SliceRejected, [], [], 0, 0, "");
    children := [];
    if seams.place.None? {
      return;
    }
    var sliced := S.Slice(parent, inst);
    if sliced.Err? {
      return;
    }
    children := sliced.value;
    r := PlaceChildren(sliced.value, seams);
  }

  /** In slice order, up to the first ambiguous child. */
  method PlaceChildren(todo: seq<OrderIntent>, seams: Seams) returns (r: SlicedLegResult)
    requires seams.place.Some?
    ensures !r.outcome.SliceRejected? && PlacesInOrder(seams, todo, r)
  {
    r := SlicedLegResult(FilledSliced, [], [], 0, 0, "");
    for k := 0 to |todo|
      invariant r.outcome.FilledSliced? && r.pausedAt == ""
      invariant PlacedUpTo(seams, todo[..k], r)
      invariant forall j :: 0 <= j < k ==> PlacementOf(seams, todo[j]) != Ambiguous
    {
      assert todo[..k + 1] == todo[..k] + [todo[k]];
      var placement;
      r, placement := PlaceChild(seams, todo[k], r, todo[..k]);
      if placement == Ambiguous {
        PausedInOrder(seams, todo, k, r);
        r := r.(pausedAt := todo[k].clientRef, outcome := UnknownPaused);
        return;
      }
    }
    ReachedAll(seams, todo);
    assert todo[..|todo|] == todo;
  }

  /** Stopping at the first ambiguous child. */
  lemma PausedInOrder(seams: Seams, todo: seq<OrderIntent>, k: nat, r: SlicedLegResult)
    requires seams.place.Some? && k < |todo| && PlacementOf(seams, todo[k]) == Ambiguous
    requires forall j :: 0 <= j < k ==> PlacementOf(seams, todo[j]) != Ambiguous
    requires PlacedUpTo(seams, todo[..k + 1], r)
    ensures PlacesInOrder(seams, todo, r.(pausedAt := todo[k].clientRef, outcome := UnknownPaused))
  {
    ReachedAt(seams, todo, k);
  }

  /** The results, attempts and counters for the children dealt with so far. */
  ghost predicate PlacedUpTo(seams: Seams, done: seq<OrderIntent>, r: SlicedLegResult)
    requires seams.place.Some?
  {
    && |r.children| == |done|
    && (forall j :: 0 <= j < |done| ==> r.children[j] == ChildResult(done[j].clientRef, PlacementOf(seams, done[j])))
    && r.attempted == AttemptedOf(seams, done)
    && r.placedCount == CountOf(r.children, Acked)
    && r.dedupedCount == CountOf(r.children, AlreadyPlaced)
  }

  /** Probe, and place only what is known not to be placed. */
  method PlaceChild(seams: Seams, child: OrderIntent, r: SlicedLegResult, ghost done: seq<OrderIntent>)
    returns (r': SlicedLegResult, placement: ChildPlacement)
    requires seams.place.Some? && PlacedUpTo(seams, done, r)
    ensures placement == PlacementOf(seams, child)
    ensures PlacedUpTo(seams, done + [child], r')
    ensures r'.outcome == r.outcome && r'.pausedAt == r.pausedAt
  {
    r' := r;
    placement := Ambiguous;
    var known := Probed(seams, child.clientRef);
    if known == Some(true) {
      placement := AlreadyPlaced;
      r' := r'.(dedupedCount := r'.dedupedCount + 1);
    } else if known == Some(false) {
      r' := r'.(attempted := r'.attempted + [child.clientRef]);
      if seams.place.value(child).Acked? {
        placement := Acked;
        r' := r'.(placedCount := r'.placedCount + 1);
      }
    }
    ResultSnoc(r.children, ChildResult(child.clientRef, placement));
    assert (done + [child])[..|done|] == done;
    r' := r'.(children := r'.children + [ChildResult(child.clientRef, placement)]);
  }

  lemma ResultSnoc(rs: seq<ChildResult>, x: ChildResult)
    ensures forall p :: CountOf(rs + [x], p) == CountOf(rs, p) + if x.placement == p then 1 else 0
  {
    assert (rs + [x])[..|rs|] == rs;
  }

  lemma {:induction false} ReachedAt(seams: Seams, children: seq<OrderIntent>, k: nat)
    requires seams.place.Some? && k < |children| && PlacementOf(seams, children[k]) == Ambiguous
    requires forall j :: 0 <= j < k ==> PlacementOf(seams, children[j]) != Ambiguous
    ensures Reached(seams, children) == k + 1
  {
    if k > 0 {
      ReachedAt(seams, children[1..], k - 1);
    }
  }

  lemma ReachedAll(seams: Seams, children: seq<OrderIntent>)
    requires seams.place.Some?
    requires forall j :: 0 <= j < |children| ==> PlacementOf(seams, children[j]) != Ambiguous
    ensures Reached(seams, children) == |children|
  {
  }

  // ---------------------------------------------------------------- what a leg says

  /** The refs of the children dealt with that have a placement. */
  ghost function With(results: seq<ChildResult>, p: ChildPlacement): set<nat> {
    set k: nat | k < |results| && results[k].placement == p
  }

  lemma {:induction false} CountIs(results: seq<ChildResult>, p: ChildPlacement)
    ensures CountOf(results, p) == |With(results, p)|
  {
    if results != [] {
      var n := |results| - 1;
      CountIs(results[..n], p);
      assert With(results, p) == With(results[..n], p) + if results[n].placement == p then {n} else {};
    }
  }

  /** Each child dealt with was placed before if the probe says so, acknowledged if the probe denies it
      and the placer acknowledges, and is ambiguous in every other case; only those that the probe
      denies are attempted; and the counters count. */
  lemma LegSays(seams: Seams, children: seq<OrderIntent>, r: SlicedLegResult)
    requires seams.place.Some? && PlacesInOrder(seams, children, r)
    ensures |r.children| <= |children| && forall k :: 0 <= k < |r.children| ==>
      var ref := children[k].clientRef;
      var probed := if seams.probe.None? then Some(false) else seams.probe.value(ref);
      && r.children[k].ref == ref
      && (r.children[k].placement == AlreadyPlaced <==> probed == Some(true))
      && (r.children[k].placement == Acked <==> probed == Some(false) && seams.place.value(children[k]) == Acked)
      && (probed == Some(false) ==> ref in r.attempted)
    ensures r.placedCount == |With(r.children, Acked)| && r.dedupedCount == |With(r.children, AlreadyPlaced)|
  {
    CountIs(r.children, Acked);
    CountIs(r.children, AlreadyPlaced);
    forall k | 0 <= k < |r.children| && Attempts(seams, children[k])
      ensures children[k].clientRef in r.attempted
    {
      IsAttempted(seams, children[..|r.children|], k);
    }
  }

  lemma {:induction false} IsAttempted(seams: Seams, children: seq<OrderIntent>, k: nat)
    requires k < |children| && Attempts(seams, children[k])
    ensures children[k].clientRef in AttemptedOf(seams, children)
  {
    if k < |children| - 1 {
      IsAttempted(seams, children[..|children| - 1], k);
    }
  }

  // ---------------------------------------------------------------- over repeated runs

  /** A probe that never denies a ref that was attempted: it reports it, or fails. */
  predicate Faithful(seams: Seams, attempted: set<string>) {
    forall ref :: ref in attempted ==> Probed(seams, ref) != Some(false)
  }

  lemma {:induction false} AttemptedAreProbed(seams: Seams, children: seq<OrderIntent>)
    requires forall j, k :: 0 <= j < k < |children| ==> children[j].clientRef != children[k].clientRef
    ensures Distinct(AttemptedOf(seams, children))
    ensures forall ref :: ref in AttemptedOf(seams, children) ==>
      Probed(seams, ref) == Some(false) && exists k :: 0 <= k < |children| && children[k].clientRef == ref
  {
    if children != [] {
      var front, last := children[..|children| - 1], children[|children| - 1];
      AttemptedAreProbed(seams, front);
      assert forall k :: 0 <= k < |front| ==> children[k] == front[k];
      assert children[|children| - 1] == last;
    }
  }

  /** One run that was started with a probe that knows of every earlier attempt. */
  ghost predicate RunKnowing(parent: OrderIntent, inst: Instrument, seams: Seams, children: seq<OrderIntent>,
                             r: SlicedLegResult, earlier: set<string>)
  {
    && seams.place.Some? && S.SliceOf(children, parent, inst) && PlacesInOrder(seams, children, r)
    && Faithful(seams, earlier)
  }

  lemma RunAttemptsNew(parent: OrderIntent, inst: Instrument, seams: Seams, children: seq<OrderIntent>,
                       r: SlicedLegResult, earlier: set<string>)
    requires RunKnowing(parent, inst, seams, children, r, earlier)
    ensures Distinct(r.attempted) && Elements(r.attempted) !! earlier
  {
    if children != [parent] {
      S.SliceRefsDistinct(children, parent, inst);
    }
    AttemptedAreProbed(seams, children[..Reached(seams, children)]);
  }

  /** A run of this or any other leg. */
  datatype Run = Run(
    parent: OrderIntent,
    inst: Instrument,
    seams: Seams,
    children: seq<OrderIntent>,
    result: SlicedLegResult)

  function AllAttempts(runs: seq<Run>): seq<string> {
    if runs == [] then [] else AllAttempts(runs[..|runs| - 1]) + runs[|runs| - 1].result.attempted
  }

  /** However often legs are run again, after pauses, failures or restarts: as long as the probe
      knows of every attempt before the run, no child is ever handed to the placer twice. */
  lemma {:induction false} NoChildAttemptedTwice(runs: seq<Run>)
    requires forall k :: 0 <= k < |runs| ==> KnowsEarlier(runs, k)
    ensures Distinct(AllAttempts(runs))
  {
    if runs != [] {
      var n := |runs| - 1;
      FrontKnows(runs);
      NoChildAttemptedTwice(runs[..n]);
      var before := AllAttempts(runs[..n]);
      assert KnowsEarlier(runs, n);
      RunAttemptsNew(runs[n].parent, runs[n].inst, runs[n].seams, runs[n].children, runs[n].result, Elements(before));
      DistinctAppend(before, runs[n].result.attempted);
    }
  }

  /** The probe of run number `k` knows of everything that was attempted before it. */
  ghost predicate KnowsEarlier(runs: seq<Run>, k: nat)
    requires k < |runs|
  {
    RunKnowing(runs[k].parent, runs[k].inst, runs[k].seams, runs[k].children, runs[k].result,
               Elements(AllAttempts(runs[..k])))
  }

  lemma FrontKnows(runs: seq<Run>)
    requires runs != [] && forall k :: 0 <= k < |runs| ==> KnowsEarlier(runs, k)
    ensures var front := runs[..|runs| - 1]; forall k :: 0 <= k < |front| ==> KnowsEarlier(front, k)
  {
    var front := runs[..|runs| - 1];
    forall k | 0 <= k < |front|
      ensures KnowsEarlier(front, k)
    {
      assert KnowsEarlier(runs, k) && front[..k] == runs[..k] && front[k] == runs[k];
    }
  }

  lemma DistinctAppend(a: seq<string>, b: seq<string>)
    requires Distinct(a) && Distinct(b) && Elements(a) !! Elements(b)
    ensures Distinct(a + b)
  {
    var all := a + b;
    forall i, j | 0 <= i < j < |all|
      ensures all[i] != all[j]
    {
      if i < |a| <= j {
        assert all[i] in Elements(a) && all[j] in Elements(b);
      }
    }
  }

  /** The leg is complete exactly if every child was acknowledged or had been placed before; once a
      child is ambiguous nothing behind it is attempted. */
  lemma CompleteIff(seams: Seams, children: seq<OrderIntent>, r: SlicedLegResult)
    requires seams.place.Some? && PlacesInOrder(seams, children, r)
    ensures r.outcome.FilledSliced? <==>
      |r.children| == |children| && forall k :: 0 <= k < |r.children| ==> r.children[k].placement != Ambiguous
    ensures r.outcome.UnknownPaused? ==>
      |r.children| > 0 && r.children[|r.children| - 1] == ChildResult(r.pausedAt, Ambiguous)
      && forall k :: 0 <= k < |r.children| - 1 ==> r.children[k].placement != Ambiguous
  {
  }
}
