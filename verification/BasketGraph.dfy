/** The pre-flight check of a basket: does an execution order exist (topological_order in
    src/options/basket.cpp)? */
module BasketGraph {
  import opened Sequences

  datatype Leg = Leg(id: string, dependsOn: seq<string>)

  predicate WellNamed(legs: seq<Leg>) {
    && (forall i :: 0 <= i < |legs| ==> legs[i].id != "")
    && (forall i, j :: 0 <= i < j < |legs| ==> legs[i].id != legs[j].id)
  }

  /** The leg of that name, or the number of legs. */
  function LegIndex(legs: seq<Leg>, id: string): (i: nat)
    ensures i <= |legs|
    ensures i < |legs| ==> legs[i].id == id
    ensures forall j :: 0 <= j < i ==> legs[j].id != id
  {
    if legs == [] then 0
    else if legs[0].id == id then 0
    else 1 + LegIndex(legs[1..], id)
  }

  /** For every leg, the legs it depends on, as often as it names them. */
  type Graph = seq<seq<nat>>

  function Deps(legs: seq<Leg>, dependsOn: seq<string>): (d: seq<nat>)
    ensures |d| == |dependsOn|
  {
    seq(|dependsOn|, k requires 0 <= k < |dependsOn| => LegIndex(legs, dependsOn[k]))
  }

  function GraphOf(legs: seq<Leg>): (g: Graph)
    ensures |g| == |legs|
  {
    seq(|legs|, i requires 0 <= i < |legs| => Deps(legs, legs[i].dependsOn))
  }

  /** Every named prerequisite is a leg. */
  predicate Closed(g: Graph) {
    forall i, k :: 0 <= i < |g| && 0 <= k < |g[i]| ==> g[i][k] < |g|
  }

  // ---------------------------------------------------------------- what an executable graph is

  /** Leg `i` depends on leg `j`. */
  predicate Edge(g: Graph, i: nat, j: nat) {
    i < |g| && j < |g| && j in g[i]
  }

  /** A way along prerequisites. */
  predicate IsWalk(g: Graph, p: seq<nat>) {
    forall k :: 0 <= k < |p| - 1 ==> Edge(g, p[k], p[k + 1])
  }

  predicate IsCycle(g: Graph, p: seq<nat>) {
    |p| >= 2 && p[0] == p[|p| - 1] && IsWalk(g, p)
  }

  ghost predicate Acyclic(g: Graph) {
    forall p :: !IsCycle(g, p)
  }

  ghost predicate Executable(legs: seq<Leg>) {
    WellNamed(legs) && Closed(GraphOf(legs)) && Acyclic(GraphOf(legs))
  }

  /** Every prerequisite of a leg comes before it. */
  ghost predicate PrerequisitesFirst(g: Graph, order: seq<nat>) {
    forall p, j :: 0 <= p < |order| && Edge(g, order[p], j) ==> j in order[..p]
  }

  /** All legs, once each, every prerequisite before what needs it. */
  ghost predicate ExecutionOrder(g: Graph, order: seq<nat>) {
    && |order| == |g| && Distinct(order)
    && (forall i :: 0 <= i < |g| ==> i in order)
    && (forall k :: 0 <= k < |order| ==> order[k] < |g|)
    && PrerequisitesFirst(g, order)
  }

  /** The leg waits for a member of `s`. */
  ghost predicate WaitsFor(g: Graph, s: set<nat>, i: nat) {
    exists j :: j in s && Edge(g, i, j)
  }

  /** Legs none of which can be executed before the others. */
  ghost predicate Knot(g: Graph, s: set<nat>) {
    s != {} && forall i {:trigger WaitsFor(g, s, i)} :: i in s ==> WaitsFor(g, s, i)
  }

  // ---------------------------------------------------------------- counting prerequisites

  /** How many entries of `deps` are not done. */
  function Unmet(deps: seq<nat>, done: set<nat>): (n: nat)
    ensures n == 0 <==> forall d :: d in deps ==> d in done
  {
    if deps == [] then 0
    else Unmet(deps[..|deps| - 1], done) + (if deps[|deps| - 1] in done then 0 else 1)
  }

  lemma {:induction false} UnmetNone(deps: seq<nat>)
    ensures Unmet(deps, {}) == |deps|
  {
    if deps != [] {
      UnmetNone(deps[..|deps| - 1]);
    }
  }

  lemma {:induction false} UnmetOneMore(deps: seq<nat>, done: set<nat>, u: nat)
    requires u !in done
    ensures Unmet(deps, done) == Unmet(deps, done + {u}) + Count(deps, u)
  {
    if deps != [] {
      UnmetOneMore(deps[..|deps| - 1], done, u);
    }
  }

  /** How often `x` occurs. */
  function Count(s: seq<nat>, x: nat): (n: nat)
    ensures n == 0 <==> x !in s
  {
    if s == [] then 0
    else Count(s[..|s| - 1], x) + (if s[|s| - 1] == x then 1 else 0)
  }

  lemma CountSnoc(s: seq<nat>, y: nat, x: nat)
    ensures Count(s + [y], x) == Count(s, x) + if y == x then 1 else 0
  {
    assert (s + [y])[..|s|] == s;
  }

  lemma {:induction false} CountCons(y: nat, s: seq<nat>, x: nat)
    ensures Count([y] + s, x) == (if y == x then 1 else 0) + Count(s, x)
    decreases |s|
  {
    if s == [] {
      assert [y] + s == [y] && [y][..0] == [];
    } else {
      assert ([y] + s)[..|s|] == [y] + s[..|s| - 1];
      CountCons(y, s[..|s| - 1], x);
    }
  }

  /** The counts, while the dependents `ahead` of the last leg done have not been told yet. */
  ghost predicate Balanced(g: Graph, inDegree: seq<int>, done: set<nat>, ahead: seq<nat>) {
    && |inDegree| == |g|
    && forall v :: 0 <= v < |g| ==> inDegree[v] == Unmet(g[v], done) + Count(ahead, v)
  }

  /** The lists of dependents say the same as the prerequisites of the first `n` legs. */
  ghost predicate Mirrors(g: Graph, dependents: seq<seq<nat>>, n: nat) {
    && |dependents| == |g| && n <= |g|
    && (forall u, v: nat :: 0 <= u < |g| && v < n ==> Count(dependents[u], v) == Count(g[v], u))
    && (forall u, v: nat :: 0 <= u < |g| && v >= n ==> v !in dependents[u])
  }

  lemma MirrorsNothing(g: Graph, dependents: seq<seq<nat>>)
    requires |dependents| == |g| && forall u :: 0 <= u < |g| ==> dependents[u] == []
    ensures Mirrors(g, dependents, 0)
  {
  }

  /** Leg `i` has been entered as a dependent of everything in `deps`. */
  ghost predicate Entered(was: seq<seq<nat>>, now: seq<seq<nat>>, i: nat, deps: seq<nat>) {
    && |now| == |was|
    && forall u, v: nat :: 0 <= u < |was| ==>
         Count(now[u], v) == Count(was[u], v) + if v == i then Count(deps, u) else 0
  }

  lemma EnterOne(was: seq<seq<nat>>, now: seq<seq<nat>>, i: nat, deps: seq<nat>, u: nat)
    requires Entered(was, now, i, deps) && u < |was|
    ensures Entered(was, now[u := now[u] + [i]], i, deps + [u])
  {
    forall t, v: nat | 0 <= t < |was|
      ensures Count(now[u := now[u] + [i]][t], v) == Count(was[t], v) + if v == i then Count(deps + [u], t) else 0
    {
      CountSnoc(now[u], i, v);
      CountSnoc(deps, u, t);
    }
  }

  lemma EnteredMirrors(g: Graph, was: seq<seq<nat>>, now: seq<seq<nat>>, i: nat)
    requires i < |g| && Mirrors(g, was, i) && Entered(was, now, i, g[i])
    ensures Mirrors(g, now, i + 1)
  {
    forall u, v: nat | 0 <= u < |g|
      ensures Count(now[u], v) == Count(was[u], v) + if v == i then Count(g[i], u) else 0
      ensures v > i ==> v !in now[u]
    {
      assert v >= i ==> v !in was[u];
    }
  }

  // ---------------------------------------------------------------- building the graph

  ghost predicate Indexes(legs: seq<Leg>, ids: map<string, nat>) {
    forall id :: (id in ids <==> LegIndex(legs, id) < |legs|) && (id in ids ==> ids[id] == LegIndex(legs, id))
  }

  /** The names, each mapped to its leg; fails on an empty or repeated name. */
  method IndexNames(legs: seq<Leg>) returns (ok: bool, ids: map<string, nat>)
    ensures ok <==> WellNamed(legs)
    ensures ok ==> Indexes(legs, ids)
  {
    ids := map[];
    for i := 0 to |legs|
      invariant forall j :: 0 <= j < i ==> legs[j].id != "" && legs[j].id in ids
      invariant forall id :: id in ids ==> 0 <= ids[id] < i && legs[ids[id]].id == id
      invariant forall j, k :: 0 <= j < k < i ==> legs[j].id != legs[k].id
    {
      if legs[i].id == "" || legs[i].id in ids {
        return false, ids;
      }
      ids := ids[legs[i].id := i];
    }
    ok := true;
    forall id
      ensures id in ids <==> LegIndex(legs, id) < |legs|
      ensures id in ids ==> ids[id] == LegIndex(legs, id)
    {
      assert LegIndex(legs, id) < |legs| ==> legs[LegIndex(legs, id)].id in ids;
    }
  }

  /** An edge from prerequisite `u` to dependent `i`. */
  method AddEdge(u: nat, i: nat, inDegree: array<int>, dependents: array<seq<nat>>)
    requires u < dependents.Length && i < inDegree.Length
    modifies inDegree, dependents
    ensures dependents[..] == old(dependents[..])[u := old(dependents[u]) + [i]]
    ensures inDegree[..] == old(inDegree[..])[i := old(inDegree[i]) + 1]
  {
    dependents[u] := dependents[u] + [i];
    inDegree[i] := inDegree[i] + 1;
  }

  /** One leg's prerequisites enter the graph. */
  method AddEdges(legs: seq<Leg>, i: nat, ids: map<string, nat>, inDegree: array<int>, dependents: array<seq<nat>>)
    returns (ok: bool)
    requires i < |legs| && inDegree.Length == dependents.Length == |legs|
    requires Indexes(legs, ids) && inDegree[i] == 0
    requires Mirrors(GraphOf(legs), dependents[..], i)
    modifies inDegree, dependents
    ensures forall v :: 0 <= v < |legs| && v != i ==> inDegree[v] == old(inDegree[v])
    ensures var g := GraphOf(legs);
      if ok
      then (forall k :: 0 <= k < |g[i]| ==> g[i][k] < |g|) && inDegree[i] == |g[i]| && Mirrors(g, dependents[..], i + 1)
      else !Closed(g)
  {
    ghost var g := GraphOf(legs);
    ghost var was := dependents[..];
    for k := 0 to |legs[i].dependsOn|
      invariant inDegree[..] == old(inDegree[..])[i := k]
      invariant forall m :: 0 <= m < k ==> g[i][m] < |g|
      invariant Entered(was, dependents[..], i, g[i][..k])
    {
      var dep := legs[i].dependsOn[k];
      assert g[i][k] == LegIndex(legs, dep);
      if dep !in ids {
        assert g[i][k] >= |g|;
        return false;
      }
      var u := ids[dep];
      assert g[i][..k + 1] == g[i][..k] + [u];
      EnterOne(was, dependents[..], i, g[i][..k], u);
      AddEdge(u, i, inDegree, dependents);
    }
    assert g[i][..|g[i]|] == g[i];
    EnteredMirrors(g, was, dependents[..], i);
    ok := true;
  }

  /** The whole graph, or a prerequisite that names no leg. */
  method BuildGraph(legs: seq<Leg>, ids: map<string, nat>)
    returns (ok: bool, inDegree: array<int>, dependents: array<seq<nat>>)
    requires Indexes(legs, ids)
    ensures fresh(inDegree) && fresh(dependents) && inDegree.Length == dependents.Length == |legs|
    ensures ok <==> Closed(GraphOf(legs))
    ensures ok ==> Balanced(GraphOf(legs), inDegree[..], {}, [])
    ensures ok ==> Mirrors(GraphOf(legs), dependents[..], |legs|)
  {
    ghost var g := GraphOf(legs);
    inDegree := new int[|legs|](_ => 0);
    dependents := new seq<nat>[|legs|](_ => []);
    MirrorsNothing(g, dependents[..]);
    for i := 0 to |legs|
      invariant fresh(inDegree) && fresh(dependents)
      invariant inDegree.Length == dependents.Length == |legs|
      invariant forall v :: i <= v < |legs| ==> inDegree[v] == 0
      invariant forall v :: 0 <= v < i ==> inDegree[v] == |g[v]|
      invariant forall v, k :: 0 <= v < i && 0 <= k < |g[v]| ==> g[v][k] < |g|
      invariant Mirrors(g, dependents[..], i)
    {
      ok := AddEdges(legs, i, ids, inDegree, dependents);
      if !ok {
        return;
      }
    }
    ok := true;
    forall v | 0 <= v < |legs|
      ensures inDegree[v] == Unmet(g[v], {})
    {
      UnmetNone(g[v]);
    }
  }

  // ---------------------------------------------------------------- Kahn's algorithm

  /** The queue: no leg twice, exactly the legs with a count of zero, prerequisites first. */
  ghost predicate QueueOf(g: Graph, inDegree: seq<int>, queue: seq<nat>) {
    && |inDegree| == |g|
    && Distinct(queue)
    && (forall k :: 0 <= k < |queue| ==> queue[k] < |g|)
    && (forall v :: 0 <= v < |g| ==> (v in queue <==> inDegree[v] == 0))
    && PrerequisitesFirst(g, queue)
  }

  /** Telling one dependent keeps the books and the queue. */
  lemma Told(g: Graph, inDegree: seq<int>, done: set<nat>, v: nat, rest: seq<nat>, queue: seq<nat>)
    requires Closed(g) && QueueOf(g, inDegree, queue) && Balanced(g, inDegree, done, [v] + rest)
    requires v < |g| && done <= Elements(queue)
    ensures var now := inDegree[v := inDegree[v] - 1];
      && Balanced(g, now, done, rest)
      && QueueOf(g, now, if now[v] == 0 then queue + [v] else queue)
  {
    var now := inDegree[v := inDegree[v] - 1];
    forall x | 0 <= x < |g|
      ensures Count([v] + rest, x) == (if v == x then 1 else 0) + Count(rest, x)
    {
      CountCons(v, rest, x);
    }
    assert inDegree[v] > 0;
    if now[v] == 0 {
      Queued(g, done, queue, v);
      var q := queue + [v];
      assert forall x :: x in q <==> x in queue || x == v;
    }
  }

  /** A leg whose prerequisites are done may be queued. */
  lemma Queued(g: Graph, done: set<nat>, queue: seq<nat>, v: nat)
    requires v < |g| && v !in queue && Unmet(g[v], done) == 0 && done <= Elements(queue)
    requires Distinct(queue) && PrerequisitesFirst(g, queue)
    ensures Distinct(queue + [v]) && PrerequisitesFirst(g, queue + [v])
  {
    var q := queue + [v];
    forall p, j | 0 <= p < |q| && Edge(g, q[p], j)
      ensures j in q[..p]
    {
      if p < |queue| {
        assert Edge(g, queue[p], j);
        assert q[..p] == queue[..p];
      } else {
        assert q[..p] == queue;
        assert j in done;
        assert j in Elements(queue);
      }
    }
  }

  /** Tell one dependent: one prerequisite less, and into the queue with the last. */
  method Tell(ghost g: Graph, inDegree: array<int>, v: nat, queue: seq<nat>, ghost done: set<nat>, ghost rest: seq<nat>)
    returns (queue': seq<nat>)
    requires Closed(g) && inDegree.Length == |g| && v < |g| && done <= Elements(queue)
    requires QueueOf(g, inDegree[..], queue) && Balanced(g, inDegree[..], done, [v] + rest)
    modifies inDegree
    ensures queue <= queue' && QueueOf(g, inDegree[..], queue') && Balanced(g, inDegree[..], done, rest)
  {
    ghost var before := inDegree[..];
    Told(g, before, done, v, rest, queue);
    Decrement(inDegree, v);
    queue' := if inDegree[v] == 0 then queue + [v] else queue;
  }

  method Decrement(a: array<int>, v: nat)
    requires v < a.Length
    modifies a
    ensures a[..] == old(a[..])[v := old(a[v]) - 1]
  {
    a[v] := a[v] - 1;
  }

  /** The leg at the front of the queue is done, and its dependents are told. */
  method Release(ghost g: Graph, inDegree: array<int>, dependents: seq<nat>, queue: seq<nat>, ghost head: nat)
    returns (queue': seq<nat>)
    requires Closed(g) && inDegree.Length == |g| && head < |queue|
    requires QueueOf(g, inDegree[..], queue)
    requires Balanced(g, inDegree[..], Elements(queue[..head + 1]), dependents)
    requires forall k :: 0 <= k < |dependents| ==> dependents[k] < |g|
    modifies inDegree
    ensures queue <= queue' && QueueOf(g, inDegree[..], queue')
    ensures Balanced(g, inDegree[..], Elements(queue'[..head + 1]), [])
  {
    queue' := queue;
    ghost var done := Elements(queue[..head + 1]);
    assert dependents[0..] == dependents;
    for k := 0 to |dependents|
      invariant queue <= queue' && QueueOf(g, inDegree[..], queue')
      invariant done <= Elements(queue') && Balanced(g, inDegree[..], done, dependents[k..])
    {
      assert dependents[k..] == [dependents[k]] + dependents[k + 1..];
      queue' := Tell(g, inDegree, dependents[k], queue', done, dependents[k + 1..]);
    }
    assert dependents[|dependents|..] == [];
    assert queue'[..head + 1] == queue[..head + 1];
  }

  lemma DependentsAreLegs(g: Graph, dependents: seq<seq<nat>>, u: nat)
    requires Mirrors(g, dependents, |g|) && u < |g|
    ensures forall k :: 0 <= k < |dependents[u]| ==> dependents[u][k] < |g|
  {
    forall k | 0 <= k < |dependents[u]|
      ensures dependents[u][k] < |g|
    {
      assert dependents[u][k] in dependents[u];
    }
  }

  /** Taking a leg from the queue: its dependents are still to be told. */
  lemma Taken(g: Graph, inDegree: seq<int>, dependents: seq<seq<nat>>, queue: seq<nat>, head: nat)
    requires head < |queue| && Distinct(queue) && queue[head] < |g|
    requires Balanced(g, inDegree, Elements(queue[..head]), []) && Mirrors(g, dependents, |g|)
    ensures var u := queue[head];
      && Balanced(g, inDegree, Elements(queue[..head + 1]), dependents[u])
      && forall k :: 0 <= k < |dependents[u]| ==> dependents[u][k] < |g|
  {
    var u := queue[head];
    assert queue[..head + 1] == queue[..head] + [u];
    assert Elements(queue[..head + 1]) == Elements(queue[..head]) + {u};
    assert u !in queue[..head];
    forall v | 0 <= v < |g|
      ensures inDegree[v] == Unmet(g[v], Elements(queue[..head + 1])) + Count(dependents[u], v)
    {
      UnmetOneMore(g[v], Elements(queue[..head]), u);
    }
    DependentsAreLegs(g, dependents, u);
  }

  /** Kahn's algorithm is sound and complete: it succeeds exactly on the executable baskets, and
      then the order is an execution order; on a basket that is well named and refers only to
      itself, failure leaves a knot behind. */
  method TopologicalOrder(legs: seq<Leg>) returns (ok: bool, order: seq<nat>)
    ensures ok <==> Executable(legs)
    ensures ok ==> ExecutionOrder(GraphOf(legs), order)
    ensures !ok && WellNamed(legs) && Closed(GraphOf(legs)) ==> Knot(GraphOf(legs), Unordered(|legs|, order))
  {
    order := [];
    var named, ids := IndexNames(legs);
    if !named {
      return false, order;
    }
    var known, inDegree, dependents := BuildGraph(legs, ids);
    if !known {
      return false, order;
    }
    order := Drain(GraphOf(legs), inDegree, dependents);
    ok := |order| == |legs|;
    Verdict(GraphOf(legs), order);
  }

  /** Roots first, then whatever becomes free. */
  method Drain(ghost g: Graph, inDegree: array<int>, dependents: array<seq<nat>>) returns (order: seq<nat>)
    requires Closed(g) && inDegree.Length == dependents.Length == |g|
    requires Balanced(g, inDegree[..], {}, []) && Mirrors(g, dependents[..], |g|)
    modifies inDegree
    ensures Drained(g, order)
  {
    order := [];
    var queue := Roots(g, inDegree);
    var head := 0;
    assert Elements(queue[..0]) == {};
    while head < |queue|
      invariant 0 <= head <= |queue|
      invariant QueueOf(g, inDegree[..], queue)
      invariant Mirrors(g, dependents[..], |g|)
      invariant Balanced(g, inDegree[..], Elements(queue[..head]), [])
      invariant order == queue[..head]
      decreases |g| - head
    {
      order := order + [queue[head]];
      queue := TakeFront(g, inDegree, dependents, queue, head);
      head := head + 1;
    }
    assert queue[..head] == queue;
    RunDry(g, inDegree[..], queue);
  }

  method TakeFront(ghost g: Graph, inDegree: array<int>, dependents: array<seq<nat>>, queue: seq<nat>, head: nat)
    returns (queue': seq<nat>)
    requires Closed(g) && inDegree.Length == dependents.Length == |g| && head < |queue|
    requires QueueOf(g, inDegree[..], queue) && Mirrors(g, dependents[..], |g|)
    requires Balanced(g, inDegree[..], Elements(queue[..head]), [])
    modifies inDegree
    ensures head < |g| && queue <= queue' && QueueOf(g, inDegree[..], queue')
    ensures Balanced(g, inDegree[..], Elements(queue'[..head + 1]), [])
  {
    DistinctIsShort(queue, |g|);
    Taken(g, inDegree[..], dependents[..], queue, head);
    queue' := Release(g, inDegree, dependents[queue[head]], queue, head);
  }

  lemma RunDry(g: Graph, inDegree: seq<int>, queue: seq<nat>)
    requires QueueOf(g, inDegree, queue) && Balanced(g, inDegree, Elements(queue), [])
    ensures Drained(g, queue)
  {
    assert forall v: nat :: Count([], v) == 0;
  }

  /** The legs without prerequisites, in input order. */
  method Roots(ghost g: Graph, inDegree: array<int>) returns (queue: seq<nat>)
    requires Balanced(g, inDegree[..], {}, [])
    ensures QueueOf(g, inDegree[..], queue)
  {
    queue := [];
    for i := 0 to inDegree.Length
      invariant Distinct(queue)
      invariant forall v: nat :: v in queue <==> v < i && inDegree[v] == 0
      invariant forall k :: 0 <= k < |queue| ==> queue[k] < i <= |g| && g[queue[k]] == []
    {
      if inDegree[i] == 0 {
        UnmetNone(g[i]);
        queue := queue + [i];
      }
    }
    assert forall v :: 0 <= v < |g| ==> inDegree[..][v] == inDegree[v];
  }

  // ---------------------------------------------------------------- why the verdict is right

  /** The queue has run dry: what is in the order has its prerequisites before it, what is not
      waits for something that is not. */
  ghost predicate Drained(g: Graph, order: seq<nat>) {
    && Distinct(order)
    && (forall k :: 0 <= k < |order| ==> order[k] < |g|)
    && PrerequisitesFirst(g, order)
    && (forall v :: 0 <= v < |g| ==> (v in order <==> Unmet(g[v], Elements(order)) == 0))
  }

  function Unordered(n: nat, order: seq<nat>): set<nat> {
    set i | 0 <= i < n && i !in order
  }

  function Range(n: nat): (s: set<nat>)
    ensures |s| == n
    ensures forall i :: i in s <==> 0 <= i < n
  {
    if n == 0 then {} else Range(n - 1) + {n - 1}
  }

  lemma {:induction false} DistinctSize(s: seq<nat>)
    requires Distinct(s)
    ensures |Elements(s)| == |s|
  {
    if s != [] {
      var front, last := s[..|s| - 1], s[|s| - 1];
      DistinctSize(front);
      assert s == front + [last];
      assert Elements(s) == Elements(front) + {last};
    }
  }

  lemma SubsetSize(a: set<nat>, b: set<nat>)
    requires a <= b
    ensures |a| <= |b|
    ensures |a| == |b| ==> a == b
  {
    assert b == a + (b - a);
    assert |b - a| == |b| - |a|;
  }

  /** Distinct numbers below `n` are at most `n`, and all of them exactly if they are `n`. */
  lemma DistinctIsShort(s: seq<nat>, n: nat)
    requires Distinct(s) && forall k :: 0 <= k < |s| ==> s[k] < n
    ensures |s| <= n
    ensures |s| == n <==> Unordered(n, s) == {}
  {
    DistinctSize(s);
    SubsetSize(Elements(s), Range(n));
    assert Unordered(n, s) == Range(n) - Elements(s);
  }

  lemma Verdict(g: Graph, order: seq<nat>)
    requires Closed(g) && Drained(g, order)
    ensures |order| == |g| <==> Acyclic(g)
    ensures |order| == |g| ==> ExecutionOrder(g, order)
    ensures |order| != |g| ==> Knot(g, Unordered(|g|, order))
  {
    DistinctIsShort(order, |g|);
    var s := Unordered(|g|, order);
    if |order| == |g| {
      assert forall i :: 0 <= i < |g| ==> i in order || i in s;
      OrderedIsAcyclic(g, order);
    } else {
      forall i | i in s
        ensures WaitsFor(g, s, i)
      {
        var k :| 0 <= k < |g[i]| && g[i][k] !in Elements(order);
        assert g[i][k] in s && Edge(g, i, g[i][k]);
      }
      KnotHasCycle(g, s);
    }
  }

  /** Along a way through an order, positions go down. */
  lemma {:induction false} PositionsGoDown(g: Graph, order: seq<nat>, p: seq<nat>, k: nat) returns (a: nat, b: nat)
    requires ExecutionOrder(g, order) && IsWalk(g, p) && k < |p| && p[0] < |g|
    ensures b <= a < |order| && order[a] == p[0] && order[b] == p[k]
    ensures k > 0 ==> b < a
    decreases k
  {
    if k == 0 {
      assert p[0] in order;
      a :| 0 <= a < |order| && order[a] == p[0];
      b := a;
    } else {
      var c;
      a, c := PositionsGoDown(g, order, p, k - 1);
      assert Edge(g, p[k - 1], p[k - 1 + 1]);
      assert p[k] in order[..c];
      b :| 0 <= b < c && order[b] == p[k];
    }
  }

  lemma OrderedIsAcyclic(g: Graph, order: seq<nat>)
    requires ExecutionOrder(g, order)
    ensures Acyclic(g)
  {
    forall p | IsCycle(g, p)
      ensures false
    {
      assert Edge(g, p[0], p[0 + 1]);
      var a, b := PositionsGoDown(g, order, p, |p| - 1);
    }
  }

  /** In a knot one can walk on forever. */
  lemma {:induction false} WalkIn(g: Graph, s: set<nat>, n: nat) returns (p: seq<nat>)
    requires Knot(g, s)
    ensures |p| == n + 1 && IsWalk(g, p) && forall k :: 0 <= k <= n ==> p[k] in s
    decreases n
  {
    if n == 0 {
      p := Start(g, s);
    } else {
      var q := WalkIn(g, s, n - 1);
      var j := NextIn(g, s, q[n - 1]);
      p := Extend(g, s, q, j);
    }
  }

  lemma Start(g: Graph, s: set<nat>) returns (p: seq<nat>)
    requires s != {}
    ensures |p| == 1 && IsWalk(g, p) && p[0] in s
  {
    var i :| i in s;
    p := [i];
  }

  lemma Extend(g: Graph, s: set<nat>, p: seq<nat>, j: nat) returns (q: seq<nat>)
    requires p != [] && IsWalk(g, p) && Edge(g, p[|p| - 1], j)
    requires j in s && forall k :: 0 <= k < |p| ==> p[k] in s
    ensures |q| == |p| + 1 && IsWalk(g, q) && forall k :: 0 <= k <= |p| ==> q[k] in s
  {
    q := p + [j];
  }

  lemma NextIn(g: Graph, s: set<nat>, i: nat) returns (j: nat)
    requires Knot(g, s) && i in s
    ensures j in s && Edge(g, i, j)
  {
    assert WaitsFor(g, s, i);
    j :| j in s && Edge(g, i, j);
  }

  lemma Pigeonhole(s: set<nat>, p: seq<nat>)
    requires |p| > |s| && forall k :: 0 <= k < |p| ==> p[k] in s
    ensures !Distinct(p)
  {
    if Distinct(p) {
      DistinctSize(p);
      SubsetSize(Elements(p), s);
    }
  }

  lemma KnotHasCycle(g: Graph, s: set<nat>)
    requires Knot(g, s)
    ensures !Acyclic(g)
  {
    var p := WalkIn(g, s, |s|);
    Pigeonhole(s, p);
    var i, j :| 0 <= i < j < |p| && p[i] == p[j];
    CycleWithin(g, p, i, j);
  }

  lemma CycleWithin(g: Graph, p: seq<nat>, i: nat, j: nat)
    requires IsWalk(g, p) && i < j < |p| && p[i] == p[j]
    ensures !Acyclic(g)
  {
    var c := p[i..j + 1];
    forall k | 0 <= k < |c| - 1
      ensures Edge(g, c[k], c[k + 1])
    {
      assert Edge(g, p[i + k], p[i + k + 1]);
    }
    assert IsCycle(g, c);
  }
}
