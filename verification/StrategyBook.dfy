/** Average-cost positions, kept apart by strategy (src/isolation/strategy_book.cpp). Quantities and
    paise are unbounded integers. */
module StrategyBook {
  import opened Arithmetic
  import opened Domain

  datatype Position = Position(netQty: int, avgCost: int, realizedPnl: int)

  const FLAT := Position(0, 0, 0)

  datatype StrategyState = StrategyState(positions: map<string, Position>, active: bool, tag: string)

  type Book = map<string, StrategyState>

  datatype Fill = Fill(strategy: string, symbol: string, side: Side, qty: int, price: int)

  datatype FlattenLeg = FlattenLeg(symbol: string, qty: int, side: Side)

  /** Integer division as the source language has it: the fraction is dropped. */
  function TruncDiv(a: int, b: int): int
    requires b > 0
  {
    if a >= 0 then a / b else -((-a) / b)
  }

  function Sign(x: int): int {
    if x > 0 then 1 else if x < 0 then -1 else 0
  }

  /** Bought counts up, sold counts down. */
  function SignedQty(side: Side, qty: int): int {
    if side.Buy? then qty else -qty
  }

  predicate Opens(net: int, f: int) {
    net == 0 || (net > 0 <==> f > 0)
  }

  /** A position after a signed fill. */
  function AfterFill(p: Position, f: int, price: int): Position {
    var n := p.netQty;
    if f == 0 then p
    else if Opens(n, f) then
      p.(avgCost := TruncDiv(Abs(n) * p.avgCost + Abs(f) * price, Abs(n) + Abs(f)), netQty := n + f)
    else
      var closed := if Abs(f) < Abs(n) then Abs(f) else Abs(n);
      Position(n + f,
               if n + f == 0 then 0 else if Abs(f) > Abs(n) then price else p.avgCost,
               p.realizedPnl + (price - p.avgCost) * closed * Sign(n))
  }

  function Get(book: Book, strategy: string, symbol: string): Position {
    if strategy in book && symbol in book[strategy].positions then book[strategy].positions[symbol] else FLAT
  }

  function StateOf(book: Book, strategy: string): StrategyState {
    if strategy in book then book[strategy] else StrategyState(map[], true, "")
  }

  /** The leg that closes a net quantity. */
  function Closing(symbol: string, net: int): FlattenLeg {
    FlattenLeg(symbol, Abs(net), if net > 0 then Sell else Buy)
  }

  function Flattened(p: Position): Position {
    if p.netQty == 0 then p else p.(netQty := 0, avgCost := 0)
  }

  function FlattenedAll(positions: map<string, Position>): (r: map<string, Position>)
    ensures r.Keys == positions.Keys
  {
    map symbol | symbol in positions :: Flattened(positions[symbol])
  }

  /** A flattened position holds nothing and keeps what it realized; one that was flat is as it was. */
  lemma FlattenedSays(positions: map<string, Position>, y: string)
    requires y in positions
    ensures FlattenedAll(positions)[y]
         == Position(0, if positions[y].netQty == 0 then positions[y].avgCost else 0, positions[y].realizedPnl)
  {
  }

  /** `q` is `total` divided by `size` with the fraction dropped. */
  predicate IsAverage(total: int, size: int, q: int) {
    var left := total - q * size;
    -size < left < size && (total >= 0 ==> left >= 0) && (total <= 0 ==> left <= 0)
  }

  /** What a fill of signed quantity `f` does to a position, by what it closes: nothing, so that it is
      averaged in; part of the position or all of it; or more, so that the rest opens the other side. */
  predicate FillSays(p: Position, f: int, price: int, q: Position) {
    var n, gain := p.netQty, price - p.avgCost;
    && q.netQty == n + f
    && if f == 0 then q == p
       else if n >= 0 && f > 0 then
         q.realizedPnl == p.realizedPnl && IsAverage(n * p.avgCost + f * price, n + f, q.avgCost)
       else if n <= 0 && f < 0 then
         q.realizedPnl == p.realizedPnl && IsAverage(-n * p.avgCost + -f * price, -n + -f, q.avgCost)
       else if n > 0 then
         if -f <= n then q.realizedPnl == p.realizedPnl + gain * -f && q.avgCost == if -f == n then 0 else p.avgCost
         else q.realizedPnl == p.realizedPnl + gain * n && q.avgCost == price
       else
         if f <= -n then q.realizedPnl == p.realizedPnl - gain * f && q.avgCost == if f == -n then 0 else p.avgCost
         else q.realizedPnl == p.realizedPnl - gain * -n && q.avgCost == price
  }

  lemma TruncDivIff(total: int, size: int, q: int)
    requires size > 0
    ensures q == TruncDiv(total, size) <==> IsAverage(total, size, q)
  {
    var left := total - q * size;
    if total >= 0 {
      if 0 <= left < size {
        Quotient(total, size, q, left);
      }
      assert total == size * (total / size) + total % size;
    } else {
      if -size < left <= 0 {
        assert -q * size == -(q * size);
        Quotient(-total, size, -q, -left);
      }
      assert -total == size * (-total / size) + -total % size;
      assert -(-total / size) * size == -(-total / size * size);
    }
  }

  lemma SignedGain(gain: int, m: int)
    ensures gain * m * 1 == gain * m && gain * m * -1 == -(gain * m)
  {
  }

  /** A position behind a fill is the one the fill's case says, and no other. */
  lemma AfterFillIff(p: Position, f: int, price: int, q: Position)
    ensures q == AfterFill(p, f, price) <==> FillSays(p, f, price, q)
  {
    var n := p.netQty;
    if f == 0 {
    } else if Opens(n, f) {
      TruncDivIff(Abs(n) * p.avgCost + Abs(f) * price, Abs(n) + Abs(f), q.avgCost);
    } else {
      SignedGain(price - p.avgCost, if Abs(f) < Abs(n) then Abs(f) else Abs(n));
    }
  }

  /** A fill changes the position it is for, and no other. */
  ghost predicate Booked(before: Book, after: Book, fill: Fill) {
    && before.Keys <= after.Keys
    && Get(after, fill.strategy, fill.symbol)
       == AfterFill(Get(before, fill.strategy, fill.symbol), SignedQty(fill.side, fill.qty), fill.price)
    && forall s, y :: s != fill.strategy || y != fill.symbol ==> Get(after, s, y) == Get(before, s, y)
  }

  predicate SameFlags(before: Book, after: Book) {
    forall s :: s in before && s in after ==> after[s].active == before[s].active && after[s].tag == before[s].tag
  }

  // ---------------------------------------------------------------- sums over strategies

  ghost function Sum(ids: set<string>, g: string -> int): int {
    if ids == {} then 0
    else
      var x :| x in ids;
      g(x) + Sum(ids - {x}, g)
  }

  /** The order of summation does not matter. */
  lemma {:induction false} SumPick(ids: set<string>, x: string, g: string -> int)
    requires x in ids
    ensures Sum(ids, g) == g(x) + Sum(ids - {x}, g)
    decreases |ids|
  {
    var y :| y in ids && Sum(ids, g) == g(y) + Sum(ids - {y}, g);
    if y != x {
      SumPick(ids - {y}, x, g);
      SumPick(ids - {x}, y, g);
      assert ids - {y} - {x} == ids - {x} - {y};
    }
  }

  lemma {:induction false} SumEqual(ids: set<string>, g: string -> int, k: string -> int)
    requires forall x :: x in ids ==> g(x) == k(x)
    ensures Sum(ids, g) == Sum(ids, k)
    decreases |ids|
  {
    if ids != {} {
      var x :| x in ids;
      SumPick(ids, x, g);
      SumPick(ids, x, k);
      SumEqual(ids - {x}, g, k);
    }
  }

  function NetIn(book: Book, symbol: string): string -> int {
    id => Get(book, id, symbol).netQty
  }

  /** The account's net quantity in a symbol. */
  ghost function AccountNet(book: Book, symbol: string): int {
    Sum(book.Keys, NetIn(book, symbol))
  }

  function Amount(net: map<string, int>, symbol: string): int {
    if symbol in net then net[symbol] else 0
  }

  /** One strategy's positions are added to the account's net quantities. */
  method AddPositions(net: map<string, int>, positions: map<string, Position>) returns (net': map<string, int>)
    ensures forall y :: Amount(net', y) == Amount(net, y) + if y in positions then positions[y].netQty else 0
  {
    net' := net;
    var left := positions.Keys;
    while left != {}
      invariant left <= positions.Keys
      invariant forall y ::
        Amount(net', y) == Amount(net, y) + if y in positions && y !in left then positions[y].netQty else 0
      decreases |left|
    {
      var symbol :| symbol in left;
      left := left - {symbol};
      net' := net'[symbol := Amount(net', symbol) + positions[symbol].netQty];
    }
  }

  /** The account's net quantities, summed over all strategies. */
  method NetAll(book: Book) returns (net: map<string, int>)
    ensures forall y :: Amount(net, y) == AccountNet(book, y)
  {
    net := map[];
    var left := book.Keys;
    assert book.Keys - left == {};
    while left != {}
      invariant left <= book.Keys
      invariant forall y :: Amount(net, y) == Sum(book.Keys - left, NetIn(book, y))
      decreases |left|
    {
      var id :| id in left;
      ghost var done := book.Keys - left;
      left := left - {id};
      var net' := AddPositions(net, book[id].positions);
      assert book.Keys - left == done + {id} && done + {id} - {id} == done;
      forall y
        ensures Amount(net', y) == Sum(book.Keys - left, NetIn(book, y))
      {
        SumPick(done + {id}, id, NetIn(book, y));
      }
      net := net';
    }
    assert book.Keys - left == book.Keys;
  }

  class StrategyBook {
    var strategies: Book

    constructor ()
      ensures strategies == map[]
    {
      strategies := map[];
    }

    method ApplyFill(strategy: string, symbol: string, side: Side, qty: int, price: int)
      modifies this
      ensures SignedQty(side, qty) == 0 ==> strategies == old(strategies)
      ensures Booked(old(strategies), strategies, Fill(strategy, symbol, side, qty, price))
      ensures FillSays(Get(old(strategies), strategy, symbol), if side.Buy? then qty else -qty, price,
                       Get(strategies, strategy, symbol))
      ensures SameFlags(old(strategies), strategies)
    {
      var f := if side.Buy? then qty else -qty;
      if f == 0 {
        AfterFillIff(Get(strategies, strategy, symbol), f, price, Get(strategies, strategy, symbol));
        return;
      }
      var state := StateOf(strategies, strategy);
      var pos := if symbol in state.positions then state.positions[symbol] else FLAT;
      AfterFillIff(pos, f, price, AfterFill(pos, f, price));
      pos := FillPosition(pos, f, price);
      strategies := strategies[strategy := state.(positions := state.positions[symbol := pos])];
    }

    /** Blend a fill into a position, or close what it covers and reverse with the rest. */
    static method FillPosition(p: Position, f: int, price: int) returns (pos: Position)
      requires f != 0
      ensures pos == AfterFill(p, f, price)
    {
      pos := p;
      var n := pos.netQty;
      if n == 0 || (n > 0 <==> f > 0) {
        var blended := TruncDiv(Abs(n) * pos.avgCost + Abs(f) * price, Abs(n) + Abs(f));
        pos := pos.(avgCost := blended, netQty := n + f);
      } else {
        var closed := if Abs(f) < Abs(n) then Abs(f) else Abs(n);
        var sign := if n > 0 then 1 else -1;
        pos := pos.(realizedPnl := pos.realizedPnl + (price - pos.avgCost) * closed * sign, netQty := n + f);
        if pos.netQty == 0 {
          pos := pos.(avgCost := 0);
        } else if Abs(f) > Abs(n) {
          pos := pos.(avgCost := price);
        }
      }
    }

    /** Square off one strategy alone: a leg for each of its open positions, and no other
        strategy is read or changed. */
    method SquareOffIsolated(strategy: string) returns (legs: seq<FlattenLeg>)
      modifies this
      ensures Closes(legs, NetsOf(old(strategies), strategy))
      ensures strategies.Keys == old(strategies).Keys
      ensures forall s :: s in strategies && s != strategy ==> strategies[s] == old(strategies)[s]
      ensures strategy in strategies ==>
        strategies[strategy]
        == old(strategies)[strategy].(positions := FlattenedAll(old(strategies)[strategy].positions))
    {
      legs := [];
      if strategy !in strategies {
        return;
      }
      var state := strategies[strategy];
      var positions;
      legs, positions := FlattenPositions(state.positions);
      ClosesSame(legs, NetOf(state.positions), NetsOf(strategies, strategy));
      strategies := strategies[strategy := state.(positions := positions)];
    }

    /** Square off the account: one leg per symbol with a net quantity, and every strategy is flat. */
    method SquareOffNetted() returns (legs: seq<FlattenLeg>)
      modifies this
      ensures ClosesAccount(legs, old(strategies))
      ensures strategies.Keys == old(strategies).Keys
      ensures forall s :: s in strategies ==>
        strategies[s] == old(strategies)[s].(positions := FlattenedAll(old(strategies)[s].positions))
    {
      var net := NetAll(strategies);
      legs := LegsFor(net);
      ClosesSame(legs, AmountsOf(net), AccountNets(strategies));
      var ids := strategies.Keys;
      ghost var was := strategies;
      while ids != {}
        invariant ids <= strategies.Keys == was.Keys
        invariant forall s :: s in was ==>
          strategies[s] == if s in ids then was[s] else was[s].(positions := FlattenedAll(was[s].positions))
        decreases |ids|
      {
        var id :| id in ids;
        ids := ids - {id};
        strategies := strategies[id := strategies[id].(positions := FlattenedAll(strategies[id].positions))];
      }
    }

    /** An unknown strategy is active. */
    function IsActive(strategy: string): bool
      reads this
    {
      StateOf(strategies, strategy).active
    }

    method SetActive(strategy: string, active: bool)
      modifies this
      ensures IsActive(strategy) == active
      ensures forall s, y :: Get(strategies, s, y) == Get(old(strategies), s, y)
      ensures forall s :: s != strategy ==> StateOf(strategies, s) == StateOf(old(strategies), s)
    {
      strategies := strategies[strategy := StateOf(strategies, strategy).(active := active)];
    }
  }

  function NetOf(positions: map<string, Position>): string -> int {
    y => if y in positions then positions[y].netQty else 0
  }

  /** One strategy's net quantities. */
  function NetsOf(book: Book, strategy: string): string -> int {
    y => Get(book, strategy, y).netQty
  }

  /** Flatten every open position of one strategy, with a leg for each. */
  method FlattenPositions(was: map<string, Position>) returns (legs: seq<FlattenLeg>, positions: map<string, Position>)
    ensures positions == FlattenedAll(was) && Closes(legs, NetOf(was))
  {
    legs, positions := [], was;
    var left := was.Keys;
    while left != {}
      invariant left <= was.Keys == positions.Keys
      invariant forall y :: y in was ==> positions[y] == if y in left then was[y] else Flattened(was[y])
      invariant OncePerSymbol(legs)
      invariant forall k :: 0 <= k < |legs| ==>
        legs[k].symbol in was && legs[k].symbol !in left && was[legs[k].symbol].netQty != 0
        && legs[k] == Closing(legs[k].symbol, was[legs[k].symbol].netQty)
      invariant forall y :: y in was && y !in left && was[y].netQty != 0 ==> Closing(y, was[y].netQty) in legs
      decreases |left|
    {
      var symbol :| symbol in left;
      left := left - {symbol};
      var pos := positions[symbol];
      if pos.netQty != 0 {
        legs := legs + [FlattenLeg(symbol, Abs(pos.netQty), if pos.netQty > 0 then Sell else Buy)];
        positions := positions[symbol := pos.(netQty := 0, avgCost := 0)];
      }
    }
  }

  /** One leg for every symbol with a net quantity. */
  method LegsFor(net: map<string, int>) returns (legs: seq<FlattenLeg>)
    ensures Closes(legs, AmountsOf(net))
  {
    legs := [];
    var left := net.Keys;
    while left != {}
      invariant left <= net.Keys
      invariant OncePerSymbol(legs)
      invariant forall k :: 0 <= k < |legs| ==>
        legs[k].symbol in net && legs[k].symbol !in left && net[legs[k].symbol] != 0
        && legs[k] == Closing(legs[k].symbol, net[legs[k].symbol])
      invariant forall y :: y in net && y !in left && net[y] != 0 ==> Closing(y, net[y]) in legs
      decreases |left|
    {
      var symbol :| symbol in left;
      left := left - {symbol};
      if net[symbol] != 0 {
        legs := legs + [FlattenLeg(symbol, Abs(net[symbol]), if net[symbol] > 0 then Sell else Buy)];
      }
    }
  }

  function AmountsOf(net: map<string, int>): string -> int {
    y => Amount(net, y)
  }

  // ---------------------------------------------------------------- what legs close

  predicate OncePerSymbol(legs: seq<FlattenLeg>) {
    forall j, k :: 0 <= j < k < |legs| ==> legs[j].symbol != legs[k].symbol
  }

  /** What the legs do to the net quantity of a symbol. */
  function Traded(legs: seq<FlattenLeg>, symbol: string): int {
    if legs == [] then 0
    else
      (if legs[0].symbol == symbol then SignedQty(legs[0].side, legs[0].qty) else 0) + Traded(legs[1..], symbol)
  }

  /** The legs bring every symbol from `net` to zero, one leg each, and touch nothing else. */
  ghost predicate Closes(legs: seq<FlattenLeg>, net: string -> int) {
    && OncePerSymbol(legs)
    && (forall k :: 0 <= k < |legs| ==>
          net(legs[k].symbol) != 0 && legs[k] == Closing(legs[k].symbol, net(legs[k].symbol)))
    && (forall y :: net(y) != 0 ==> Closing(y, net(y)) in legs)
  }

  ghost predicate ClosesAccount(legs: seq<FlattenLeg>, book: Book) {
    Closes(legs, AccountNets(book))
  }

  ghost function AccountNets(book: Book): string -> int {
    y => AccountNet(book, y)
  }

  lemma ClosesSame(legs: seq<FlattenLeg>, net: string -> int, net': string -> int)
    requires Closes(legs, net) && forall y :: net(y) == net'(y)
    ensures Closes(legs, net')
  {
  }

  lemma {:induction false} TradedOf(legs: seq<FlattenLeg>, symbol: string)
    requires OncePerSymbol(legs)
    ensures (forall k :: 0 <= k < |legs| ==> legs[k].symbol != symbol) ==> Traded(legs, symbol) == 0
    ensures forall k :: 0 <= k < |legs| && legs[k].symbol == symbol ==>
      Traded(legs, symbol) == SignedQty(legs[k].side, legs[k].qty)
  {
    if legs != [] {
      TradedOf(legs[1..], symbol);
      assert forall k :: 1 <= k < |legs| ==> legs[k] == legs[1..][k - 1];
    }
  }

  /** Executing the legs of a square-off leaves a net of exactly zero in every symbol. */
  lemma LegsCancelNet(legs: seq<FlattenLeg>, net: string -> int, symbol: string)
    requires Closes(legs, net)
    ensures net(symbol) + Traded(legs, symbol) == 0
  {
    TradedOf(legs, symbol);
    if net(symbol) != 0 {
      var k :| 0 <= k < |legs| && legs[k] == Closing(symbol, net(symbol));
    }
  }

  // ---------------------------------------------------------------- cash conservation

  /** Signed fills on one position, with their prices. */
  type Trades = seq<(int, int)>

  function After(ts: Trades): Position {
    if ts == [] then FLAT
    else AfterFill(After(ts[..|ts| - 1]), ts[|ts| - 1].0, ts[|ts| - 1].1)
  }

  /** What the fills paid out and took in. */
  function Cash(ts: Trades): int {
    if ts == [] then 0 else Cash(ts[..|ts| - 1]) - ts[|ts| - 1].0 * ts[|ts| - 1].1
  }

  function NetOfTrades(ts: Trades): int {
    if ts == [] then 0 else NetOfTrades(ts[..|ts| - 1]) + ts[|ts| - 1].0
  }

  /** What the division of an average drops when a fill is blended in. */
  function Dropped(p: Position, f: int, price: int): int {
    if f == 0 || !Opens(p.netQty, f) then 0
    else
      var total := Abs(p.netQty) * p.avgCost + Abs(f) * price;
      total - (Abs(p.netQty) + Abs(f)) * TruncDiv(total, Abs(p.netQty) + Abs(f))
  }

  /** All that was dropped, with the side it was dropped on. */
  function Drift(ts: Trades): int {
    if ts == [] then 0
    else
      var p, f, price := After(ts[..|ts| - 1]), ts[|ts| - 1].0, ts[|ts| - 1].1;
      Drift(ts[..|ts| - 1]) + Sign(p.netQty + f) * Dropped(p, f, price)
  }

  /** The bound: for every fill that adds to an open position, one less than its new size. */
  function Bound(ts: Trades): nat {
    if ts == [] then 0
    else
      var n, f := After(ts[..|ts| - 1]).netQty, ts[|ts| - 1].0;
      Bound(ts[..|ts| - 1]) + if n != 0 && f != 0 && Opens(n, f) then Abs(n + f) - 1 else 0
  }

  lemma TruncDivRemainder(a: int, b: int)
    requires b > 0
    ensures Abs(a - b * TruncDiv(a, b)) < b
  {
    if a < 0 {
      assert -a == b * ((-a) / b) + (-a) % b;
    }
  }

  lemma TruncDivExact(a: int, b: int)
    requires b > 0
    ensures TruncDiv(b * a, b) == a
  {
    if a >= 0 {
      MultipleOf(b, a);
    } else {
      MultipleOf(b, -a);
    }
  }

  /** What a blend drops is less than the new size, and nothing when the position was flat. */
  lemma DroppedIsSmall(p: Position, f: int, price: int)
    requires f != 0 && Opens(p.netQty, f)
    ensures Abs(Dropped(p, f, price)) <= Abs(p.netQty + f) - 1
    ensures p.netQty == 0 ==> Dropped(p, f, price) == 0
  {
    var total := Abs(p.netQty) * p.avgCost + Abs(f) * price;
    TruncDivRemainder(total, Abs(p.netQty) + Abs(f));
    if p.netQty == 0 {
      assert total == Abs(f) * price;
      TruncDivExact(price, Abs(f));
    }
  }

  /** The value of a position at cost. */
  function AtCost(p: Position): int {
    p.netQty * p.avgCost
  }

  lemma BlendKeepsCash(p: Position, f: int, price: int)
    requires f != 0 && Opens(p.netQty, f)
    ensures var q := AfterFill(p, f, price);
      AtCost(q) == AtCost(p) + f * price - Sign(p.netQty + f) * Dropped(p, f, price) && q.realizedPnl == p.realizedPnl
  {
    var n := p.netQty;
    var s := Sign(n + f);
    var b := TruncDiv(Abs(n) * p.avgCost + Abs(f) * price, Abs(n) + Abs(f));
    assert Abs(n) == s * n && Abs(f) == s * f;
    SignedBlend(n, f, p.avgCost, price, b, s);
  }

  lemma SignedBlend(n: int, f: int, a: int, price: int, b: int, s: int)
    requires s == 1 || s == -1
    ensures var total, size := (s * n) * a + (s * f) * price, s * n + s * f;
      (n + f) * b == n * a + f * price - s * (total - size * b)
  {
    Distribute(n, f, b);
    if s == -1 {
      assert (-n) * a == -(n * a) && (-f) * price == -(f * price);
      assert (-n + -f) * b == -((n + f) * b);
    }
  }

  lemma Distribute(x: int, y: int, z: int)
    ensures (x + y) * z == x * z + y * z
  {
  }

  /** What closing `m` of a position of sign `s` realizes. */
  lemma Realized(price: int, a: int, m: int, s: int, f: int)
    requires m * s == -f
    ensures (price - a) * m * s == f * a - f * price
  {
    assert (price - a) * m * s == (price - a) * (m * s);
    Distribute(price, -a, -f);
    assert price * -f == -(f * price) && -a * -f == f * a;
  }

  lemma CloseKeepsCash(p: Position, f: int, price: int)
    requires f != 0 && !Opens(p.netQty, f)
    ensures var q := AfterFill(p, f, price);
      q.realizedPnl - AtCost(q) == p.realizedPnl - AtCost(p) - f * price
  {
    var n, a := p.netQty, p.avgCost;
    if Abs(f) <= Abs(n) {
      assert Abs(f) * Sign(n) == -f;
      Realized(price, a, Abs(f), Sign(n), f);
      Distribute(n, f, a);
      assert n + f == 0 ==> (n + f) * a == 0;
    } else {
      assert Abs(n) * Sign(n) == n;
      Realized(price, a, Abs(n), Sign(n), -n);
      assert -n * a == -(n * a) && -n * price == -(n * price);
      Distribute(n, f, price);
    }
  }

  /** Cash is conserved, exactly: realized profit differs from cash plus the position at cost by
      what the divisions dropped and by nothing else; so it is exact if no fill ever added to an
      open position. The net quantity is the sum of the fills, and a flat position has no cost. */
  lemma {:induction false} CashIsConserved(ts: Trades)
    ensures var p := After(ts);
      && p.realizedPnl - (Cash(ts) + AtCost(p)) == Drift(ts)
      && Abs(Drift(ts)) <= Bound(ts)
      && p.netQty == NetOfTrades(ts)
      && (p.netQty == 0 ==> p.avgCost == 0)
  {
    if ts != [] {
      var p, f, price := After(ts[..|ts| - 1]), ts[|ts| - 1].0, ts[|ts| - 1].1;
      CashIsConserved(ts[..|ts| - 1]);
      if f != 0 {
        if Opens(p.netQty, f) {
          BlendKeepsCash(p, f, price);
          DroppedIsSmall(p, f, price);
          var s, d := Sign(p.netQty + f), Dropped(p, f, price);
          assert s * d == d || s * d == -d;
        } else {
          CloseKeepsCash(p, f, price);
        }
      }
    }
  }

  // ---------------------------------------------------------------- isolation

  /** The fills of one strategy in one symbol. */
  function Own(fills: seq<Fill>, strategy: string, symbol: string): Trades {
    if fills == [] then []
    else
      var last := fills[|fills| - 1];
      Own(fills[..|fills| - 1], strategy, symbol)
      + if last.strategy == strategy && last.symbol == symbol
        then [(SignedQty(last.side, last.qty), last.price)] else []
  }

  /** Over any run of fills for any strategies, a position is what its own fills make it. */
  lemma {:induction false} PositionFollowsOwnFills(books: seq<Book>, fills: seq<Fill>, strategy: string, symbol: string)
    requires |books| == |fills| + 1 && books[0] == map[]
    requires forall k :: 0 <= k < |fills| ==> Booked(books[k], books[k + 1], fills[k])
    ensures Get(books[|fills|], strategy, symbol) == After(Own(fills, strategy, symbol))
    decreases |fills|
  {
    if fills != [] {
      var n := |fills| - 1;
      PositionFollowsOwnFills(books[..n + 1], fills[..n], strategy, symbol);
      assert Booked(books[n], books[n + 1], fills[n]);
      var own := Own(fills[..n], strategy, symbol);
      if fills[n].strategy == strategy && fills[n].symbol == symbol {
        var t := (SignedQty(fills[n].side, fills[n].qty), fills[n].price);
        assert (own + [t])[..|own|] == own;
      } else {
        assert own + [] == own;
      }
    }
  }
}
