/** The token bucket (src/ratelimit/rate_limiter.cpp). Times are integers in the clock's own unit.
    The bucket is refilled lazily, on the calls; it is shown to decide exactly as a bucket that is
    refilled by one token at every tick of its period. */
module RateLimiter {
  import opened Arithmetic

  /** One call: the clock reading, and whether it is for an exit. */
  datatype Call = Call(now: int, isExit: bool)

  datatype Settings = Settings(capacity: nat, reserved: nat, period: nat, start: int)

  /** The constructor's clamps: no negative capacity, a reserve within it, and no refill for a
      period that is not positive. */
  function Clamped(capacity: int, period: int, reserved: int, start: int): (s: Settings)
    ensures s.reserved <= s.capacity
  {
    var c := if capacity < 0 then 0 else capacity;
    Settings(c, if reserved < 0 then 0 else if reserved > c then c else reserved,
             if period > 0 then period else 0, start)
  }

  // ---------------------------------------------------------------- the eager bucket

  /** A bucket that counts its ticks. */
  datatype Bucket = Bucket(tokens: nat, ticks: nat)

  /** One tick adds one token, up to the capacity. */
  function Tick(s: Settings, b: Bucket): Bucket {
    Bucket(if b.tokens < s.capacity then b.tokens + 1 else b.tokens, b.ticks + 1)
  }

  function Ticks(s: Settings, b: Bucket, n: nat): Bucket {
    if n == 0 then b else Tick(s, Ticks(s, b, n - 1))
  }

  /** How many ticks there have been by `now`. */
  function TicksBy(s: Settings, now: int): nat {
    if s.period == 0 || now <= s.start then 0 else (now - s.start) / s.period
  }

  /** A negative capacity counts as none; the reserve is what was asked for as far as the capacity goes;
      and without a positive period there never is a tick. */
  lemma ClampedSays(capacity: int, period: int, reserved: int, start: int, now: int)
    ensures var s := Clamped(capacity, period, reserved, start);
      && s.start == start
      && (s.capacity == capacity || (s.capacity == 0 && capacity < 0))
      && (|| s.reserved == reserved
          || (s.reserved == 0 && reserved < 0)
          || (s.reserved == s.capacity && reserved > s.capacity))
      && (period > 0 ==> s.period == period)
      && (period <= 0 ==> TicksBy(s, now) == 0)
  {
  }

  /** The bucket with every tick up to `now`; a clock that went back brings none. */
  function Advanced(s: Settings, b: Bucket, now: int): Bucket {
    var due := TicksBy(s, now);
    if due > b.ticks then Ticks(s, b, due - b.ticks) else b
  }

  function Floor(s: Settings, isExit: bool): nat {
    if isExit then 0 else s.reserved
  }

  function Grants(s: Settings, b: Bucket, c: Call): bool {
    Advanced(s, b, c.now).tokens > Floor(s, c.isExit)
  }

  function AfterCall(s: Settings, b: Bucket, c: Call): Bucket {
    var b' := Advanced(s, b, c.now);
    if b'.tokens > Floor(s, c.isExit) then b'.(tokens := b'.tokens - 1) else b'
  }

  /** Ticks in one go. */
  lemma {:induction false} TicksAtOnce(s: Settings, b: Bucket, n: nat)
    requires b.tokens <= s.capacity
    ensures Ticks(s, b, n)
      == Bucket(if n < s.capacity - b.tokens then b.tokens + n else s.capacity, b.ticks + n)
  {
    if n > 0 {
      TicksAtOnce(s, b, n - 1);
    }
  }

  // ---------------------------------------------------------------- the lazy bucket

  class RateLimiter {
    const capacity: nat
    const reservedExit: nat
    const refillPeriod: nat
    var tokens: nat
    var lastRefill: int
    ghost const settings: Settings
    ghost var ticks: nat

    /** The bucket this limiter stands for. */
    ghost function AsBucket(): Bucket
      reads this
    {
      Bucket(tokens, ticks)
    }

    ghost predicate Valid()
      reads this
    {
      && settings == Settings(capacity, reservedExit, refillPeriod, settings.start)
      && reservedExit <= capacity && tokens <= capacity
      && lastRefill == settings.start + ticks * refillPeriod
    }

    constructor (now: int, capacity: int, refillPeriod: int, reservedExit: int)
      ensures Valid() && settings == Clamped(capacity, refillPeriod, reservedExit, now)
      ensures AsBucket() == Bucket(settings.capacity, 0)
    {
      var c := if capacity < 0 then 0 else capacity;
      this.capacity := c;
      this.reservedExit := if reservedExit < 0 then 0 else if reservedExit > c then c else reservedExit;
      this.refillPeriod := if refillPeriod > 0 then refillPeriod else 0;
      tokens := c;
      lastRefill := now;
      settings := Clamped(capacity, refillPeriod, reservedExit, now);
      ticks := 0;
    }

    /** Credit the whole periods that have passed, and keep the remainder of time. */
    method Refill(now: int)
      requires Valid()
      modifies this`tokens, this`lastRefill, this`ticks
      ensures Valid() && AsBucket() == Advanced(settings, old(AsBucket()), now)
    {
      if refillPeriod == 0 {
        return;
      }
      var elapsed := now - lastRefill;
      if elapsed <= 0 {
        NoTickYet(settings, ticks, now, elapsed);
        return;
      }
      var wholePeriods := elapsed / refillPeriod;
      WholePeriods(settings, ticks, now, elapsed, wholePeriods);
      if wholePeriods <= 0 {
        return;
      }
      TicksAtOnce(settings, AsBucket(), wholePeriods);
      var headroom := capacity - tokens;
      if headroom > 0 {
        var gain := if wholePeriods < headroom then wholePeriods else headroom;
        tokens := tokens + gain;
      }
      lastRefill := lastRefill + wholePeriods * refillPeriod;
      ticks := ticks + wholePeriods;
    }

    /** An entry leaves the reserve alone; an exit may use it. */
    method TryAcquire(now: int, isExit: bool) returns (granted: bool)
      requires Valid()
      modifies this`tokens, this`lastRefill, this`ticks
      ensures Valid()
      ensures granted == Grants(settings, old(AsBucket()), Call(now, isExit))
      ensures AsBucket() == AfterCall(settings, old(AsBucket()), Call(now, isExit))
    {
      Refill(now);
      var floor := if isExit then 0 else reservedExit;
      if tokens > floor {
        tokens := tokens - 1;
        return true;
      }
      return false;
    }

    /** What a lane could take as of the last refill. */
    method Available(isExit: bool) returns (n: nat)
      ensures var floor := if isExit then 0 else reservedExit; n == if tokens > floor then tokens - floor else 0
    {
      var floor := if isExit then 0 else reservedExit;
      n := if tokens > floor then tokens - floor else 0;
    }
  }

  lemma NoTickYet(s: Settings, ticks: nat, now: int, elapsed: int)
    requires s.period > 0 && elapsed == now - (s.start + ticks * s.period) && elapsed <= 0
    ensures TicksBy(s, now) <= ticks
  {
    if now > s.start {
      OneMore(ticks, s.period);
      QuotientBelow(now - s.start, s.period, ticks + 1);
    }
  }

  lemma WholePeriods(s: Settings, ticks: nat, now: int, elapsed: int, whole: int)
    requires s.period > 0 && elapsed == now - (s.start + ticks * s.period) && elapsed > 0
    requires whole == elapsed / s.period
    ensures whole >= 0 && TicksBy(s, now) == ticks + whole
    ensures s.start + ticks * s.period + whole * s.period == s.start + (ticks + whole) * s.period
  {
    assert ticks * s.period >= 0;
    QuotientShift(elapsed, s.period, ticks);
  }

  // ---------------------------------------------------------------- runs of calls

  function Run(s: Settings, b: Bucket, calls: seq<Call>): Bucket {
    if calls == [] then b else AfterCall(s, Run(s, b, calls[..|calls| - 1]), calls[|calls| - 1])
  }

  function Granted(s: Settings, b: Bucket, calls: seq<Call>): nat {
    if calls == [] then 0
    else
      var front := calls[..|calls| - 1];
      Granted(s, b, front) + if Grants(s, Run(s, b, front), calls[|calls| - 1]) then 1 else 0
  }

  function Latest(a: nat, b: nat): nat {
    if a < b then b else a
  }

  lemma AdvancedSays(s: Settings, b: Bucket, now: int)
    requires b.tokens <= s.capacity
    ensures var b' := Advanced(s, b, now);
      && b'.tokens <= s.capacity && b'.ticks == Latest(b.ticks, TicksBy(s, now))
      && b.tokens <= b'.tokens <= b.tokens + (b'.ticks - b.ticks)
  {
    var due := TicksBy(s, now);
    if due > b.ticks {
      TicksAtOnce(s, b, due - b.ticks);
    }
  }

  /** Tokens are conserved: what was granted and what is left come from what there was and the
      ticks that have passed. */
  lemma {:induction false} TokensAreConserved(s: Settings, b: Bucket, calls: seq<Call>)
    requires b.tokens <= s.capacity
    ensures var b' := Run(s, b, calls);
      && b'.tokens <= s.capacity && b'.ticks >= b.ticks
      && Granted(s, b, calls) + b'.tokens <= b.tokens + (b'.ticks - b.ticks)
  {
    if calls != [] {
      var front, last := calls[..|calls| - 1], calls[|calls| - 1];
      TokensAreConserved(s, b, front);
      AdvancedSays(s, Run(s, b, front), last.now);
    }
  }

  /** There is no drift: the ticks credited are those of the latest time seen, whatever the calls
      and their spacing were. */
  lemma {:induction false} NoDrift(s: Settings, b: Bucket, calls: seq<Call>)
    requires b.tokens <= s.capacity
    ensures forall k :: 0 <= k < |calls| ==> TicksBy(s, calls[k].now) <= Run(s, b, calls).ticks
    ensures Run(s, b, calls).ticks == b.ticks
      || exists k :: 0 <= k < |calls| && Run(s, b, calls).ticks == TicksBy(s, calls[k].now)
  {
    if calls != [] {
      var front, last := calls[..|calls| - 1], calls[|calls| - 1];
      NoDrift(s, b, front);
      TokensAreConserved(s, b, front);
      AdvancedSays(s, Run(s, b, front), last.now);
      assert forall k :: 0 <= k < |front| ==> calls[k] == front[k];
      if Run(s, b, calls).ticks == TicksBy(s, last.now) {
        assert calls[|calls| - 1] == last;
      }
    }
  }

  /** A window of length `w` sees at most one tick more than whole periods fit into it. */
  lemma TicksInWindow(s: Settings, from: int, to: int)
    requires s.period > 0 && from <= to
    ensures TicksBy(s, to) <= TicksBy(s, from) + (to - from) / s.period + 1
  {
    var p, w := s.period, to - from;
    if to > s.start {
      var x := if from > s.start then from - s.start else 0;
      assert to - s.start <= x + w;
      assert x == p * (x / p) + x % p && w == p * (w / p) + w % p;
      var q := x / p + w / p + 1;
      assert (q + 1) * p == p * (x / p) + p * (w / p) + 2 * p;
      QuotientBelow(to - s.start, p, q + 1);
    } else {
      assert w / p >= 0;
    }
  }

  /** In any stretch of calls whose clock readings lie in a window, at most the capacity plus one
      token for each whole period of the window plus one is granted; without refill, at most the
      capacity. Earlier calls, and clocks that jump back, make no difference. */
  lemma WindowBound(s: Settings, b: Bucket, calls: seq<Call>, from: int, to: int)
    requires b.tokens <= s.capacity && from <= to
    requires forall k :: 0 <= k < |calls| ==> from <= calls[k].now <= to
    ensures Granted(s, b, calls) <= s.capacity + if s.period == 0 then 0 else (to - from) / s.period + 1
  {
    if s.period > 0 {
      assert (to - from) / s.period >= 0;
    }
    if calls != [] {
      FirstCallAdvances(s, b, calls);
      var b1 := Advanced(s, b, calls[0].now);
      AdvancedSays(s, b, calls[0].now);
      TokensAreConserved(s, b1, calls);
      NoDrift(s, b1, calls);
      if Run(s, b1, calls).ticks != b1.ticks {
        var k :| 0 <= k < |calls| && Run(s, b1, calls).ticks == TicksBy(s, calls[k].now);
        TicksMonotone(s, calls[k].now, to);
        TicksMonotone(s, from, calls[0].now);
        if s.period > 0 {
          TicksInWindow(s, from, to);
        }
      }
    }
  }

  lemma TicksMonotone(s: Settings, x: int, y: int)
    requires x <= y
    ensures TicksBy(s, x) <= TicksBy(s, y)
  {
    if s.period > 0 && x > s.start {
      var p := s.period;
      var a, b := x - s.start, y - s.start;
      assert b == p * (b / p) + b % p;
      QuotientBelow(a, p, b / p + 1);
    }
  }

  /** A run does not notice if its first refill has been made already. */
  lemma {:induction false} FirstCallAdvances(s: Settings, b: Bucket, calls: seq<Call>)
    requires calls != [] && b.tokens <= s.capacity
    ensures var b1 := Advanced(s, b, calls[0].now);
      Run(s, b1, calls) == Run(s, b, calls) && Granted(s, b1, calls) == Granted(s, b, calls)
  {
    var b1 := Advanced(s, b, calls[0].now);
    var front := calls[..|calls| - 1];
    if |calls| == 1 {
      AdvancedSays(s, b, calls[0].now);
      assert Advanced(s, b1, calls[0].now) == b1;
    } else {
      assert front[0] == calls[0];
      FirstCallAdvances(s, b, front);
    }
  }

  /** Entries never use up the reserve: a run of entries leaves at least what it found, up to the
      reserve, and then an exit is granted if there is a reserve at all. */
  lemma {:induction false} EntriesLeaveReserve(s: Settings, b: Bucket, calls: seq<Call>)
    requires s.reserved <= b.tokens <= s.capacity
    requires forall k :: 0 <= k < |calls| ==> !calls[k].isExit
    ensures s.reserved <= Run(s, b, calls).tokens <= s.capacity
    ensures s.reserved > 0 ==> forall now :: Grants(s, Run(s, b, calls), Call(now, true))
  {
    if calls != [] {
      var front, last := calls[..|calls| - 1], calls[|calls| - 1];
      EntriesLeaveReserve(s, b, front);
      AdvancedSays(s, Run(s, b, front), last.now);
    }
    forall now | s.reserved > 0
      ensures Grants(s, Run(s, b, calls), Call(now, true))
    {
      AdvancedSays(s, Run(s, b, calls), now);
    }
  }
}
