/** Prices in paise at the edges of the 64-bit range (src/domain/money.cpp). Signed values are kept
    in their range, and the unsigned arithmetic of the source is written out modulo 2^64. */
module Money {
  import opened Characters
  import opened Arithmetic
  import J = JsonLine
  import R = IntentRecord

  const TWO63: int := 0x8000_0000_0000_0000
  const TWO64: int := 0x1_0000_0000_0000_0000

  type Int64 = x: int | -0x8000_0000_0000_0000 <= x < 0x8000_0000_0000_0000

  type UInt64 = x: int | 0 <= x < 0x1_0000_0000_0000_0000

  /** Conversions keep the value modulo 2^64. */
  function ToUnsigned(x: Int64): UInt64 {
    if x < 0 then x + TWO64 else x
  }

  function ToSigned(u: UInt64): Int64 {
    if u >= TWO63 then u - TWO64 else u
  }

  function Wrapped(x: nat): UInt64 {
    x % TWO64
  }

  /** ~u + 1, where ~u is 2^64 - 1 - u. */
  function Negated(u: UInt64): UInt64 {
    Wrapped(TWO64 - u)
  }

  function Magnitude(x: Int64): UInt64 {
    if x < 0 then Negated(ToUnsigned(x)) else ToUnsigned(x)
  }

  lemma MagnitudeIsAbsolute(x: Int64)
    ensures Magnitude(x) == Abs(x)
  {
  }

  /** The multiplication back, modulo 2^64. */
  function RoundedDown(sum: UInt64, ut: UInt64): UInt64
    requires ut > 0
  {
    QuotientBounds(sum, ut);
    Wrapped(sum / ut * ut)
  }

  function RoundToTick(price: Int64, tick: Int64): Int64 {
    if tick <= 0 then price
    else
      var negative := price < 0;
      var ut := ToUnsigned(tick);
      var mag := Magnitude(price);
      var half := if negative then (ut - 1) / 2 else ut / 2;
      var rounded := RoundedDown(Wrapped(mag + half), ut);
      var limit := if negative then TWO63 else TWO63 - 1;
      if rounded > limit then price
      else if negative then ToSigned(Negated(rounded)) else ToSigned(rounded)
  }

  /** `m` is the multiple of the tick nearest to the price; of two equally near, the larger. */
  ghost predicate IsNearest(m: int, price: int, tick: int) {
    tick > 0 && (exists k :: m == k * tick) && 2 * (m - price) <= tick && 2 * (price - m) < tick
  }

  predicate InRange(m: int) {
    -TWO63 <= m < TWO63
  }

  /** There is exactly one such multiple. */
  lemma NearestIsUnique(m: int, n: int, price: int, tick: int)
    requires IsNearest(m, price, tick) && IsNearest(n, price, tick)
    ensures m == n
  {
    var j, k :| m == j * tick && n == k * tick;
    if j < k {
      Gap(tick, j, k);
    } else if k < j {
      Gap(tick, k, j);
    }
  }

  lemma Gap(d: int, x: int, y: int)
    requires d >= 0 && x < y
    ensures x * d + d <= y * d
  {
    Monotone(d, x + 1, y);
    assert (x + 1) * d == x * d + d;
  }

  /** Neither the addition nor the multiplication of the source can wrap. */
  lemma NoStepWraps(price: Int64, tick: Int64)
    requires tick > 0
    ensures var sum := Magnitude(price) + Half(price, tick);
      sum < TWO64 && 0 <= sum / tick * tick <= sum
  {
    MagnitudeIsAbsolute(price);
    QuotientBounds(Magnitude(price) + Half(price, tick), tick);
  }

  /** The bias that sends ties toward plus infinity. */
  function Half(price: int, tick: int): (h: int)
    requires tick > 0
    ensures 0 <= h && (if price < 0 then 2 * h + 1 <= tick <= 2 * h + 2 else 2 * h <= tick <= 2 * h + 1)
  {
    if price < 0 then (tick - 1) / 2 else tick / 2
  }

  /** What rounding does to the magnitude. */
  function RoundedMagnitude(price: int, tick: int): int
    requires tick > 0
  {
    (Abs(price) + Half(price, tick)) / tick * tick
  }

  /** The signed result. */
  function RoundedPrice(price: int, tick: int): int
    requires tick > 0
  {
    if price < 0 then -RoundedMagnitude(price, tick) else RoundedMagnitude(price, tick)
  }

  lemma RoundedIsNearest(price: int, tick: int)
    requires tick > 0
    ensures RoundedMagnitude(price, tick) >= 0 && IsNearest(RoundedPrice(price, tick), price, tick)
  {
    var x := Abs(price) + Half(price, tick);
    var q := x / tick;
    QuotientBounds(x, tick);
    assert -(q * tick) == (-q) * tick;
    var k := if price < 0 then -q else q;
    assert RoundedPrice(price, tick) == k * tick;
  }

  /** For every 64-bit price and every positive tick: the nearest multiple, ties toward plus
      infinity, when that is a 64-bit number, and otherwise the price unchanged. */
  lemma RoundToTickIsNearest(price: Int64, tick: Int64, nearest: int)
    requires IsNearest(nearest, price, tick)
    ensures RoundToTick(price, tick) == if InRange(nearest) then nearest else price
  {
    RoundedIsNearest(price, tick);
    NearestIsUnique(nearest, RoundedPrice(price, tick), price, tick);
    RoundToTickUnfolds(price, tick);
  }

  lemma RoundToTickUnfolds(price: Int64, tick: Int64)
    requires tick > 0
    ensures var m := RoundedPrice(price, tick);
      RoundToTick(price, tick) == if InRange(m) then m else price
  {
    NoStepWraps(price, tick);
    MagnitudeIsAbsolute(price);
    var r := RoundedMagnitude(price, tick);
    assert Wrapped(Magnitude(price) + Half(price, tick)) == Abs(price) + Half(price, tick);
    assert Wrapped(r) == r;
    NegatedIsMinus(r);
  }

  lemma NegatedIsMinus(r: int)
    requires 0 <= r < TWO64
    ensures r <= TWO63 ==> ToSigned(Negated(r)) == -r
  {
  }

  /** The nearest multiple always exists, so the statement above covers every price; and it leaves
      the 64-bit range only within half a tick of one of its ends. */
  lemma NearestExists(price: Int64, tick: Int64)
    requires tick > 0
    ensures exists m :: IsNearest(m, price, tick)
    ensures forall m :: IsNearest(m, price, tick) && !InRange(m) ==>
      2 * (TWO63 - price) <= tick || 2 * (price + TWO63) < tick
  {
    RoundedIsNearest(price, tick);
  }

  /** Rounding twice changes nothing, unless the first rounding was refused. */
  lemma RoundingIsStable(price: Int64, tick: Int64)
    requires tick > 0
    ensures var once := RoundToTick(price, tick);
      RoundToTick(once, tick) == once
  {
    RoundedIsNearest(price, tick);
    var m := RoundedPrice(price, tick);
    RoundToTickIsNearest(price, tick, m);
    if InRange(m) {
      assert IsNearest(m, m, tick);
      RoundToTickIsNearest(m, tick, m);
    }
  }

  // ---------------------------------------------------------------- paise as text

  /** "<rupees>.<pp>", with a leading minus. */
  function FormatPaise(paise: Int64): string {
    var mag := Magnitude(paise);
    (if paise < 0 then "-" else "")
    + (J.Decimal(mag / 100) + ("." + ((if mag % 100 < 10 then "0" else "") + J.Decimal(mag % 100))))
  }

  predicate AllDigits(s: string) {
    forall k :: 0 <= k < |s| ==> IsDigit(s[k])
  }

  lemma Padded(b: nat, s: string)
    requires b < 100 && s == (if b < 10 then "0" else "") + J.Decimal(b)
    ensures |s| == 2 && AllDigits(s) && J.DecimalValue(s) == b
  {
    J.DecimalRoundTrip(b);
    if b < 10 {
      assert s == ['0', J.Digit(b)] && s[..1] == ['0'] && s[..1][..0] == [];
    } else {
      assert J.Decimal(b / 10) == [J.Digit(b / 10)];
      assert s == J.Decimal(b);
    }
  }

  /** The text is a sign for a negative amount, the rupees, a point and two digits, and these read back
      as the amount. */
  lemma FormatPaiseReads(paise: Int64) returns (rupees: string, pp: string)
    ensures rupees != "" && AllDigits(rupees) && |pp| == 2 && AllDigits(pp)
    ensures 100 * J.DecimalValue(rupees) + J.DecimalValue(pp) == Abs(paise)
    ensures FormatPaise(paise) == (if paise < 0 then "-" else "") + (rupees + ("." + pp))
  {
    MagnitudeIsAbsolute(paise);
    var mag := Magnitude(paise);
    rupees := J.Decimal(mag / 100);
    pp := (if mag % 100 < 10 then "0" else "") + J.Decimal(mag % 100);
    J.DecimalRoundTrip(mag / 100);
    Padded(mag % 100, pp);
  }

  lemma TwoDigits(a: nat, b: nat)
    requires a < 100 && b < 100
    requires (if a < 10 then "0" else "") + J.Decimal(a) == (if b < 10 then "0" else "") + J.Decimal(b)
    ensures a == b
  {
    var x, y := J.Decimal(a), J.Decimal(b);
    var s, t := (if a < 10 then "0" else "") + x, (if b < 10 then "0" else "") + y;
    assert s[0] == '0' <==> a < 10;
    assert t[0] == '0' <==> b < 10;
    assert x == if a < 10 then s[1..] else s;
    assert y == if b < 10 then t[1..] else t;
    J.DecimalRoundTrip(a);
    J.DecimalRoundTrip(b);
  }

  lemma NoPoint(n: nat)
    ensures '.' !in J.Decimal(n) && J.Decimal(n)[0] != '-'
  {
    var d := J.Decimal(n);
    assert forall k :: 0 <= k < |d| ==> IsDigit(d[k]);
  }

  /** Different amounts have different texts, the smallest 64-bit number included. */
  lemma FormatPaiseInjective(a: Int64, b: Int64)
    requires FormatPaise(a) == FormatPaise(b)
    ensures a == b
  {
    MagnitudeIsAbsolute(a);
    MagnitudeIsAbsolute(b);
    var m, n := Magnitude(a), Magnitude(b);
    NoPoint(m / 100);
    NoPoint(n / 100);
    var x := (if m % 100 < 10 then "0" else "") + J.Decimal(m % 100);
    var y := (if n % 100 < 10 then "0" else "") + J.Decimal(n % 100);
    var s, t := J.Decimal(m / 100) + ("." + x), J.Decimal(n / 100) + ("." + y);
    assert FormatPaise(a)[0] == '-' <==> a < 0;
    assert FormatPaise(b)[0] == '-' <==> b < 0;
    assert a < 0 ==> FormatPaise(a)[1..] == s && FormatPaise(b)[1..] == t;
    assert a >= 0 ==> FormatPaise(a) == s && FormatPaise(b) == t;
    SplitAtPoint(J.Decimal(m / 100), x, J.Decimal(n / 100), y);
    J.DecimalRoundTrip(m / 100);
    J.DecimalRoundTrip(n / 100);
    TwoDigits(m % 100, n % 100);
  }

  lemma SplitAtPoint(a: string, x: string, b: string, y: string)
    requires '.' !in a && '.' !in b && a + ("." + x) == b + ("." + y)
    ensures a == b && x == y
  {
    assert "" + a + ['.'] + x == a + ("." + x) && "" + b + ['.'] + y == b + ("." + y);
    R.SplitUnique("", a, x, b, y, '.');
  }
}
