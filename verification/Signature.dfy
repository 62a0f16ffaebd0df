/** The signal signature: the text it is the digest of, and the payload it is stored in
    (src/idempotency/idempotency.cpp). The digest is any function of byte strings. */
module Signature {
  import opened Characters
  import opened Options
  import opened Domain
  import J = JsonLine
  import Utf8

  const SEP: char := 0x1F as char
  const PAYLOAD_SCHEMA := 1

  function SideName(s: Side): string {
    match s
    case Buy => "BUY"
    case Sell => "SELL"
  }

  function TypeName(t: OrderType): string {
    match t
    case Market => "MARKET"
    case Limit => "LIMIT"
    case StopLoss => "SL"
    case StopLossMarket => "SL-M"
  }

  function ProductName(p: Product): string {
    match p
    case Intraday => "INTRADAY"
    case Delivery => "DELIVERY"
    case Margin => "MARGIN"
    case Normal => "NORMAL"
  }

  /** The limit price as the wire sees it: a stop-loss-market order transmits none. */
  function DefiningPrice(i: OrderIntent): int {
    if i.orderType.StopLossMarket? then 0 else i.price
  }

  function Join(a: string, b: string): string {
    a + [SEP] + b
  }

  /** The two free-text fields. */
  function Head(strategy: string, symbol: string): string {
    Join("strategy=" + strategy, "symbol=" + symbol)
  }

  function SignatureInput(i: OrderIntent): string {
    var base :=
      Join(Join(Join(Join(Join(Head(i.strategy, i.symbol),
                               "side=" + SideName(i.side)),
                          "qty=" + J.PrintInt(i.quantity)),
                     "price=" + J.PrintInt(DefiningPrice(i))),
                "order_type=" + TypeName(i.orderType)),
           "product=" + ProductName(i.product));
    if i.trigger.Some? then Join(base, "trigger=" + J.PrintInt(i.trigger.value)) else base
  }

  // ---------------------------------------------------------------- what the text determines

  /** The fields behind the two free-text ones agree. */
  predicate SameTerms(a: OrderIntent, b: OrderIntent) {
    && a.side == b.side && a.quantity == b.quantity && a.orderType == b.orderType
    && (a.price == b.price || a.orderType == StopLossMarket)
    && a.product == b.product && a.trigger == b.trigger
  }

  /** Read from the right, a separator the last field does not contain splits uniquely. */
  lemma SplitLast(a: string, x: string, b: string, y: string)
    requires SEP !in x && SEP !in y && Join(a, x) == Join(b, y)
    ensures a == b && x == y
  {
    var s, t := Join(a, x), Join(b, y);
    assert s[|a|] == SEP && t[|b|] == SEP;
    assert forall k :: |a| < k < |s| ==> s[k] == x[k - |a| - 1];
    assert forall k :: |b| < k < |t| ==> t[k] == y[k - |b| - 1];
    assert |a| == |b|;
    assert s[..|a|] == a && t[..|a|] == b && s[|a| + 1..] == x && t[|a| + 1..] == y;
  }

  lemma IntHasNoSep(tag: string, n: int)
    requires SEP !in tag
    ensures SEP !in tag + J.PrintInt(n)
  {
    var d := J.Decimal(if n < 0 then -n else n);
    assert forall k :: 0 <= k < |d| ==> IsDigit(d[k]);
  }

  lemma TagUnique(tag: string, x: string, y: string)
    requires tag + x == tag + y
    ensures x == y
  {
    assert (tag + x)[|tag|..] == x && (tag + y)[|tag|..] == y;
  }

  lemma IntUnique(tag: string, a: int, b: int)
    requires tag + J.PrintInt(a) == tag + J.PrintInt(b)
    ensures a == b
  {
    TagUnique(tag, J.PrintInt(a), J.PrintInt(b));
    J.IntRoundTrip(a, ",");
    J.IntRoundTrip(b, ",");
  }

  /** One integer field read from the right. */
  lemma IntField(p: string, q: string, tag: string, a: int, b: int)
    requires SEP !in tag && Join(p, tag + J.PrintInt(a)) == Join(q, tag + J.PrintInt(b))
    ensures p == q && a == b
  {
    IntHasNoSep(tag, a);
    IntHasNoSep(tag, b);
    SplitLast(p, tag + J.PrintInt(a), q, tag + J.PrintInt(b));
    IntUnique(tag, a, b);
  }

  /** One name field read from the right. */
  lemma NameField(p: string, q: string, tag: string, a: string, b: string)
    requires SEP !in tag && SEP !in a && SEP !in b && Join(p, tag + a) == Join(q, tag + b)
    ensures p == q && a == b
  {
    SplitLast(p, tag + a, q, tag + b);
    TagUnique(tag, a, b);
  }

  lemma SideNames(a: Side, b: Side)
    ensures SEP !in SideName(a)
    ensures SideName(a) == SideName(b) ==> a == b
  {
    assert |SideName(Buy)| == 3 && |SideName(Sell)| == 4;
  }

  lemma TypeNames(a: OrderType, b: OrderType)
    ensures SEP !in TypeName(a)
    ensures TypeName(a) == TypeName(b) ==> a == b
  {
    assert |TypeName(Market)| == 6 && |TypeName(Limit)| == 5 && |TypeName(StopLoss)| == 2
        && |TypeName(StopLossMarket)| == 4;
  }

  lemma ProductNames(a: Product, b: Product)
    ensures SEP !in ProductName(a)
    ensures ProductName(a) == ProductName(b) ==> a == b
  {
    assert ProductName(Intraday)[0] == 'I' && ProductName(Delivery)[0] == 'D'
        && ProductName(Margin)[0] == 'M' && ProductName(Normal)[0] == 'N';
  }

  function UpToPrice(i: OrderIntent): string {
    Join(Join(Join(Head(i.strategy, i.symbol), "side=" + SideName(i.side)),
              "qty=" + J.PrintInt(i.quantity)),
         "price=" + J.PrintInt(DefiningPrice(i)))
  }

  function UpToProduct(i: OrderIntent): string {
    Join(Join(UpToPrice(i), "order_type=" + TypeName(i.orderType)), "product=" + ProductName(i.product))
  }

  /** With a trigger and without one, the last fields differ. */
  lemma TriggerUnique(a: OrderIntent, b: OrderIntent)
    requires SignatureInput(a) == SignatureInput(b)
    ensures a.trigger == b.trigger && UpToProduct(a) == UpToProduct(b)
  {
    if a.trigger.Some? && b.trigger.Some? {
      IntField(UpToProduct(a), UpToProduct(b), "trigger=", a.trigger.value, b.trigger.value);
    } else if a.trigger.Some? {
      TriggerIsNotProduct(a, b);
    } else if b.trigger.Some? {
      TriggerIsNotProduct(b, a);
    }
  }

  lemma TriggerIsNotProduct(a: OrderIntent, b: OrderIntent)
    requires a.trigger.Some? && b.trigger.None?
    ensures SignatureInput(a) != SignatureInput(b)
  {
    var front := Join(UpToPrice(b), "order_type=" + TypeName(b.orderType));
    var x, y := "trigger=" + J.PrintInt(a.trigger.value), "product=" + ProductName(b.product);
    IntHasNoSep("trigger=", a.trigger.value);
    ProductNames(b.product, b.product);
    assert x[0] == 't' && y[0] == 'p';
    if SignatureInput(a) == SignatureInput(b) {
      SplitLast(UpToProduct(a), x, front, y);
    }
  }

  lemma TermsUnique(a: OrderIntent, b: OrderIntent)
    requires UpToProduct(a) == UpToProduct(b)
    ensures a.side == b.side && a.quantity == b.quantity && DefiningPrice(a) == DefiningPrice(b)
    ensures a.orderType == b.orderType && a.product == b.product
    ensures Head(a.strategy, a.symbol) == Head(b.strategy, b.symbol)
  {
    ProductNames(a.product, b.product);
    ProductNames(b.product, a.product);
    TypeNames(a.orderType, b.orderType);
    TypeNames(b.orderType, a.orderType);
    SideNames(a.side, b.side);
    SideNames(b.side, a.side);
    NameField(Join(UpToPrice(a), "order_type=" + TypeName(a.orderType)),
              Join(UpToPrice(b), "order_type=" + TypeName(b.orderType)),
              "product=", ProductName(a.product), ProductName(b.product));
    NameField(UpToPrice(a), UpToPrice(b), "order_type=", TypeName(a.orderType), TypeName(b.orderType));
    var sideA := Join(Head(a.strategy, a.symbol), "side=" + SideName(a.side));
    var sideB := Join(Head(b.strategy, b.symbol), "side=" + SideName(b.side));
    IntField(Join(sideA, "qty=" + J.PrintInt(a.quantity)), Join(sideB, "qty=" + J.PrintInt(b.quantity)),
             "price=", DefiningPrice(a), DefiningPrice(b));
    IntField(sideA, sideB, "qty=", a.quantity, b.quantity);
    NameField(Head(a.strategy, a.symbol), Head(b.strategy, b.symbol), "side=", SideName(a.side), SideName(b.side));
  }

  // ---------------------------------------------------------------- the two free-text fields

  /** What stands between strategy and symbol. */
  const BETWEEN: string := [SEP] + "symbol="

  /** The second pair reads a part of the first pair's symbol as the end of its strategy. */
  ghost predicate Shifted(strategy: string, symbol: string, strategy': string, symbol': string) {
    exists z :: strategy' == strategy + BETWEEN + z && symbol == z + BETWEEN + symbol'
  }

  lemma HeadForm(strategy: string, symbol: string)
    ensures Head(strategy, symbol) == "strategy=" + (strategy + BETWEEN + symbol)
  {
  }

  lemma ShiftedCollides(s: string, y: string, s': string, y': string)
    requires Shifted(s, y, s', y')
    ensures Head(s, y) == Head(s', y')
  {
    var z :| s' == s + BETWEEN + z && y == z + BETWEEN + y';
    HeadForm(s, y);
    HeadForm(s', y');
    assert s + BETWEEN + (z + BETWEEN + y') == s + BETWEEN + z + BETWEEN + y';
  }

  lemma BetweenAt(s: string, y: string)
    ensures var t := s + BETWEEN + y;
      && |BETWEEN| == 8 && |t| == |s| + 8 + |y|
      && t[..|s|] == s && t[|s| + 8..] == y && t[|s|] == SEP
      && (forall k :: |s| < k < |s| + 8 ==> t[k] != SEP)
  {
    var t := s + BETWEEN + y;
    assert forall k :: |s| <= k < |s| + 8 ==> t[k] == BETWEEN[k - |s|];
    assert BETWEEN[0] == SEP && (forall k :: 1 <= k < 8 ==> BETWEEN[k] != SEP);
  }

  lemma CollisionIsShift(s: string, y: string, s': string, y': string)
    requires s + BETWEEN + y == s' + BETWEEN + y' && |s| <= |s'|
    ensures (s == s' && y == y') || Shifted(s, y, s', y')
  {
    var t := s + BETWEEN + y;
    BetweenAt(s, y);
    BetweenAt(s', y');
    if |s| == |s'| {
      assert s == s' && y == y';
    } else {
      assert |s'| >= |s| + 8;
      var z := t[|s| + 8..|s'|];
      assert t[|s|..|s| + 8] == BETWEEN;
      assert t[|s'|..|s'| + 8] == BETWEEN;
      assert s' == t[..|s'|] == s + BETWEEN + z;
      assert y == t[|s| + 8..] == z + BETWEEN + y';
    }
  }

  lemma HeadsEqualIff(s: string, y: string, s': string, y': string)
    ensures Head(s, y) == Head(s', y') <==>
      (s == s' && y == y') || Shifted(s, y, s', y') || Shifted(s', y', s, y)
  {
    if Head(s, y) == Head(s', y') {
      HeadForm(s, y);
      HeadForm(s', y');
      TagUnique("strategy=", s + BETWEEN + y, s' + BETWEEN + y');
      if |s| <= |s'| {
        CollisionIsShift(s, y, s', y');
      } else {
        CollisionIsShift(s', y', s, y);
      }
    }
    if Shifted(s, y, s', y') {
      ShiftedCollides(s, y, s', y');
    }
    if Shifted(s', y', s, y) {
      ShiftedCollides(s', y', s, y);
    }
  }

  // ---------------------------------------------------------------- exactly when two intents collide

  /** The same signal: everything that defines the order on the wire. */
  predicate SameSignal(a: OrderIntent, b: OrderIntent) {
    a.strategy == b.strategy && a.symbol == b.symbol && SameTerms(a, b)
  }

  /** For any two intents at all: they have one signature text exactly if they agree on every
      term of the order and their free-text fields are the same or one pair is the other with a
      separator-and-tag moved across the boundary. */
  lemma SignatureInputEqualIff(a: OrderIntent, b: OrderIntent)
    ensures SignatureInput(a) == SignatureInput(b) <==>
      && SameTerms(a, b)
      && (|| (a.strategy == b.strategy && a.symbol == b.symbol)
          || Shifted(a.strategy, a.symbol, b.strategy, b.symbol)
          || Shifted(b.strategy, b.symbol, a.strategy, a.symbol))
  {
    HeadsEqualIff(a.strategy, a.symbol, b.strategy, b.symbol);
    if SignatureInput(a) == SignatureInput(b) {
      TriggerUnique(a, b);
      TermsUnique(a, b);
    }
  }

  /** If the separator occurs in neither strategy, or in neither symbol, one text is one signal;
      the price of a stop-loss-market order plays no part. */
  lemma SignatureInputUnambiguous(a: OrderIntent, b: OrderIntent)
    requires (SEP !in a.strategy && SEP !in b.strategy) || (SEP !in a.symbol && SEP !in b.symbol)
    ensures SignatureInput(a) == SignatureInput(b) <==> SameSignal(a, b)
  {
    SignatureInputEqualIff(a, b);
    NotShifted(a, b);
    NotShifted(b, a);
  }

  lemma NotShifted(a: OrderIntent, b: OrderIntent)
    requires SEP !in b.strategy || SEP !in a.symbol
    ensures !Shifted(a.strategy, a.symbol, b.strategy, b.symbol)
  {
    forall z
      ensures SEP in a.strategy + BETWEEN + z && SEP in z + BETWEEN + b.symbol
    {
      BetweenAt(a.strategy, z);
      BetweenAt(z, b.symbol);
    }
  }

  /** Without that condition two different signals can share a signature text. */
  lemma SeparatorInStrategyCollides(i: OrderIntent)
    ensures var a := i.(strategy := "a", symbol := "b" + BETWEEN + "c");
      var b := i.(strategy := "a" + BETWEEN + "b", symbol := "c");
      !SameSignal(a, b) && SignatureInput(a) == SignatureInput(b)
  {
    var a := i.(strategy := "a", symbol := "b" + BETWEEN + "c");
    var b := i.(strategy := "a" + BETWEEN + "b", symbol := "c");
    assert Shifted(a.strategy, a.symbol, b.strategy, b.symbol);
    SignatureInputEqualIff(a, b);
    assert |a.strategy| == 1 && |b.strategy| == 10;
  }

  // ---------------------------------------------------------------- the stored payload

  type Digest = string -> string

  function SignalSignature(h: Digest, i: OrderIntent): string {
    h(SignatureInput(i))
  }

  /** The payload object, keys in the order of the sorted map the source dumps. */
  function PayloadObj(sig: string, i: OrderIntent): J.Obj {
    [J.Member("client_ref", J.Str(i.clientRef)),
     J.Member("order_type", J.Str(TypeName(i.orderType))),
     J.Member("price_paise", J.Num(i.price)),
     J.Member("product", J.Str(ProductName(i.product))),
     J.Member("qty", J.Num(i.quantity)),
     J.Member("schema", J.Num(PAYLOAD_SCHEMA)),
     J.Member("side", J.Str(SideName(i.side))),
     J.Member("sig", J.Str(sig)),
     J.Member("strategy", J.Str(i.strategy)),
     J.Member("symbol", J.Str(i.symbol))]
    + (if i.trigger.Some? then [J.Member("trigger_price_paise", J.Num(i.trigger.value))] else [])
  }

  function IntentPayload(h: Digest, i: OrderIntent): string {
    J.Print(PayloadObj(SignalSignature(h, i), i))
  }

  /** The signature a rebuild reads out of a payload, if it finds one it understands. */
  function SigOf(payload: string): Option<string> {
    match J.Parse(payload)
    case None => None
    case Some(o) =>
      if J.Lookup(o, "schema") != Some(J.Num(PAYLOAD_SCHEMA)) then None
      else
        match J.Lookup(o, "sig")
        case Some(Str(s)) => Some(s)
        case _ => None
  }

  predicate Ascii(s: string) {
    forall k :: 0 <= k < |s| ==> s[k] as int < 0x80
  }

  predicate AsciiKeys(o: J.Obj) {
    forall j :: 0 <= j < |o| ==> Ascii(o[j].key)
  }

  /** Looking a key up in what a reader gets back. */
  lemma {:induction false} LookupCanonical(o: J.Obj, i: nat, key: string)
    requires i < |o| && key == o[i].key && AsciiKeys(o)
    requires forall j :: i < j < |o| ==> o[j].key != key
    ensures J.Lookup(J.CanonicalObj(o), key) == Some(J.CanonicalValue(o[i].value))
  {
    var c := J.CanonicalObj(o);
    assert c[1..] == J.CanonicalObj(o[1..]);
    J.AsciiIsPlain(o[0].key);
    if i > 0 {
      assert o[1..][i - 1] == o[i];
      LookupCanonical(o[1..], i - 1, key);
    } else {
      AbsentCanonical(o[1..], key);
    }
  }

  lemma {:induction false} AbsentCanonical(o: J.Obj, key: string)
    requires AsciiKeys(o) && forall j :: 0 <= j < |o| ==> o[j].key != key
    ensures J.Lookup(J.CanonicalObj(o), key) == None
  {
    if o != [] {
      assert J.CanonicalObj(o)[1..] == J.CanonicalObj(o[1..]);
      J.AsciiIsPlain(o[0].key);
      AbsentCanonical(o[1..], key);
    }
  }

  lemma PayloadKeysAscii(sig: string, i: OrderIntent)
    ensures AsciiKeys(PayloadObj(sig, i))
  {
    var o := PayloadObj(sig, i);
    FirstKeysAscii();
    LastKeysAscii();
    forall j | 0 <= j < |o|
      ensures Ascii(o[j].key)
    {
      assert j < 5 ==> o[j].key in FIRST_KEYS;
      assert j >= 5 ==> o[j].key in LAST_KEYS;
    }
  }

  const FIRST_KEYS: seq<string> := ["client_ref", "order_type", "price_paise", "product", "qty"]
  const LAST_KEYS: seq<string> := ["schema", "side", "sig", "strategy", "symbol", "trigger_price_paise"]

  lemma FirstKeysAscii()
    ensures forall k :: k in FIRST_KEYS ==> Ascii(k)
  {
  }

  lemma LastKeysAscii()
    ensures forall k :: k in LAST_KEYS ==> Ascii(k)
  {
  }

  lemma PayloadKeys(sig: string, i: OrderIntent)
    ensures var o := PayloadObj(sig, i);
      && |o| >= 10 && o[5].key == "schema" && o[7].key == "sig"
      && (forall j :: 5 < j < |o| ==> o[j].key != o[5].key)
      && (forall j :: 7 < j < |o| ==> o[j].key != o[7].key)
  {
    var o := PayloadObj(sig, i);
    assert o[5].key[1] == 'c' && o[6].key[1] == 'i' && o[7].key[1] == 'i' && o[8].key[1] == 't'
        && o[9].key[1] == 'y' && (|o| > 10 ==> o[10].key[1] == 'r');
  }

  /** Whatever bytes the caller's text fields hold, the payload is stored byte for byte and
      carries the signature. */
  lemma PayloadCarriesSignature(h: Digest, i: OrderIntent)
    requires J.Plain(SignalSignature(h, i))
    ensures Utf8.Canonical(IntentPayload(h, i)) == IntentPayload(h, i)
    ensures SigOf(IntentPayload(h, i)) == Some(SignalSignature(h, i))
  {
    var sig := SignalSignature(h, i);
    var o := PayloadObj(sig, i);
    J.RoundTrip(o);
    J.PrintIsCanonical(o);
    PayloadKeys(sig, i);
    PayloadKeysAscii(sig, i);
    ObjCarriesSignature(o, sig);
  }

  lemma ObjCarriesSignature(o: J.Obj, sig: string)
    requires |o| >= 10 && AsciiKeys(o) && J.Plain(sig)
    requires o[5] == J.Member("schema", J.Num(PAYLOAD_SCHEMA)) && o[7] == J.Member("sig", J.Str(sig))
    requires forall j :: 5 < j < |o| ==> o[j].key != o[5].key
    requires forall j :: 7 < j < |o| ==> o[j].key != o[7].key
    ensures var c := J.CanonicalObj(o);
      J.Lookup(c, "schema") == Some(J.Num(PAYLOAD_SCHEMA)) && J.Lookup(c, "sig") == Some(J.Str(sig))
  {
    LookupCanonical(o, 5, "schema");
    LookupCanonical(o, 7, "sig");
  }

  // ---------------------------------------------------------------- as dispatch sees it

  /** How intents are signed, and how their payloads are written and read. */
  datatype Signing = Signing(
    signature: OrderIntent -> string,
    payload: OrderIntent -> string,
    read: string -> Option<string>)

  /** A stored payload names the signature of its intent, which is never empty and does not depend
      on the client ref. */
  ghost predicate Carried(s: Signing, i: OrderIntent) {
    && s.signature(i) != ""
    && s.read(Utf8.Canonical(s.payload(i))) == Some(s.signature(i))
    && forall ref :: s.signature(i.(clientRef := ref)) == s.signature(i)
  }

  ghost predicate Sound(s: Signing) {
    forall i :: Carried(s, i)
  }

  function JsonSigning(h: Digest): Signing {
    Signing(i => SignalSignature(h, i), i => IntentPayload(h, i), payload => SigOf(payload))
  }

  lemma JsonSigningSound(h: Digest)
    requires forall s :: J.Plain(h(s)) && h(s) != ""
    ensures Sound(JsonSigning(h))
  {
    var s := JsonSigning(h);
    forall i
      ensures Carried(s, i)
    {
      PayloadCarriesSignature(h, i);
      assert J.Plain(h(SignatureInput(i))) && h(SignatureInput(i)) != "";
      forall ref
        ensures s.signature(i.(clientRef := ref)) == s.signature(i)
      {
        SignatureIgnoresRef(i, ref);
      }
    }
  }

  lemma SignatureIgnoresRef(i: OrderIntent, ref: string)
    ensures SignatureInput(i.(clientRef := ref)) == SignatureInput(i)
  {
  }
}
