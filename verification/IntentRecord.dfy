/** One record of the intent log (src/intentlog/intent_log.cpp): the bytes its hash is taken over,
    and the JSON line it is stored as. */
module IntentRecord {
  import opened Characters
  import opened Options
  import F = LineFormat
  import J = JsonLine
  import JF = JsonFormat

  datatype IntentOp = PlaceOrder | ModifyOrder | CancelOrder | SquareOff | OpResult | ChildSlice

  datatype Record = Record(
    schemaVersion: int,
    seqNo: int,
    clientRef: string,
    op: IntentOp,
    payload: string,
    wallTs: int,
    prevHash: string,
    hash: string)

  const GENESIS: string := "GENESIS"
  const SCHEMA_VERSION := 1

  function OpName(op: IntentOp): string {
    match op
    case PlaceOrder => "place_order"
    case ModifyOrder => "modify_order"
    case CancelOrder => "cancel_order"
    case SquareOff => "square_off"
    case OpResult => "result"
    case ChildSlice => "child_slice"
  }

  function OpFromName(name: string): Option<IntentOp> {
    if name == "place_order" then Some(PlaceOrder)
    else if name == "modify_order" then Some(ModifyOrder)
    else if name == "cancel_order" then Some(CancelOrder)
    else if name == "square_off" then Some(SquareOff)
    else if name == "result" then Some(OpResult)
    else if name == "child_slice" then Some(ChildSlice)
    else None
  }

  // ---------------------------------------------------------------- the hash pre-image

  function Framed(value: string): string {
    J.Decimal(|value|) + ":" + value
  }

  /** The bytes a record's hash is taken over: every field but the hash. */
  function CanonicalBytes(r: Record): string {
    "v" + J.PrintInt(r.schemaVersion) + "\n"
    + ("s" + J.PrintInt(r.seqNo) + "\n"
    + ("o" + OpName(r.op) + "\n"
    + ("t" + J.PrintInt(r.wallTs) + "\n"
    + ("c" + Framed(r.clientRef) + "\n"
    + ("p" + Framed(r.payload) + "\n"
    + ("h" + Framed(r.prevHash) + "\n"))))))
  }

  /** The hash is not part of its own pre-image. */
  lemma HashNotHashed(r: Record, x: string)
    ensures CanonicalBytes(r.(hash := x)) == CanonicalBytes(r)
  {
  }

  /** Text up to a separator it does not contain determines both sides. */
  lemma SplitUnique(tag: string, a: string, x: string, b: string, y: string, c: char)
    requires c !in a && c !in b
    requires tag + a + [c] + x == tag + b + [c] + y
    ensures a == b && x == y
  {
    var s, t := tag + a + [c] + x, tag + b + [c] + y;
    var n, m := |tag| + |a|, |tag| + |b|;
    assert s[n] == c && t[m] == c;
    assert forall k :: |tag| <= k < n ==> s[k] == a[k - |tag|];
    assert forall k :: |tag| <= k < m ==> t[k] == b[k - |tag|];
    assert n == m;
    assert s[|tag|..n] == a && t[|tag|..n] == b;
    assert s[n + 1..] == x && t[n + 1..] == y;
  }

  lemma DecimalPlain(n: nat, c: char)
    requires c == '\n' || c == ':'
    ensures c !in J.Decimal(n)
  {
    var d := J.Decimal(n);
    assert forall k :: 0 <= k < |d| ==> IsDigit(d[k]);
  }

  lemma IntUnique(tag: string, a: int, x: string, b: int, y: string)
    requires tag + J.PrintInt(a) + "\n" + x == tag + J.PrintInt(b) + "\n" + y
    ensures a == b && x == y
  {
    J.PrintIntNoNewline(a);
    J.PrintIntNoNewline(b);
    SplitUnique(tag, J.PrintInt(a), x, J.PrintInt(b), y, '\n');
    J.IntRoundTrip(a, "\n");
    J.IntRoundTrip(b, "\n");
  }

  lemma FramedUnique(tag: string, a: string, x: string, b: string, y: string)
    requires tag + Framed(a) + "\n" + x == tag + Framed(b) + "\n" + y
    ensures a == b && x == y
  {
    DecimalPlain(|a|, ':');
    DecimalPlain(|b|, ':');
    Unframe(tag, J.Decimal(|a|), a, x);
    Unframe(tag, J.Decimal(|b|), b, y);
    SplitUnique(tag, J.Decimal(|a|), a + "\n" + x, J.Decimal(|b|), b + "\n" + y, ':');
    J.DecimalRoundTrip(|a|);
    J.DecimalRoundTrip(|b|);
    assert (a + "\n" + x)[..|a|] == a && (b + "\n" + y)[..|a|] == b;
    assert (a + "\n" + x)[|a| + 1..] == x && (b + "\n" + y)[|a| + 1..] == y;
  }

  lemma Unframe(tag: string, d: string, v: string, x: string)
    ensures tag + (d + ":" + v) + "\n" + x == tag + d + [':'] + (v + "\n" + x)
  {
  }

  lemma OpNameUnique(a: IntentOp, b: IntentOp)
    ensures '\n' !in OpName(a)
    ensures OpFromName(OpName(a)) == Some(a)
    ensures OpName(a) == OpName(b) ==> a == b
  {
  }

  /** Equal pre-images come from records that agree on every hashed field. */
  lemma CanonicalBytesInjective(r: Record, s: Record)
    requires CanonicalBytes(r) == CanonicalBytes(s)
    ensures r.(hash := s.hash) == s
  {
    var h1, h2 := "h" + Framed(r.prevHash) + "\n", "h" + Framed(s.prevHash) + "\n";
    var p1, p2 := "p" + Framed(r.payload) + "\n" + h1, "p" + Framed(s.payload) + "\n" + h2;
    var c1, c2 := "c" + Framed(r.clientRef) + "\n" + p1, "c" + Framed(s.clientRef) + "\n" + p2;
    var t1, t2 := "t" + J.PrintInt(r.wallTs) + "\n" + c1, "t" + J.PrintInt(s.wallTs) + "\n" + c2;
    var o1, o2 := "o" + OpName(r.op) + "\n" + t1, "o" + OpName(s.op) + "\n" + t2;
    var s1, s2 := "s" + J.PrintInt(r.seqNo) + "\n" + o1, "s" + J.PrintInt(s.seqNo) + "\n" + o2;
    IntUnique("v", r.schemaVersion, s1, s.schemaVersion, s2);
    IntUnique("s", r.seqNo, o1, s.seqNo, o2);
    OpNameUnique(r.op, s.op);
    OpNameUnique(s.op, r.op);
    SplitUnique("o", OpName(r.op), t1, OpName(s.op), t2, '\n');
    IntUnique("t", r.wallTs, c1, s.wallTs, c2);
    FramedUnique("c", r.clientRef, p1, s.clientRef, p2);
    FramedUnique("p", r.payload, h1, s.payload, h2);
    assert h1 + "" == h1 && h2 + "" == h2;
    FramedUnique("h", r.prevHash, "", s.prevHash, "");
  }

  // ---------------------------------------------------------------- one line

  /** The JSON projection, keys in the order of the sorted map the source dumps. */
  function ToObj(r: Record): J.Obj {
    [J.Member("client_ref", J.Str(r.clientRef)),
     J.Member("hash", J.Str(r.hash)),
     J.Member("op", J.Str(OpName(r.op))),
     J.Member("payload", J.Str(r.payload)),
     J.Member("prev_hash", J.Str(r.prevHash)),
     J.Member("schema_version", J.Num(r.schemaVersion)),
     J.Member("seq", J.Num(r.seqNo)),
     J.Member("wall_ts_ns", J.Num(r.wallTs))]
  }

  datatype ReplayError =
    | Malformed
    | FieldType
    | UnknownOp
    | BrokenSeq
    | BrokenLink
    | BrokenHash
    | RepairFailed
    | NotOpened

  /** A field with a default for an absent key; a present key of the other kind is an error. */
  function StringField(o: J.Obj, key: string): Option<string> {
    match J.Lookup(o, key)
    case None => Some("")
    case Some(Str(s)) => Some(s)
    case Some(Num(_)) => None
  }

  function NumberField(o: J.Obj, key: string): Option<int> {
    match J.Lookup(o, key)
    case None => Some(0)
    case Some(Num(n)) => Some(n)
    case Some(Str(_)) => None
  }

  function FromObj(o: J.Obj): F.Reading<Record, ReplayError> {
    var version, number, wall := NumberField(o, "schema_version"), NumberField(o, "seq"), NumberField(o, "wall_ts_ns");
    var ref, payload, prev := StringField(o, "client_ref"), StringField(o, "payload"), StringField(o, "prev_hash");
    var hash, name := StringField(o, "hash"), StringField(o, "op");
    if version.None? || number.None? || wall.None? || ref.None? || payload.None? || prev.None?
       || hash.None? || name.None? then F.Rejected(FieldType)
    else
      match OpFromName(name.value)
      case None => F.Rejected(UnknownOp)
      case Some(op) =>
        F.Readable(Record(version.value, number.value, ref.value, op, payload.value, wall.value,
                          prev.value, hash.value))
  }

  predicate Stored(r: Record) {
    J.Plain(r.clientRef) && J.Plain(r.payload) && J.Plain(r.prevHash) && J.Plain(r.hash)
  }

  lemma OpNameIsPlain(op: IntentOp)
    ensures J.Plain(OpName(op))
  {
    match op
    case PlaceOrder => J.AsciiIsPlain("place_order");
    case ModifyOrder => J.AsciiIsPlain("modify_order");
    case CancelOrder => J.AsciiIsPlain("cancel_order");
    case SquareOff => J.AsciiIsPlain("square_off");
    case OpResult => J.AsciiIsPlain("result");
    case ChildSlice => J.AsciiIsPlain("child_slice");
  }

  lemma KeyIsPlain(r: Record, i: nat)
    requires i < |ToObj(r)|
    ensures J.Plain(ToObj(r)[i].key)
  {
    J.AsciiIsPlain(ToObj(r)[i].key);
  }

  lemma ObjIsPlain(r: Record)
    requires Stored(r)
    ensures J.PlainObj(ToObj(r))
  {
    var o := ToObj(r);
    OpNameIsPlain(r.op);
    forall i | 0 <= i < |o|
      ensures J.PlainMember(o[i])
    {
      KeyIsPlain(r, i);
    }
    J.PlainObjOf(o);
  }

  lemma KeysDiffer(o: J.Obj, r: Record, i: int, j: int)
    requires o == ToObj(r) && 0 <= i < j < |o|
    ensures o[i].key != o[j].key
  {
    assert o[0].key[0] == 'c' && o[1].key[0] == 'h' && o[2].key[0] == 'o' && o[3].key[1] == 'a'
        && o[4].key[1] == 'r' && o[5].key[1] == 'c' && o[6].key[1] == 'e' && o[7].key[0] == 'w'
        && o[3].key[0] == 'p' && o[4].key[0] == 'p' && o[5].key[0] == 's' && o[6].key[0] == 's';
  }

  lemma LookupOwnKey(r: Record, i: nat, key: string)
    requires i < |ToObj(r)| && key == ToObj(r)[i].key
    ensures J.Lookup(ToObj(r), key) == Some(ToObj(r)[i].value)
  {
    var o := ToObj(r);
    forall j | i < j < |o|
      ensures o[j].key != o[i].key
    {
      KeysDiffer(o, r, i, j);
    }
    J.LookupAt(o, i);
  }

  lemma FieldsRoundTrip(r: Record)
    ensures FromObj(ToObj(r)) == F.Readable(r)
  {
    LookupOwnKey(r, 0, "client_ref");
    LookupOwnKey(r, 1, "hash");
    LookupOwnKey(r, 2, "op");
    LookupOwnKey(r, 3, "payload");
    LookupOwnKey(r, 4, "prev_hash");
    LookupOwnKey(r, 5, "schema_version");
    LookupOwnKey(r, 6, "seq");
    LookupOwnKey(r, 7, "wall_ts_ns");
    OpNameUnique(r.op, r.op);
  }

  type LineCodec = F.Format<Record, ReplayError>

  function JsonShape(): JF.Shape<Record, ReplayError> {
    JF.Shape(r => ToObj(r), o => FromObj(o), r => Stored(r))
  }

  /** The JSON line format of the log. */
  function JsonFormat(): LineCodec {
    JF.Lines(JsonShape())
  }

  /** A stored record is read back from its own line. */
  lemma StoredIsFaithful(r: Record)
    requires Stored(r)
    ensures JF.Faithful(JsonShape(), r)
  {
    ObjIsPlain(r);
    FieldsRoundTrip(r);
  }

  /** The JSON codec has the laws the file reasoning rests on. */
  lemma JsonFormatLawful()
    ensures F.Lawful(JsonFormat())
  {
    var s := JsonShape();
    forall r | s.stored(r)
      ensures JF.Faithful(s, r)
    {
      StoredIsFaithful(r);
    }
    JF.LinesLawful(s);
  }
}
