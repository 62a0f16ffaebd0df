/** One entry of the tamper-evident ledger (src/ledger/ledger.cpp) and the JSON line it is
    stored as. */
module LedgerEntry {
  import opened Options
  import F = LineFormat
  import J = JsonLine
  import JF = JsonFormat

  datatype Entry = Entry(seqNo: int, prevHash: string, payload: string, hash: string)

  datatype NoError = NoError

  type EntryCodec = F.Format<Entry, NoError>

  function ToObj(e: Entry): J.Obj {
    [J.Member("hash", J.Str(e.hash)),
     J.Member("payload", J.Str(e.payload)),
     J.Member("prev_hash", J.Str(e.prevHash)),
     J.Member("seq", J.Num(e.seqNo))]
  }

  /** Every field must be present and of its type, or the line is not an entry at all. */
  function FromObj(o: J.Obj): F.Reading<Entry, NoError> {
    match (J.Lookup(o, "seq"), J.Lookup(o, "prev_hash"), J.Lookup(o, "payload"), J.Lookup(o, "hash"))
    case (Some(Num(n)), Some(Str(prev)), Some(Str(payload)), Some(Str(hash))) =>
      F.Readable(Entry(n, prev, payload, hash))
    case (_, _, _, _) => F.Unreadable
  }

  predicate Stored(e: Entry) {
    J.Plain(e.prevHash) && J.Plain(e.payload) && J.Plain(e.hash)
  }

  function JsonShape(): JF.Shape<Entry, NoError> {
    JF.Shape(e => ToObj(e), o => FromObj(o), e => Stored(e))
  }

  function JsonFormat(): EntryCodec {
    JF.Lines(JsonShape())
  }

  lemma KeyIsPlain(e: Entry, i: nat)
    requires i < |ToObj(e)|
    ensures J.Plain(ToObj(e)[i].key)
  {
    J.AsciiIsPlain(ToObj(e)[i].key);
  }

  lemma ObjIsPlain(e: Entry)
    requires Stored(e)
    ensures J.PlainObj(ToObj(e))
  {
    var o := ToObj(e);
    forall i | 0 <= i < |o|
      ensures J.PlainMember(o[i])
    {
      KeyIsPlain(e, i);
    }
    J.PlainObjOf(o);
  }

  lemma LookupOwnKey(e: Entry, i: nat, key: string)
    requires i < |ToObj(e)| && key == ToObj(e)[i].key
    ensures J.Lookup(ToObj(e), key) == Some(ToObj(e)[i].value)
  {
    var o := ToObj(e);
    assert o[0].key[0] == 'h' && o[1].key[1] == 'a' && o[2].key[1] == 'r' && o[3].key[0] == 's';
    assert o[1].key[0] == 'p' && o[2].key[0] == 'p';
    J.LookupAt(o, i);
  }

  lemma FieldsRoundTrip(e: Entry)
    ensures FromObj(ToObj(e)) == F.Readable(e)
  {
    LookupOwnKey(e, 0, "hash");
    LookupOwnKey(e, 1, "payload");
    LookupOwnKey(e, 2, "prev_hash");
    LookupOwnKey(e, 3, "seq");
  }

  lemma StoredIsFaithful(e: Entry)
    requires Stored(e)
    ensures JF.Faithful(JsonShape(), e)
  {
    ObjIsPlain(e);
    FieldsRoundTrip(e);
  }

  /** The JSON codec has the laws the file reasoning rests on. */
  lemma JsonFormatLawful()
    ensures F.Lawful(JsonFormat())
  {
    var s := JsonShape();
    forall e | s.stored(e)
      ensures JF.Faithful(s, e)
    {
      StoredIsFaithful(e);
    }
    JF.LinesLawful(s);
  }
}
