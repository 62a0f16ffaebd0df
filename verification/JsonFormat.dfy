/** The line format of a record that is written as one JSON object per line. A record type only
    says how it is projected to an object and read back; what a file needs of the format follows. */
module JsonFormat {
  import opened Options
  import J = JsonLine
  import F = LineFormat

  /** `project` gives the object of a record, `read` reads an object back, and `stored` says which
      records can be in a file. */
  datatype Shape<!R, !E> = Shape(project: R -> J.Obj, read: J.Obj -> F.Reading<R, E>, stored: R -> bool)

  /** The record's object is written and read back unchanged, and is the record again. */
  ghost predicate Faithful<R, E>(s: Shape<R, E>, r: R) {
    var o := s.project(r);
    J.PlainObj(o) && o != [] && J.StartsWithLetter(o[0].key) && s.read(o) == F.Readable(r)
  }

  ghost predicate Sound<R(!new), E(!new)>(s: Shape<R, E>) {
    forall r :: s.stored(r) ==> Faithful(s, r)
  }

  function Body<R, E>(s: Shape<R, E>, r: R): string {
    J.Print(s.project(r))
  }

  function ReadLine<R, E>(s: Shape<R, E>, line: string): F.Reading<R, E> {
    match J.Parse(line)
    case None => F.Unreadable
    case Some(o) => s.read(o)
  }

  function Lines<R, E>(s: Shape<R, E>): F.Format<R, E> {
    F.Format(r => Body(s, r), line => ReadLine(s, line), s.stored)
  }

  /** A record is read back from its own line. */
  lemma LineRoundTrip<R, E>(s: Shape<R, E>, r: R)
    requires Faithful(s, r)
    ensures ReadLine(s, Body(s, r)) == F.Readable(r)
  {
    J.PlainRoundTrip(s.project(r));
  }

  lemma TornLine<R, E>(s: Shape<R, E>, r: R, p: string)
    requires p < Body(s, r)
    ensures ReadLine(s, p) == F.Unreadable
  {
    J.StrictPrefixUnreadable(s.project(r), p);
  }

  lemma GluedLine<R, E>(s: Shape<R, E>, r: R, q: R, p: string)
    requires Faithful(s, q) && p != "" && p <= Body(s, r)
    ensures ReadLine(s, p + Body(s, q)) == F.Unreadable
  {
    J.PrintOpens(s.project(q));
    if p == Body(s, r) {
      J.GluedUnreadable(s.project(r), Body(s, q));
    } else {
      J.TornThenGlued(s.project(r), p, Body(s, q));
    }
  }

  lemma OneLine<R, E>(s: Shape<R, E>, r: R)
    requires Faithful(s, r)
    ensures F.OneLine(Lines(s), r)
  {
    J.PrintIsOneLine(s.project(r));
    LineRoundTrip(s, r);
  }

  lemma Torn<R, E>(s: Shape<R, E>, f: F.Format<R, E>, r: R)
    requires f == Lines(s)
    ensures F.TornUnreadable(f, r)
  {
    forall p | p < f.body(r)
      ensures f.read(p) == F.Unreadable
    {
      TornLine(s, r, p);
    }
  }

  lemma Glued<R, E>(s: Shape<R, E>, f: F.Format<R, E>, r: R, q: R)
    requires f == Lines(s) && Faithful(s, q)
    ensures F.GluedUnreadable(f, r, q)
  {
    forall p | p != "" && p <= f.body(r)
      ensures f.read(p + f.body(q)) == F.Unreadable
    {
      GluedLine(s, r, q, p);
    }
  }

  /** The JSON line format of a sound shape has the laws the file reasoning rests on. */
  lemma LinesLawful<R(!new), E(!new)>(s: Shape<R, E>)
    requires Sound(s)
    ensures F.Lawful(Lines(s))
  {
    var f := Lines(s);
    forall r | f.stored(r)
      ensures F.OneLine(f, r) && F.TornUnreadable(f, r)
    {
      assert Faithful(s, r);
      OneLine(s, r);
      Torn(s, f, r);
    }
    forall r, q | f.stored(r) && f.stored(q)
      ensures F.GluedUnreadable(f, r, q)
    {
      assert Faithful(s, q);
      Glued(s, f, r, q);
    }
  }
}
