/** What the two append-only files need from their line codec, stated once. The files are then
    reasoned about for any codec with these laws; the JSON codecs are shown to have them. */
module LineFormat {

  datatype Reading<+R, +E> = Unreadable | Rejected(error: E) | Readable(record: R)

  /** `body` prints a record without its newline, `read` reads one line, and `stored` says which
      records can be in a file at all. */
  datatype Format<!R, !E> = Format(body: R -> string, read: string -> Reading<R, E>, stored: R -> bool)

  ghost predicate Lawful<R(!new), E(!new)>(f: Format<R, E>) {
    && (forall r :: f.stored(r) ==> OneLine(f, r) && TornUnreadable(f, r))
    && (forall r, q :: f.stored(r) && f.stored(q) ==> GluedUnreadable(f, r, q))
  }

  /** A record is one non-empty line that reads back as the record. */
  ghost predicate OneLine<R, E>(f: Format<R, E>, r: R) {
    f.body(r) != "" && '\n' !in f.body(r) && f.read(f.body(r)) == Readable(r)
  }

  /** No strict prefix of its line is readable. */
  ghost predicate TornUnreadable<R, E>(f: Format<R, E>, r: R) {
    forall p :: p < f.body(r) ==> f.read(p) == Unreadable
  }

  /** No non-empty piece of its line becomes readable with another line glued behind it. */
  ghost predicate GluedUnreadable<R, E>(f: Format<R, E>, r: R, q: R) {
    forall p :: p != "" && p <= f.body(r) ==> f.read(p + f.body(q)) == Unreadable
  }

  /** The file of a sequence of records. */
  function Lines<R, E>(f: Format<R, E>, rs: seq<R>): string {
    if rs == [] then "" else f.body(rs[0]) + "\n" + Lines(f, rs[1..])
  }

  predicate AllStored<R, E>(f: Format<R, E>, rs: seq<R>) {
    forall i :: 0 <= i < |rs| ==> f.stored(rs[i])
  }

  /** Every record of the sequence is one line that reads back. */
  ghost predicate Legible<R, E>(f: Format<R, E>, rs: seq<R>) {
    rs == [] || (OneLine(f, rs[0]) && Legible(f, rs[1..]))
  }

  lemma {:induction false} StoredIsLegible<R(!new), E(!new)>(f: Format<R, E>, rs: seq<R>)
    requires Lawful(f) && AllStored(f, rs)
    ensures Legible(f, rs)
  {
    if rs != [] {
      assert f.stored(rs[0]);
      forall i | 0 <= i < |rs[1..]|
        ensures f.stored(rs[1..][i])
      {
        assert rs[1..][i] == rs[i + 1];
      }
      StoredIsLegible(f, rs[1..]);
    }
  }

  lemma {:induction false} LinesAppend<R, E>(f: Format<R, E>, a: seq<R>, b: seq<R>)
    ensures Lines(f, a + b) == Lines(f, a) + Lines(f, b)
  {
    if a == [] {
      assert a + b == b;
    } else {
      assert (a + b)[1..] == a[1..] + b && (a + b)[0] == a[0];
      LinesAppend(f, a[1..], b);
    }
  }

  lemma LinesSnoc<R, E>(f: Format<R, E>, rs: seq<R>, r: R)
    ensures Lines(f, rs + [r]) == Lines(f, rs) + (f.body(r) + "\n")
  {
    LinesAppend(f, rs, [r]);
    assert [r][1..] == [];
    assert Lines(f, [r]) == f.body(r) + "\n" + "";
  }

  lemma StoredAppend<R, E>(f: Format<R, E>, a: seq<R>, b: seq<R>)
    ensures AllStored(f, a + b) <==> AllStored(f, a) && AllStored(f, b)
  {
    if AllStored(f, a + b) {
      assert forall i :: 0 <= i < |a| ==> (a + b)[i] == a[i];
      assert forall i :: 0 <= i < |b| ==> (a + b)[|a| + i] == b[i];
    }
  }

  /** Index of the first newline, or the length if there is none. */
  function LineEnd(s: string): (k: nat)
    ensures k <= |s|
  {
    if s == "" || s[0] == '\n' then 0 else 1 + LineEnd(s[1..])
  }

  lemma {:induction false} LineEndIsFirstNewline(s: string)
    ensures forall j :: 0 <= j < LineEnd(s) ==> s[j] != '\n'
    ensures LineEnd(s) < |s| ==> s[LineEnd(s)] == '\n'
  {
    if s != "" && s[0] != '\n' {
      LineEndIsFirstNewline(s[1..]);
      assert forall j :: 1 <= j < LineEnd(s) ==> s[j] == s[1..][j - 1];
    }
  }

  lemma LineEndOf(line: string, rest: string)
    requires '\n' !in line
    requires rest == "" || rest[0] == '\n'
    ensures LineEnd(line + rest) == |line| && (line + rest)[..|line|] == line
    ensures rest != "" ==> (line + rest)[|line| + 1..] == rest[1..]
  {
    var s := line + rest;
    LineEndIsFirstNewline(s);
    assert s[..|line|] == line;
    assert forall j :: 0 <= j < |line| ==> s[j] == line[j] && s[j] != '\n';
    assert rest != "" ==> s[|line|] == '\n';
  }
}
