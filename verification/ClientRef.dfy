/** Client refs: how they are minted and how a child names its parent
    (src/idempotency/idempotency.cpp). */
module ClientRef {
  import opened Characters
  import J = JsonLine

  /** The first eight characters of a signature. */
  function Sig8(signature: string): string {
    if |signature| < 8 then signature else signature[..8]
  }

  function MakeClientRef(strategy: string, signature: string, uuid: string): string {
    strategy + "-" + Sig8(signature) + "-" + uuid
  }

  function ChildRef(parent: string, k: int): string {
    parent + "#" + J.PrintInt(if k < 1 then 1 else k)
  }

  /** Index of the last '#', or the length if there is none. */
  function LastHash(s: string, upTo: nat): (p: nat)
    requires upTo <= |s|
    ensures p < upTo || p == |s|
    ensures p < |s| ==> s[p] == '#'
    ensures forall j :: 0 <= j < upTo && (p < |s| ==> p < j) ==> s[j] != '#'
  {
    if upTo == 0 then |s|
    else if s[upTo - 1] == '#' then upTo - 1
    else LastHash(s, upTo - 1)
  }

  predicate IsChildRef(s: string) {
    var p := LastHash(s, |s|);
    p < |s| && p > 0 && p + 1 < |s|
  }

  function ParentOf(s: string): string {
    if IsChildRef(s) then s[..LastHash(s, |s|)] else ""
  }

  /** A minted ref is the strategy, eight characters of the signature and the UUID; with UUIDs of one
      length, another UUID gives another ref, and so does another strategy or another signal part. */
  lemma MintedRefsDistinct(strategy: string, strategy': string, signature: string, signature': string,
                           uuid: string, uuid': string)
    requires |uuid| == |uuid'| && |signature| >= 8 && |signature'| >= 8
    ensures MakeClientRef(strategy, signature, uuid) == MakeClientRef(strategy', signature', uuid')
      <==> strategy == strategy' && signature[..8] == signature'[..8] && uuid == uuid'
  {
    var a, b := strategy + "-" + signature[..8] + "-", strategy' + "-" + signature'[..8] + "-";
    if a + uuid == b + uuid' {
      SameEnd(a, uuid, b, uuid');
      assert strategy + "-" + (signature[..8] + "-") == a && strategy' + "-" + (signature'[..8] + "-") == b;
      SameEnd(strategy + "-", signature[..8] + "-", strategy' + "-", signature'[..8] + "-");
      SameEnd(strategy, "-", strategy', "-");
      SameEnd(signature[..8], "-", signature'[..8], "-");
    }
  }

  lemma SameEnd(a: string, x: string, b: string, y: string)
    requires |x| == |y| && a + x == b + y
    ensures a == b && x == y
  {
    var s := a + x;
    assert a == s[..|s| - |x|] && x == s[|s| - |x|..];
    var t := b + y;
    assert b == t[..|t| - |y|] && y == t[|t| - |y|..];
  }

  /** A minted child names its parent, whatever the parent looks like, unless the parent is empty. */
  lemma ParentOfChild(parent: string, k: int)
    ensures ParentOf(ChildRef(parent, k)) == parent
    ensures IsChildRef(ChildRef(parent, k)) <==> parent != ""
  {
    var n := if k < 1 then 1 else k;
    var digits := J.PrintInt(n);
    var s := ChildRef(parent, k);
    assert s[|parent|] == '#' && s[..|parent|] == parent;
    assert forall j :: |parent| < j < |s| ==> s[j] == digits[j - |parent| - 1] && IsDigit(s[j]);
    assert LastHash(s, |s|) == |parent|;
  }

  /** A ref names the text before its last '#', if there is text on both sides of it. */
  lemma ParentOfSays(parent: string, rest: string)
    requires '#' !in rest
    ensures ParentOf(parent + "#" + rest) == if rest == "" then "" else parent
    ensures ParentOf(rest) == ""
  {
    var s := parent + "#" + rest;
    assert s[|parent|] == '#' && s[..|parent|] == parent;
    assert forall j :: |parent| < j < |s| ==> s[j] == rest[j - |parent| - 1];
    assert LastHash(s, |s|) == |parent|;
  }

  /** Different children of any parents have different refs. */
  lemma ChildRefsDistinct(p: string, k: int, q: string, m: int)
    requires k >= 1 && m >= 1 && ChildRef(p, k) == ChildRef(q, m)
    ensures p == q && k == m
  {
    var s := ChildRef(p, k);
    ParentOfChild(p, k);
    ParentOfChild(q, m);
    assert s[|p| + 1..] == J.PrintInt(k) && s[|q| + 1..] == J.PrintInt(m);
    J.IntRoundTrip(k, ",");
    J.IntRoundTrip(m, ",");
  }
}
