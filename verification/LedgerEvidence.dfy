/** What the ledger's hash chain and its signed checkpoint prove about the entries behind them
    (verify_chain and verify_against_checkpoint in src/ledger/ledger.cpp).

    The digest is a parameter; what is asked of it is one length for all its results, and that the
    texts hashed in the ledgers at hand do not collide. */
module LedgerEvidence {
  import opened Ledger
  import opened LedgerEntry

  /** What an entry's hash is taken over. */
  function HashedText(e: Entry): string {
    e.prevHash + e.payload
  }

  ghost predicate FixedLength(h: Digest, n: nat) {
    forall s :: |h(s)| == n
  }

  /** The two entries hash different texts to one digest. */
  predicate Clash(h: Digest, e: Entry, f: Entry) {
    HashedText(e) != HashedText(f) && h(HashedText(e)) == h(HashedText(f))
  }

  ghost predicate NoCollision(h: Digest, a: seq<Entry>, b: seq<Entry>) {
    forall i, j :: 0 <= i < |a| && 0 <= j < |b| ==> !Clash(h, a[i], b[j])
  }

  /** An entry of a verified ledger: its number, its hash, and the hash before it. */
  predicate StandsAt(h: Digest, es: seq<Entry>, i: nat)
    requires i < |es|
  {
    && es[i].seqNo == i
    && es[i].hash == h(HashedText(es[i])) && es[i].hash != ""
    && es[i].prevHash == if i == 0 then "" else es[i - 1].hash
  }

  ghost predicate AllStand(h: Digest, es: seq<Entry>) {
    forall i :: 0 <= i < |es| ==> StandsAt(h, es, i)
  }

  /** verify_chain entry by entry. */
  lemma LinksMeans(y: Layout, es: seq<Entry>, i: nat)
    requires i < |es|
    ensures Links(y, es[..i], es[i]) <==> StandsAt(y.digest, es, i)
  {
    HeadOfPrefix(es, i);
  }

  lemma VerifiedMeans(y: Layout, es: seq<Entry>)
    ensures Verified(y, es) <==> AllStand(y.digest, es)
  {
    forall i | 0 <= i < |es|
      ensures Links(y, es[..i], es[i]) <==> StandsAt(y.digest, es, i)
    {
      LinksMeans(y, es, i);
    }
  }

  lemma StandsInFront(h: Digest, es: seq<Entry>, n: nat)
    requires AllStand(h, es) && n <= |es|
    ensures AllStand(h, es[..n])
  {
    forall i | 0 <= i < n
      ensures StandsAt(h, es[..n], i)
    {
      assert StandsAt(h, es, i);
    }
  }

  // ---------------------------------------------------------------- the head hash

  /** Entries that hash one text, behind hashes of one length, are alike in both parts. */
  lemma SplitAlike(p: string, s: string, q: string, t: string)
    requires |p| == |q| && p + s == q + t
    ensures p == q && s == t
  {
    assert p == (p + s)[..|p|] && s == (p + s)[|p|..];
    assert q == (q + t)[..|q|] && t == (q + t)[|q|..];
  }

  lemma HashBefore(h: Digest, n: nat, es: seq<Entry>, i: nat)
    requires AllStand(h, es) && FixedLength(h, n) && 0 < i < |es|
    ensures es[i].prevHash == es[i - 1].hash && |es[i].prevHash| == n
  {
    assert StandsAt(h, es, i) && StandsAt(h, es, i - 1);
  }

  /** Equal hashes of two entries mean equal hashed texts. */
  lemma EqualHashes(h: Digest, a: seq<Entry>, b: seq<Entry>, i: nat, j: nat)
    requires AllStand(h, a) && AllStand(h, b) && NoCollision(h, a, b) && i < |a| && j < |b|
    ensures a[i].hash == b[j].hash <==> HashedText(a[i]) == HashedText(b[j])
  {
    assert StandsAt(h, a, i) && StandsAt(h, b, j);
    assert !Clash(h, a[i], b[j]);
  }

  /** Equal head hashes walk back: entries that hash one text point to one hash before them. */
  lemma {:induction false} HeadsWalkBack(h: Digest, n: nat, a: seq<Entry>, b: seq<Entry>, d: nat, i: nat)
    requires AllStand(h, a) && AllStand(h, b) && |b| == |a| + d && i < |a|
    requires FixedLength(h, n) && NoCollision(h, a, b) && a[|a| - 1].hash == b[|b| - 1].hash
    ensures a[i].hash == b[i + d].hash
    ensures i > 0 ==> a[i].prevHash == b[i + d].prevHash && a[i].payload == b[i + d].payload
    decreases |a| - i
  {
    if i + 1 < |a| {
      HeadsWalkBack(h, n, a, b, d, i + 1);
      HashBefore(h, n, a, i + 1);
      HashBefore(h, n, b, i + 1 + d);
    }
    if i > 0 {
      EqualHashes(h, a, b, i, i + d);
      HashBefore(h, n, a, i);
      HashBefore(h, n, b, i + d);
      SplitAlike(a[i].prevHash, a[i].payload, b[i + d].prevHash, b[i + d].payload);
    }
  }

  lemma {:induction false} HeadsWalkForth(h: Digest, a: seq<Entry>, b: seq<Entry>, d: nat, i: nat)
    requires AllStand(h, a) && AllStand(h, b) && |b| == |a| + d && i < |a|
    requires HashedText(a[0]) == HashedText(b[d])
    requires forall k :: 0 < k < |a| ==> a[k].payload == b[k + d].payload
    ensures a[i].hash == b[i + d].hash
  {
    assert StandsAt(h, a, i) && StandsAt(h, b, i + d);
    if i > 0 {
      HeadsWalkForth(h, a, b, d, i - 1);
    }
  }

  /** The ledgers end in the same payloads, up to the first entry of the shorter one, whose payload
      begins with what the longer one has there as the hash before it. */
  ghost predicate EndAlike(a: seq<Entry>, b: seq<Entry>)
    requires 0 < |a| <= |b|
  {
    var d := |b| - |a|;
    && a[0].payload == b[d].prevHash + b[d].payload
    && forall k :: 0 < k < |a| ==> a[k].payload == b[k + d].payload
  }

  lemma FirstHashesPayload(h: Digest, es: seq<Entry>)
    requires AllStand(h, es) && es != []
    ensures HashedText(es[0]) == es[0].payload
  {
    assert StandsAt(h, es, 0);
  }

  /** When two ledgers that verify end in one hash. */
  lemma HeadHashSameIff(y: Layout, n: nat, a: seq<Entry>, b: seq<Entry>)
    requires Verified(y, a) && Verified(y, b) && 0 < |a| <= |b|
    requires FixedLength(y.digest, n) && NoCollision(y.digest, a, b)
    ensures HeadHash(a) == HeadHash(b) <==> EndAlike(a, b)
  {
    VerifiedMeans(y, a);
    VerifiedMeans(y, b);
    SameHeadIff(y.digest, n, a, b);
  }

  lemma SameHeadIff(h: Digest, n: nat, a: seq<Entry>, b: seq<Entry>)
    requires AllStand(h, a) && AllStand(h, b) && 0 < |a| <= |b|
    requires FixedLength(h, n) && NoCollision(h, a, b)
    ensures a[|a| - 1].hash == b[|b| - 1].hash <==> EndAlike(a, b)
  {
    var d := |b| - |a|;
    FirstHashesPayload(h, a);
    if a[|a| - 1].hash == b[|b| - 1].hash {
      forall k | 0 < k < |a|
        ensures a[k].payload == b[k + d].payload
      {
        HeadsWalkBack(h, n, a, b, d, k);
      }
      HeadsWalkBack(h, n, a, b, d, 0);
      EqualHashes(h, a, b, 0, d);
    }
    if EndAlike(a, b) {
      HeadsWalkForth(h, a, b, d, |a| - 1);
    }
  }

  /** The head hash and the number of entries commit to the whole ledger. */
  lemma HeadHashFixesLedger(y: Layout, n: nat, a: seq<Entry>, b: seq<Entry>)
    requires Verified(y, a) && Verified(y, b) && |a| == |b|
    requires FixedLength(y.digest, n) && NoCollision(y.digest, a, b)
    ensures HeadHash(a) == HeadHash(b) <==> a == b
  {
    VerifiedMeans(y, a);
    VerifiedMeans(y, b);
    if a != [] && HeadHash(a) == HeadHash(b) {
      SameHeadSameEntries(y.digest, n, a, b);
    }
  }

  lemma SameHeadSameEntries(h: Digest, n: nat, a: seq<Entry>, b: seq<Entry>)
    requires AllStand(h, a) && AllStand(h, b) && 0 < |a| == |b|
    requires FixedLength(h, n) && NoCollision(h, a, b) && a[|a| - 1].hash == b[|b| - 1].hash
    ensures a == b
  {
    forall i | 0 <= i < |a|
      ensures a[i] == b[i]
    {
      HeadsWalkBack(h, n, a, b, 0, i);
      assert StandsAt(h, a, i) && StandsAt(h, b, i);
      if i == 0 {
        EqualHashes(h, a, b, 0, 0);
        FirstHashesPayload(h, a);
        FirstHashesPayload(h, b);
      }
    }
  }

  /** The number of entries is needed: every verified ledger of at least two entries ends in the same
      hash as one that verifies and has a single entry. */
  lemma LengthIsNotHashed(y: Layout, b: seq<Entry>) returns (a: seq<Entry>)
    requires Verified(y, b) && |b| >= 2
    ensures Verified(y, a) && |a| == 1 && HeadHash(a) == HeadHash(b)
  {
    VerifiedMeans(y, b);
    var last := b[|b| - 1];
    assert StandsAt(y.digest, b, |b| - 1);
    a := [Entry(0, "", HashedText(last), last.hash)];
    assert HashedText(a[0]) == HashedText(last);
    assert StandsAt(y.digest, a, 0);
    VerifiedMeans(y, a);
  }

  // ---------------------------------------------------------------- edits

  /** A changed payload goes unseen exactly if its entry still has the same digest; otherwise the chain
      is broken at that entry and at no other. */
  lemma EditIsSeen(y: Layout, es: seq<Entry>, i: nat, text: string)
    requires Verified(y, es) && i < |es|
    ensures var edited := es[i := es[i].(payload := text)];
      && (Verified(y, edited) <==> y.digest(es[i].prevHash + text) == y.digest(es[i].prevHash + es[i].payload))
      && (forall k: nat :: k < |es| && k != i ==> Links(y, edited[..k], edited[k]))
  {
    var edited := es[i := es[i].(payload := text)];
    VerifiedMeans(y, es);
    VerifiedMeans(y, edited);
    EditStands(y.digest, es, i, text, edited);
    forall k: nat | k < |es| && k != i
      ensures Links(y, edited[..k], edited[k])
    {
      LinksMeans(y, edited, k);
    }
  }

  lemma EditStands(h: Digest, es: seq<Entry>, i: nat, text: string, edited: seq<Entry>)
    requires AllStand(h, es) && i < |es| && edited == es[i := es[i].(payload := text)]
    ensures forall k: nat :: k < |es| && k != i ==> StandsAt(h, edited, k)
    ensures StandsAt(h, edited, i) <==> h(es[i].prevHash + text) == h(es[i].prevHash + es[i].payload)
    ensures AllStand(h, edited) <==> StandsAt(h, edited, i)
  {
    assert StandsAt(h, es, i);
    assert HashedText(edited[i]) == es[i].prevHash + text;
    forall k: nat | k < |es| && k != i
      ensures StandsAt(h, edited, k)
    {
      assert StandsAt(h, es, k);
    }
  }

  // ---------------------------------------------------------------- the checkpoint

  /** A checkpoint of `signed` is reached by exactly the verified ledgers that still begin with it:
      truncation and rewriting are seen, and entries behind it are not. */
  lemma CheckpointHoldsIff(y: Layout, n: nat, signed: seq<Entry>, live: seq<Entry>)
    requires Verified(y, signed) && signed != [] && Verified(y, live)
    requires FixedLength(y.digest, n) && NoCollision(y.digest, signed, live)
    ensures Reaches(live, |signed|, HeadHash(signed)) <==> signed <= live
  {
    var size := |signed|;
    if size <= |live| {
      FrontIsVerified(y, live, size);
      FrontNoCollision(y.digest, signed, live, size);
      HeadHashFixesLedger(y, n, signed, live[..size]);
      HeadOfPrefix(live, size);
      assert signed <= live <==> signed == live[..size];
    }
  }

  lemma FrontIsVerified(y: Layout, es: seq<Entry>, n: nat)
    requires Verified(y, es) && n <= |es|
    ensures Verified(y, es[..n])
  {
    VerifiedMeans(y, es);
    StandsInFront(y.digest, es, n);
    VerifiedMeans(y, es[..n]);
  }

  lemma FrontNoCollision(h: Digest, a: seq<Entry>, b: seq<Entry>, n: nat)
    requires NoCollision(h, a, b) && n <= |b|
    ensures NoCollision(h, a, b[..n]) && NoCollision(h, b[..n], a)
  {
    forall i, j | 0 <= i < n && 0 <= j < |a|
      ensures !Clash(h, b[..n][i], a[j])
    {
      assert !Clash(h, a[j], b[i]);
    }
  }

  /** Under a smaller number of entries, which is not signed, the same head hash is reached by exactly
      the ledgers that hold the signed payloads spliced into their own. */
  lemma CheckpointUnderOtherSizeIff(y: Layout, n: nat, signed: seq<Entry>, live: seq<Entry>, size: nat)
    requires Verified(y, signed) && Verified(y, live) && 0 < size < |signed|
    requires FixedLength(y.digest, n) && NoCollision(y.digest, signed, live)
    ensures Reaches(live, size, HeadHash(signed)) <==> size <= |live| && EndAlike(live[..size], signed)
  {
    if size <= |live| {
      FrontIsVerified(y, live, size);
      FrontNoCollision(y.digest, signed, live, size);
      HeadOfPrefix(live, size);
      HeadHashSameIff(y, n, live[..size], signed);
    }
  }
}
