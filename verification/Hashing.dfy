/** SHA-256 as the digest of the intent log, of the ledger and of signal signatures
    (src/intentlog/intent_log.cpp, src/ledger/ledger.cpp, src/idempotency/idempotency.cpp). */
module Hashing {
  import opened Characters
  import H = Sha256
  import J = JsonLine
  import IL = IntentLog
  import L = Ledger
  import E = LedgerEvidence
  import S = Signature

  /** The bytes of a text. */
  function Bytes(s: string): (b: seq<H.Byte>)
    ensures |b| == |s|
  {
    seq(|s|, i requires 0 <= i < |s| => s[i] as int % 256)
  }

  function Sha256Hex(s: string): string {
    H.Digest(H.Fips(), Bytes(s))
  }

  lemma HexIsAscii(s: string)
    requires forall k :: 0 <= k < |s| ==> s[k] in HEX
    ensures forall k :: 0 <= k < |s| ==> s[k] as int < 0x80
  {
    assert forall c :: c in HEX ==> c as int < 0x80;
  }

  /** A digest is text that is stored and read back unchanged. */
  lemma DigestIsPlain(f: H.Formulas, m: seq<H.Byte>)
    ensures |H.Digest(f, m)| == 64 && J.Plain(H.Digest(f, m))
  {
    HexIsAscii(H.Digest(f, m));
    J.AsciiIsPlain(H.Digest(f, m));
  }

  /** So the layouts of log and ledger and the dispatcher's signing are sound with it, and a ledger's
      hash chain can be cut apart again. */
  lemma Sha256IsUsable()
    ensures IL.Usable(IL.JsonLayout(Sha256Hex)) && S.Sound(S.JsonSigning(Sha256Hex))
    ensures L.Usable(L.JsonLayout(Sha256Hex)) && E.FixedLength(Sha256Hex, 64)
  {
    forall s: string
      ensures J.Plain(Sha256Hex(s)) && |Sha256Hex(s)| == 64 && Sha256Hex(s) != ""
    {
      DigestIsPlain(H.Fips(), Bytes(s));
    }
    IL.JsonLayoutUsable(Sha256Hex);
    L.JsonLayoutUsable(Sha256Hex);
    S.JsonSigningSound(Sha256Hex);
  }
}
