/** The text of a version 4 UUID (src/idempotency/uuid.cpp; section 4.4 of RFC 4122). The two random
    words are parameters. */
module Uuid {
  import opened Characters
  import H = Sha256

  predicate IsLowerHex(s: string) {
    forall k :: 0 <= k < |s| ==> s[k] in HEX
  }

  /** The value without its `k` low hexadecimal digits. */
  function Shifted(value: nat, k: nat): nat {
    if k == 0 then value else Shifted(value / 16, k - 1)
  }

  lemma {:induction false} ShiftedOnce(value: nat, k: nat)
    ensures Shifted(value, k + 1) == Shifted(value, k) / 16
  {
    if k > 0 {
      ShiftedOnce(value / 16, k - 1);
    }
  }

  /** The digits of a value, highest first, shift by shift. */
  method AppendHex(out: string, value: nat, nibbles: nat) returns (out': string)
    ensures out' == out + H.HexDigits(value, nibbles)
  {
    out' := out;
    var k := nibbles;
    while k > 0
      invariant 0 <= k <= nibbles
      invariant out' == out + H.HexDigits(Shifted(value, k), nibbles - k)
    {
      k := k - 1;
      ShiftedOnce(value, k);
      out' := out' + [H.HexDigit(Shifted(value, k) % 16)];
    }
  }

  /** The version nibble is 4. */
  function Versioned(hi: nat): nat {
    hi / 0x10000 * 0x10000 + 0x4000 + hi % 0x1000
  }

  /** The two highest bits are the variant, 10. */
  function Varied(lo: nat): nat {
    lo % 0x4000_0000_0000_0000 + 0x8000_0000_0000_0000
  }

  /** The sizes of the groups: the first, the three in the middle, and the last. */
  const FIRST: nat := 8
  const MIDDLE: nat := 4
  const LAST: nat := 12

  /** The five groups. */
  function Groups(hi: nat, lo: nat): (g: seq<string>)
    ensures |g| == 5
  {
    var h, l := Versioned(hi), Varied(lo);
    [H.HexDigits(h / 0x1_0000_0000, FIRST), H.HexDigits(h / 0x10000 % 0x10000, MIDDLE),
     H.HexDigits(h % 0x10000, MIDDLE), H.HexDigits(l / 0x1_0000_0000_0000, MIDDLE),
     H.HexDigits(l % 0x1_0000_0000_0000, LAST)]
  }

  function FormatUuidV4(hi: nat, lo: nat): string {
    var g := Groups(hi, lo);
    g[0] + "-" + g[1] + "-" + g[2] + "-" + g[3] + "-" + g[4]
  }

  /** Five groups of lower-case hexadecimal digits, 8-4-4-4-12; below, the version is the first digit
      of the third and the variant shows in the first digit of the fourth. */
  lemma UuidShape(hi: nat, lo: nat)
    ensures var g := Groups(hi, lo);
      && |g[0]| == 8 && |g[1]| == 4 && |g[2]| == 4 && |g[3]| == 4 && |g[4]| == 12
      && (forall k :: 0 <= k < 5 ==> IsLowerHex(g[k]))
      && |FormatUuidV4(hi, lo)| == 36
  {
  }

  lemma UuidVersion(hi: nat, lo: nat)
    ensures Groups(hi, lo)[2][0] == '4' && Groups(hi, lo)[3][0] in "89ab"
  {
    VersionDigit(hi, MIDDLE);
    VariantDigit(lo, MIDDLE);
  }

  lemma VersionDigit(hi: nat, n: nat)
    requires n == 4
    ensures H.HexDigits(Versioned(hi) % 0x10000, n)[0] == '4'
  {
    VersionNibble(hi);
    TopOfFour(Versioned(hi) % 0x10000, n);
  }

  lemma VersionNibble(hi: nat)
    ensures Versioned(hi) % 0x10000 / 0x1000 % 16 == 4
  {
    assert Versioned(hi) % 0x10000 == 0x4000 + hi % 0x1000;
  }

  lemma VariantDigit(lo: nat, n: nat)
    requires n == 4
    ensures H.HexDigits(Varied(lo) / 0x1_0000_0000_0000, n)[0] in "89ab"
  {
    VariantNibble(Varied(lo));
    TopOfFour(Varied(lo) / 0x1_0000_0000_0000, n);
  }

  lemma VariantNibble(v: nat)
    requires 0x8000_0000_0000_0000 <= v < 0xC000_0000_0000_0000
    ensures 8 <= v / 0x1_0000_0000_0000 / 0x1000 % 16 <= 11
  {
    assert 0x8000 <= v / 0x1_0000_0000_0000 < 0xC000;
  }

  lemma TopOfFour(x: nat, n: nat)
    requires n == 4
    ensures H.HexDigits(x, n)[0] == H.HexDigit(x / 0x1000 % 16)
  {
    FirstDigit(x, n);
    ThreeDigitsDown(x, n - 1);
  }

  lemma {:induction false} FirstDigit(x: nat, n: nat)
    requires n > 0
    ensures H.HexDigits(x, n)[0] == H.HexDigit(Shifted(x, n - 1) % 16)
    decreases n
  {
    if n > 1 {
      FirstDigit(x / 16, n - 1);
    }
  }

  lemma ThreeDigitsDown(x: nat, k: nat)
    requires k == 3
    ensures Shifted(x, k) == x / 0x1000
  {
    assert Shifted(x, k) == Shifted(x / 16, k - 1) == Shifted(x / 16 / 16, k - 2) == Shifted(x / 16 / 16 / 16, k - 3);
  }

  // ---------------------------------------------------------------- no random bit is lost

  const TWO64: nat := 0x1_0000_0000_0000_0000

  function Pow16(n: nat): nat {
    if n == 0 then 1 else 16 * Pow16(n - 1)
  }

  lemma HexDigitsDiffer(d: nat, e: nat)
    requires d < 16 && e < 16 && H.HexDigit(d) == H.HexDigit(e)
    ensures d == e
  {
    assert forall k :: 0 <= k < 16 ==> HEX[k] as int == if k < 10 then '0' as int + k else 'a' as int + k - 10;
  }

  lemma LastDigit(a: nat, n: nat)
    requires n > 0
    ensures H.HexDigits(a, n)[..n - 1] == H.HexDigits(a / 16, n - 1)
    ensures H.HexDigits(a, n)[n - 1] == H.HexDigit(a % 16)
  {
  }

  lemma {:induction false} SameDigits(a: nat, b: nat, n: nat)
    requires a < Pow16(n) && b < Pow16(n) && H.HexDigits(a, n) == H.HexDigits(b, n)
    ensures a == b
  {
    if n > 0 {
      LastDigit(a, n);
      LastDigit(b, n);
      Sixteenth(a, n);
      Sixteenth(b, n);
      SameDigits(a / 16, b / 16, n - 1);
      HexDigitsDiffer(a % 16, b % 16);
    }
  }

  lemma Sixteenth(a: nat, n: nat)
    requires n > 0 && a < Pow16(n)
    ensures a / 16 < Pow16(n - 1)
  {
  }

  /** A text of five groups with dashes between them gives back the groups. */
  lemma GroupsOf(g: seq<string>, s: string)
    requires |g| == 5 && |g[0]| == 8 && |g[1]| == |g[2]| == |g[3]| == 4 && |g[4]| == 12
    requires s == g[0] + "-" + g[1] + "-" + g[2] + "-" + g[3] + "-" + g[4]
    ensures |s| == 36 && g == [s[..8], s[9..13], s[14..18], s[19..23], s[24..]]
  {
    assert s[..8] == g[0] && s[9..13] == g[1] && s[14..18] == g[2] && s[19..23] == g[3] && s[24..] == g[4];
  }

  lemma Bounds(n: nat)
    requires n == 4
    ensures Pow16(n) == 0x10000 && Pow16(n + 4) == 0x1_0000_0000 && Pow16(n + 8) == 0x1_0000_0000_0000
  {
    assert Pow16(n) == 16 * Pow16(n - 1) == 256 * Pow16(n - 2) == 4096 * Pow16(n - 3);
    assert Pow16(n + 4) == 16 * Pow16(n + 3) == 256 * Pow16(n + 2) == 4096 * Pow16(n + 1) == 65536 * Pow16(n);
    assert Pow16(n + 8) == 16 * Pow16(n + 7) == 256 * Pow16(n + 6) == 4096 * Pow16(n + 5) == 65536 * Pow16(n + 4);
  }

  /** Words cut into parts at the same places. */
  lemma SameParts(h: nat, h': nat)
    requires h / 0x1_0000_0000 == h' / 0x1_0000_0000
    requires h / 0x10000 % 0x10000 == h' / 0x10000 % 0x10000 && h % 0x10000 == h' % 0x10000
    ensures h == h'
  {
  }

  lemma TopPart(hi: nat)
    requires hi < TWO64
    ensures Versioned(hi) / 0x1_0000_0000 < 0x1_0000_0000
  {
    assert Versioned(hi) / 0x10000 == hi / 0x10000;
  }

  lemma SameGroup(a: nat, b: nat, n: nat, bound: nat)
    requires bound == Pow16(n) && a < bound && b < bound && H.HexDigits(a, n) == H.HexDigits(b, n)
    ensures a == b
  {
    SameDigits(a, b, n);
  }

    /** Two texts are the same exactly if the random words agree in all bits but the four of the version
      and the two of the variant. */
  lemma UuidSameIff(hi: nat, lo: nat, hi': nat, lo': nat)
    requires hi < TWO64 && lo < TWO64 && hi' < TWO64 && lo' < TWO64
    ensures FormatUuidV4(hi, lo) == FormatUuidV4(hi', lo') <==>
      && hi / 0x10000 == hi' / 0x10000 && hi % 0x1000 == hi' % 0x1000
      && lo % 0x4000_0000_0000_0000 == lo' % 0x4000_0000_0000_0000
  {
    if FormatUuidV4(hi, lo) == FormatUuidV4(hi', lo') {
      UuidShape(hi, lo);
      UuidShape(hi', lo');
      GroupsOf(Groups(hi, lo), FormatUuidV4(hi, lo));
      GroupsOf(Groups(hi', lo'), FormatUuidV4(hi', lo'));
      GroupsAgree(Groups(hi, lo), Groups(hi', lo'), hi, lo, hi', lo', MIDDLE);
      Unversioned(hi, hi');
    }
  }

  lemma GroupsAgree(g: seq<string>, g': seq<string>, hi: nat, lo: nat, hi': nat, lo': nat, n: nat)
    requires n == MIDDLE && hi < TWO64 && hi' < TWO64
    requires g == Groups(hi, lo) && g' == Groups(hi', lo') && g == g'
    ensures Versioned(hi) == Versioned(hi') && Varied(lo) == Varied(lo')
  {
    var h, l, h', l' := Versioned(hi), Varied(lo), Versioned(hi'), Varied(lo');
    Bounds(n);
    TopPart(hi);
    TopPart(hi');
    SameGroup(h / 0x1_0000_0000, h' / 0x1_0000_0000, FIRST, 0x1_0000_0000);
    SameGroup(h / 0x10000 % 0x10000, h' / 0x10000 % 0x10000, MIDDLE, 0x10000);
    SameGroup(h % 0x10000, h' % 0x10000, MIDDLE, 0x10000);
    SameGroup(l / 0x1_0000_0000_0000, l' / 0x1_0000_0000_0000, MIDDLE, 0x10000);
    SameGroup(l % 0x1_0000_0000_0000, l' % 0x1_0000_0000_0000, LAST, 0x1_0000_0000_0000);
    SameParts(h, h');
  }

  lemma Unversioned(hi: nat, hi': nat)
    requires Versioned(hi) == Versioned(hi')
    ensures hi / 0x10000 == hi' / 0x10000 && hi % 0x1000 == hi' % 0x1000
  {
  }
}
