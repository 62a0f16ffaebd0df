/** Streaming SHA-256 (src/intentlog/sha256.cpp) against the block definition of FIPS 180-4. */
module Sha256 {
  import opened Arithmetic
  import opened Characters

  // ---------------------------------------------------------------- FIPS 180-4

  /** 32-bit words; their addition wraps. */
  type Word = bv32

  /** Section 3.2. */
  function Rotr(x: Word, n: bv6): Word
    requires 0 < n < 32
  {
    (x >> n) | (x << (32 - n))
  }

  /** Section 4.2.2, by its rows. */
  const K0: seq<Word> :=
    [0x428a2f98, 0x71374491, 0xb5c0fbcf, 0xe9b5dba5, 0x3956c25b, 0x59f111f1, 0x923f82a4, 0xab1c5ed5]
  const K1: seq<Word> :=
    [0xd807aa98, 0x12835b01, 0x243185be, 0x550c7dc3, 0x72be5d74, 0x80deb1fe, 0x9bdc06a7, 0xc19bf174]
  const K2: seq<Word> :=
    [0xe49b69c1, 0xefbe4786, 0x0fc19dc6, 0x240ca1cc, 0x2de92c6f, 0x4a7484aa, 0x5cb0a9dc, 0x76f988da]
  const K3: seq<Word> :=
    [0x983e5152, 0xa831c66d, 0xb00327c8, 0xbf597fc7, 0xc6e00bf3, 0xd5a79147, 0x06ca6351, 0x14292967]
  const K4: seq<Word> :=
    [0x27b70a85, 0x2e1b2138, 0x4d2c6dfc, 0x53380d13, 0x650a7354, 0x766a0abb, 0x81c2c92e, 0x92722c85]
  const K5: seq<Word> :=
    [0xa2bfe8a1, 0xa81a664b, 0xc24b8b70, 0xc76c51a3, 0xd192e819, 0xd6990624, 0xf40e3585, 0x106aa070]
  const K6: seq<Word> :=
    [0x19a4c116, 0x1e376c08, 0x2748774c, 0x34b0bcb5, 0x391c0cb3, 0x4ed8aa4a, 0x5b9cca4f, 0x682e6ff3]
  const K7: seq<Word> :=
    [0x748f82ee, 0x78a5636f, 0x84c87814, 0x8cc70208, 0x90befffa, 0xa4506ceb, 0xbef9a3f7, 0xc67178f2]

  const K: seq<Word> := K0 + K1 + K2 + K3 + K4 + K5 + K6 + K7

  /** The eight working variables, and also a hash value. */
  datatype Vars = Vars(a: Word, b: Word, c: Word, d: Word, e: Word, f: Word, g: Word, h: Word)

  /** Section 5.3.3. */
  const INITIAL := Vars(0x6a09e667, 0xbb67ae85, 0x3c6ef372, 0xa54ff53a, 0x510e527f, 0x9b05688c, 0x1f83d9ab, 0x5be0cd19)

  /** Section 4.1.2. */
  function Ch(x: Word, y: Word, z: Word): Word { (x & y) ^ (!x & z) }

  function Xor3(x: Word, y: Word, z: Word): Word { x ^ y ^ z }

  function Maj(x: Word, y: Word, z: Word): Word { Xor3(x & y, x & z, y & z) }

  function BigSigma0(x: Word): Word { Xor3(Rotr(x, 2), Rotr(x, 13), Rotr(x, 22)) }

  function BigSigma1(x: Word): Word { Xor3(Rotr(x, 6), Rotr(x, 11), Rotr(x, 25)) }

  function SmallSigma0(x: Word): Word { Xor3(Rotr(x, 7), Rotr(x, 18), x >> 3) }

  function SmallSigma1(x: Word): Word { Xor3(Rotr(x, 17), Rotr(x, 19), x >> 10) }

  type Byte = x: int | 0 <= x < 256

  /** A word from four bytes, big-endian. */
  function Pack(b0: Byte, b1: Byte, b2: Byte, b3: Byte): Word {
    (b0 as Word << 24) | (b1 as Word << 16) | (b2 as Word << 8) | b3 as Word
  }

  /** Section 6.2.2 step 1, for t > 15, summed in the order of the source. */
  function Extend(w16: Word, w15: Word, w7: Word, w2: Word): Word {
    w16 + SmallSigma0(w15) + w7 + SmallSigma1(w2)
  }

  /** Section 6.2.2 step 3. */
  function Round(v: Vars, k: Word, w: Word): Vars {
    var t1 := v.h + BigSigma1(v.e) + Ch(v.e, v.f, v.g) + k + w;
    var t2 := BigSigma0(v.a) + Maj(v.a, v.b, v.c);
    Vars(t1 + t2, v.a, v.b, v.c, v.d + t1, v.e, v.f, v.g)
  }

  /** Section 6.2.2 step 4. */
  function Plus(v: Vars, r: Vars): Vars {
    Vars(v.a + r.a, v.b + r.b, v.c + r.c, v.d + r.d, v.e + r.e, v.f + r.f, v.g + r.g, v.h + r.h)
  }

  /** The four word formulas. What follows holds for any of them; SHA-256 is `Fips()`. */
  datatype Formulas = Formulas(
    pack: (Byte, Byte, Byte, Byte) -> Word,
    extend: (Word, Word, Word, Word) -> Word,
    round: (Vars, Word, Word) -> Vars,
    plus: (Vars, Vars) -> Vars)

  function Fips(): Formulas {
    Formulas((a: Byte, b: Byte, c: Byte, d: Byte) => Pack(a, b, c, d),
             (a: Word, b: Word, c: Word, d: Word) => Extend(a, b, c, d),
             (v, k, w) => Round(v, k, w), (v, r) => Plus(v, r))
  }

  /** The message schedule, section 6.2.2 step 1. */
  function Schedule(f: Formulas, block: seq<Byte>, t: nat): Word
    requires |block| == 64 && t < 64
    decreases t
  {
    if t < 16 then f.pack(block[4 * t], block[4 * t + 1], block[4 * t + 2], block[4 * t + 3])
    else
      f.extend(Schedule(f, block, t - 16), Schedule(f, block, t - 15), Schedule(f, block, t - 7),
               Schedule(f, block, t - 2))
  }

  function Rounds(f: Formulas, v: Vars, block: seq<Byte>, n: nat): Vars
    requires |block| == 64 && n <= 64
  {
    if n == 0 then v else f.round(Rounds(f, v, block, n - 1), K[n - 1], Schedule(f, block, n - 1))
  }

  /** Section 6.2.2 steps 2 to 4. */
  function Compress(f: Formulas, v: Vars, block: seq<Byte>): Vars
    requires |block| == 64
  {
    f.plus(v, Rounds(f, v, block, |block|))
  }

  /** The first `n` blocks of a message. */
  function Blocks(f: Formulas, v: Vars, m: seq<Byte>, n: nat): Vars
    requires 64 * n <= |m|
  {
    if n == 0 then v else Compress(f, Blocks(f, v, m, n - 1), m[64 * n - 64..64 * n])
  }

  /** The `k` low bytes of `n`, big-endian. */
  function BigEndian(n: nat, k: nat): (s: seq<Byte>)
    ensures |s| == k
  {
    if k == 0 then [] else BigEndian(n / 256, k - 1) + [n % 256]
  }

  function Zeros(k: nat): (s: seq<Byte>)
    ensures |s| == k
  {
    seq(k, _ => 0)
  }

  /** How many zero bytes reach a length of 56 modulo 64 behind the 0x80 byte. */
  function ZeroCount(length: nat): (k: nat)
    ensures k < 64 && (length + k + 9) % 64 == 0
  {
    (119 - length % 64) % 64
  }

  /** The length of a message fills the last eight bytes. */
  const LENGTH_BYTES: nat := 8

  /** Section 5.1.1: the message, a one bit, zeros, and the length in bits as 64 bits. */
  function Padded(m: seq<Byte>): (p: seq<Byte>)
    ensures |p| % 64 == 0
  {
    m + [0x80] + Zeros(ZeroCount(|m|)) + BigEndian(8 * |m|, LENGTH_BYTES)
  }

  function HexDigit(d: nat): (c: char)
    requires d < 16
    ensures c in HEX
  {
    HEX[d]
  }

  /** The `n` low hexadecimal digits, the highest first. */
  function HexDigits(w: nat, n: nat): (s: string)
    ensures |s| == n && forall k :: 0 <= k < n ==> s[k] in HEX
  {
    if n == 0 then "" else HexDigits(w / 16, n - 1) + [HexDigit(w % 16)]
  }

  function HexWord(w: Word): (s: string)
    ensures |s| == 8 && forall k :: 0 <= k < 8 ==> s[k] in HEX
  {
    HexDigits(w as int, 8)
  }

  function HexWords(ws: seq<Word>): (s: string)
    ensures |s| == 8 * |ws| && forall k :: 0 <= k < |s| ==> s[k] in HEX
  {
    if ws == [] then "" else HexWords(ws[..|ws| - 1]) + HexWord(ws[|ws| - 1])
  }

  function HexOf(v: Vars): string {
    HexWords([v.a, v.b, v.c, v.d, v.e, v.f, v.g, v.h])
  }

  /** SHA-256, as hex text. */
  function Digest(f: Formulas, m: seq<Byte>): string {
    var p := Padded(m);
    HexOf(Blocks(f, INITIAL, p, |p| / 64))
  }

  // ---------------------------------------------------------------- the streaming object

  const TWO64: nat := 0x1_0000_0000_0000_0000

  function ToVars(s: seq<Word>): Vars
    requires |s| == 8
  {
    Vars(s[0], s[1], s[2], s[3], s[4], s[5], s[6], s[7])
  }

  /** The last `n` bytes of the message are at the front of the buffer. */
  ghost predicate Buffered(message: seq<Byte>, n: nat, buffer: seq<Byte>) {
    n <= |message| && n <= |buffer| && buffer[..n] == message[|message| - n..]
  }

  /** The first `blocks` blocks of the message are hashed. */
  ghost predicate Hashed(f: Formulas, message: seq<Byte>, blocks: nat, state: seq<Word>) {
    |state| == 8 && 64 * blocks <= |message| && ToVars(state) == Blocks(f, INITIAL, message, blocks)
  }

  /** The bit counter wraps. */
  function BitLen(length: nat): nat {
    if length == 0 then 0 else EightMore(BitLen(length - 1))
  }

  /** Eight more bits, modulo 2^64. */
  function EightMore(bits: nat): nat {
    if bits + 8 >= TWO64 then bits + 8 - TWO64 else bits + 8
  }

  lemma WrapsOnce(n: nat)
    ensures EightMore(n % TWO64) == (n + 8) % TWO64
  {
    var q, r := n / TWO64, n % TWO64;
    assert n == q * TWO64 + r;
    if r + 8 >= TWO64 {
      Quotient(n + 8, TWO64, q + 1, r + 8 - TWO64);
    } else {
      Quotient(n + 8, TWO64, q, r + 8);
    }
  }

  lemma {:induction false} BitLenIs(length: nat, bits: nat)
    requires bits == 8 * length
    ensures BitLen(length) == bits % TWO64
  {
    if length > 0 {
      BitLenIs(length - 1, bits - 8);
      WrapsOnce(bits - 8);
    }
  }

  lemma BufferGrows(m: seq<Byte>, n: nat, buffer: seq<Byte>, x: Byte)
    requires Buffered(m, n, buffer) && n < |buffer|
    ensures Buffered(m + [x], n + 1, buffer[n := x])
  {
    var b, all := buffer[n := x], m + [x];
    assert b[..n + 1] == buffer[..n] + [x];
    assert all[|all| - (n + 1)..] == m[|m| - n..] + [x];
  }

  lemma {:induction false} BlocksExtend(f: Formulas, v: Vars, m: seq<Byte>, x: Byte, n: nat)
    requires 64 * n <= |m|
    ensures Blocks(f, v, m + [x], n) == Blocks(f, v, m, n)
  {
    if n > 0 {
      BlocksExtend(f, v, m, x, n - 1);
      assert (m + [x])[64 * n - 64..64 * n] == m[64 * n - 64..64 * n];
    }
  }

  /** A full buffer completes a block. */
  lemma BlockDone(f: Formulas, m: seq<Byte>, blocks: nat, buffer: seq<Byte>, state: seq<Word>)
    requires Hashed(f, m, blocks, state) && |m| == 64 * blocks + 64
    requires |buffer| == 64 && Buffered(m, 64, buffer)
    ensures Compress(f, ToVars(state), buffer) == Blocks(f, INITIAL, m, blocks + 1)
  {
    assert buffer[..64] == buffer;
    assert m[64 * (blocks + 1) - 64..64 * (blocks + 1)] == m[|m| - 64..];
  }

  lemma FinishedIsDigest(f: Formulas, m: seq<Byte>, p: seq<Byte>, blocks: nat, state: seq<Word>)
    requires p == Padded(m) && |p| == 64 * blocks + 64
    requires |state| == 8 && ToVars(state) == Blocks(f, INITIAL, p, blocks + 1)
    ensures HexOf(ToVars(state)) == Digest(f, m)
  {
    BlockCount(|p|, blocks);
    DigestOfBlocks(f, m, p, blocks + 1, ToVars(state));
  }

  lemma BlockCount(length: nat, blocks: nat)
    requires length == 64 * blocks + 64
    ensures length / 64 == blocks + 1
  {
  }

  lemma DigestOfBlocks(f: Formulas, m: seq<Byte>, p: seq<Byte>, n: nat, v: Vars)
    requires p == Padded(m) && n == |p| / 64 && 64 * n <= |p| && v == Blocks(f, INITIAL, p, n)
    ensures HexOf(v) == Digest(f, m)
  {
  }

  class Hasher {
    const formulas: Formulas
    const state: array<Word>
    const buffer: array<Byte>
    var bitLen: nat
    var bufferLen: nat
    ghost var message: seq<Byte>
    ghost var blocks: nat

    /** What has been fed is hashed up to the last whole block, and the rest is in the buffer. */
    ghost predicate Valid()
      reads this, state, buffer
    {
      && state.Length == 8 && buffer.Length == 64
      && bufferLen < 64 && |message| == 64 * blocks + bufferLen
      && bitLen == BitLen(|message|)
      && Buffered(message, bufferLen, buffer[..])
      && Hashed(formulas, message, blocks, state[..])
    }

    constructor (formulas: Formulas)
      ensures Valid() && message == [] && this.formulas == formulas && fresh(state) && fresh(buffer)
    {
      this.formulas := formulas;
      state := new Word[8] [0x6a09e667, 0xbb67ae85, 0x3c6ef372, 0xa54ff53a,
                            0x510e527f, 0x9b05688c, 0x1f83d9ab, 0x5be0cd19];
      buffer := new Byte[64](_ => 0);
      bitLen := 0;
      bufferLen := 0;
      message := [];
      blocks := 0;
    }

    /** One block: the schedule, sixty-four rounds, and the addition. */
    method Transform()
      requires state.Length == 8 && buffer.Length == 64
      modifies state
      ensures ToVars(state[..]) == Compress(formulas, old(ToVars(state[..])), buffer[..])
    {
      var start := Vars(state[0], state[1], state[2], state[3], state[4], state[5], state[6], state[7]);
      var w := BuildSchedule(formulas, buffer);
      var v := start;
      for i := 0 to 64
        invariant v == Rounds(formulas, start, buffer[..], i)
        invariant state[..] == old(state[..])
      {
        v := formulas.round(v, K[i], w[i]);
      }
      v := formulas.plus(start, v);
      state[0], state[1], state[2], state[3] := v.a, v.b, v.c, v.d;
      state[4], state[5], state[6], state[7] := v.e, v.f, v.g, v.h;
    }

    /** One byte; a full buffer is transformed at once. */
    method Push(x: Byte)
      requires Valid()
      modifies this`bitLen, this`bufferLen, this`message, this`blocks, state, buffer
      ensures Valid() && message == old(message) + [x]
    {
      Take(x);
      if bufferLen == 64 {
        Absorb();
      }
    }

    /** The full buffer is transformed into the state. */
    method Absorb()
      requires state.Length == 8 && buffer.Length == 64 && bufferLen == 64
      requires |message| == 64 * blocks + 64 && bitLen == BitLen(|message|)
      requires Buffered(message, bufferLen, buffer[..]) && Hashed(formulas, message, blocks, state[..])
      modifies this`bufferLen, this`blocks, state
      ensures Valid()
    {
      BlockDone(formulas, message, blocks, buffer[..], state[..]);
      Transform();
      bufferLen := 0;
      blocks := blocks + 1;
    }

    /** The byte goes into the buffer and is counted. */
    method Take(x: Byte)
      requires Valid()
      modifies this`bitLen, this`bufferLen, this`message, buffer
      ensures bufferLen == old(bufferLen) + 1 && message == old(message) + [x] && bitLen == BitLen(|message|)
      ensures Buffered(message, bufferLen, buffer[..]) && Hashed(formulas, message, blocks, state[..])
    {
      BufferGrows(message, bufferLen, buffer[..], x);
      BlocksExtend(formulas, INITIAL, message, x, blocks);
      message := message + [x];
      buffer[bufferLen] := x;
      bufferLen := bufferLen + 1;
      bitLen := EightMore(bitLen);
      assert buffer[..] == old(buffer[..])[bufferLen - 1 := x];
    }

    method Update(data: seq<Byte>)
      requires Valid()
      modifies this`bitLen, this`bufferLen, this`message, this`blocks, state, buffer
      ensures Valid() && message == old(message) + data
    {
      for i := 0 to |data|
        invariant Valid() && message == old(message) + data[..i]
      {
        Push(data[i]);
        OneMoreByte(old(message), data, i);
      }
      assert data[..|data|] == data;
    }

    /** Padding, length, and the last block. The object cannot be used afterwards. */
    method Hex() returns (out: string)
      requires Valid()
      modifies this`bitLen, this`bufferLen, this`message, this`blocks, state, buffer
      ensures out == Digest(formulas, old(message))
    {
      ghost var m := message;
      var totalBits := bitLen;
      Pad();
      var lengthBytes := LengthBytes(totalBits);
      LengthField(|m|);
      Finish(lengthBytes);
      FinishedIsDigest(formulas, m, message + lengthBytes, blocks, state[..]);
      out := HexOfState(state);
    }

    /** The one bit, and zeros. */
    method Pad()
      requires Valid()
      modifies this`bitLen, this`bufferLen, this`message, this`blocks, state, buffer
      ensures Valid() && bufferLen == 56
      ensures message == old(message) + [0x80] + Zeros(ZeroCount(|old(message)|))
    {
      ghost var m := message;
      Push(0x80);
      PushZeros(m);
    }

    /** Zeros up to 56 bytes in the buffer. */
    method PushZeros(ghost m: seq<Byte>)
      requires Valid() && message == m + [0x80]
      modifies this`bitLen, this`bufferLen, this`message, this`blocks, state, buffer
      ensures Valid() && bufferLen == 56 && message == m + [0x80] + Zeros(ZeroCount(|m|))
    {
      ghost var k: nat := 0;
      assert m + [0x80] + Zeros(0) == m + [0x80];
      while bufferLen != 56
        invariant Valid() && k <= ZeroCount(|m|)
        invariant message == m + [0x80] + Zeros(k)
        decreases ZeroCount(|m|) - k
      {
        MoreZeros(|m|, k, blocks, bufferLen);
        Push(0);
        OneMoreZero(m + [0x80], k);
        k := k + 1;
      }
      EnoughZeros(|m|, k, blocks);
    }

    /** The length goes straight into the buffer, and the last block is transformed. */
    method Finish(lengthBytes: seq<Byte>)
      requires Valid() && bufferLen == 56 && |lengthBytes| == 8
      modifies this`bufferLen, state, buffer
      ensures state.Length == 8 && |message + lengthBytes| == 64 * blocks + 64
      ensures ToVars(state[..]) == Blocks(formulas, INITIAL, message + lengthBytes, blocks + 1)
    {
      ghost var m := message;
      assert m + lengthBytes[..0] == m;
      for i := 0 to 8
        invariant bufferLen == 56 + i && buffer.Length == 64
        invariant state[..] == old(state[..])
        invariant Buffered(m + lengthBytes[..i], 56 + i, buffer[..])
        invariant Hashed(formulas, m + lengthBytes[..i], blocks, state[..])
      {
        BufferGrows(m + lengthBytes[..i], 56 + i, buffer[..], lengthBytes[i]);
        BlocksExtend(formulas, INITIAL, m + lengthBytes[..i], lengthBytes[i], blocks);
        assert m + lengthBytes[..i] + [lengthBytes[i]] == m + lengthBytes[..i + 1];
        ghost var before := buffer[..];
        buffer[bufferLen] := lengthBytes[i];
        bufferLen := bufferLen + 1;
        assert buffer[..] == before[56 + i := lengthBytes[i]];
      }
      assert lengthBytes[..8] == lengthBytes;
      BlockDone(formulas, m + lengthBytes, blocks, buffer[..], state[..]);
      Transform();
      bufferLen := 0;
    }
  }

  method BuildSchedule(f: Formulas, block: array<Byte>) returns (w: array<Word>)
    requires block.Length == 64
    ensures fresh(w) && w.Length == 64 && forall t :: 0 <= t < 64 ==> w[t] == Schedule(f, block[..], t)
  {
    w := new Word[64](_ => 0);
    for i := 0 to 16
      invariant forall t :: 0 <= t < i ==> w[t] == Schedule(f, block[..], t)
    {
      w[i] := f.pack(block[i * 4], block[i * 4 + 1], block[i * 4 + 2], block[i * 4 + 3]);
    }
    ExtendSchedule(f, block[..], w);
  }

  method ExtendSchedule(f: Formulas, ghost block: seq<Byte>, w: array<Word>)
    requires |block| == 64 && w.Length == 64 && forall t :: 0 <= t < 16 ==> w[t] == Schedule(f, block, t)
    modifies w
    ensures forall t :: 0 <= t < 64 ==> w[t] == Schedule(f, block, t)
  {
    for i := 16 to 64
      invariant forall t :: 0 <= t < i ==> w[t] == Schedule(f, block, t)
    {
      w[i] := f.extend(w[i - 16], w[i - 15], w[i - 7], w[i - 2]);
    }
  }

  /** A byte of a word, the highest first. */
  function ByteOf(n: nat, i: nat): (b: Byte)
    requires i < 4
  {
    (if i == 0 then n / 0x1000000 else if i == 1 then n / 0x10000 else if i == 2 then n / 0x100 else n) % 0x100
  }

  function TwoDigits(b: Byte): (s: string)
    ensures |s| == 2
  {
    [HexDigit(b / 16 % 16)] + [HexDigit(b % 16)]
  }

  lemma TwoMore(x: nat, n: nat)
    ensures HexDigits(x, n + 2) == HexDigits(x / 0x100, n) + TwoDigits(x % 0x100)
  {
    assert x / 0x100 == x / 16 / 16 && x % 0x100 / 16 % 16 == x / 16 % 16 && x % 0x100 % 16 == x % 16;
    assert HexDigits(x, n + 2) == HexDigits(x / 16, n + 1) + [HexDigit(x % 16)];
    assert HexDigits(x / 16, n + 1) == HexDigits(x / 16 / 16, n) + [HexDigit(x / 16 % 16)];
  }

  /** The digits of the first `i` bytes. */
  function DigitsUpTo(n: nat, i: nat): string
    requires i <= 4
  {
    if i == 0 then "" else DigitsUpTo(n, i - 1) + TwoDigits(ByteOf(n, i - 1))
  }

  lemma FourDigits(x: nat, k: nat)
    requires k == 4
    ensures HexDigits(x, k) == TwoDigits(x / 0x100 % 0x100) + TwoDigits(x % 0x100)
  {
    TwoMore(x, k - 2);
    TwoMore(x / 0x100, k - 4);
  }

  lemma AllDigits(n: nat, k: nat)
    requires k == 8
    ensures HexDigits(n, k)
      == TwoDigits(ByteOf(n, 0)) + TwoDigits(ByteOf(n, 1)) + TwoDigits(ByteOf(n, 2)) + TwoDigits(ByteOf(n, 3))
  {
    TwoMore(n, k - 2);
    TwoMore(n / 0x100, k - 4);
    FourDigits(n / 0x10000, k - 4);
    BytesDown(n);
  }

  lemma BytesDown(n: nat)
    ensures n / 0x100 / 0x100 == n / 0x10000 && n / 0x10000 / 0x100 == n / 0x1000000
  {
  }

  lemma FourPieces(n: nat, i: nat)
    requires i == 4
    ensures DigitsUpTo(n, i)
      == TwoDigits(ByteOf(n, 0)) + TwoDigits(ByteOf(n, 1)) + TwoDigits(ByteOf(n, 2)) + TwoDigits(ByteOf(n, 3))
  {
    assert DigitsUpTo(n, i - 3) == "" + TwoDigits(ByteOf(n, i - 4));
    assert DigitsUpTo(n, i - 2) == DigitsUpTo(n, i - 3) + TwoDigits(ByteOf(n, i - 3));
    assert DigitsUpTo(n, i - 1) == DigitsUpTo(n, i - 2) + TwoDigits(ByteOf(n, i - 2));
  }

  /** Byte by byte, two digits each. */
  method HexOfWord(n: nat, ghost k: nat) returns (out: string)
    requires k == 8
    ensures out == HexDigits(n, k)
  {
    out := "";
    var i := 0;
    while i < 4
      invariant 0 <= i <= 4 && out == DigitsUpTo(n, i)
    {
      out := out + TwoDigits(ByteOf(n, i));
      i := i + 1;
    }
    AllDigits(n, k);
    FourPieces(n, i);
  }

  method HexOfState(state: array<Word>) returns (out: string)
    requires state.Length == 8
    ensures out == HexOf(ToVars(state[..]))
  {
    out := "";
    for i := 0 to 8
      invariant out == HexWords(state[..i])
    {
      var word := HexOfWord(state[i] as int, 8);
      assert state[..i + 1][..i] == state[..i];
      out := out + word;
    }
    assert state[..8] == state[..];
    HexOfWords(state[..]);
  }

  lemma HexOfWords(words: seq<Word>)
    requires |words| == 8
    ensures HexWords(words) == HexOf(ToVars(words))
  {
    EightWords(words, ToVars(words));
  }

  lemma EightWords(words: seq<Word>, v: Vars)
    requires |words| == 8 && v == ToVars(words)
    ensures words == [v.a, v.b, v.c, v.d, v.e, v.f, v.g, v.h]
  {
  }

  lemma OneMoreByte(m: seq<Byte>, data: seq<Byte>, i: nat)
    requires i < |data|
    ensures m + data[..i] + [data[i]] == m + data[..i + 1]
  {
  }

  // ---------------------------------------------------------------- padding

  lemma OneMoreZero(m: seq<Byte>, k: nat)
    ensures m + Zeros(k) + [0] == m + Zeros(k + 1)
  {
  }

  lemma EnoughZeros(length: nat, k: nat, blocks: nat)
    requires length + 1 + k == 64 * blocks + 56 && k <= ZeroCount(length)
    ensures k == ZeroCount(length)
  {
  }

  lemma MoreZeros(length: nat, k: nat, blocks: nat, bufferLen: nat)
    requires k <= ZeroCount(length) && length + 1 + k == 64 * blocks + bufferLen && bufferLen < 64 && bufferLen != 56
    ensures k < ZeroCount(length)
  {
  }

  function Pow256(k: nat): (p: nat)
    ensures p > 0
  {
    if k == 0 then 1 else 256 * Pow256(k - 1)
  }

  /** The shifts and masks of the source. */
  method LengthBytes(totalBits: nat) returns (s: seq<Byte>)
    ensures s == BigEndian(totalBits, LENGTH_BYTES)
  {
    s := [];
    for i := 0 to 8
      invariant s == BigEndian(totalBits, LENGTH_BYTES)[..i]
    {
      BigEndianAt(totalBits, 8, i);
      s := s + [totalBits / Pow256(7 - i) % 256];
    }
  }

  lemma DivDiv(n: nat, b: nat, c: nat, d: nat)
    requires b > 0 && c > 0 && d > 0 && d == b * c
    ensures n / b / c == n / d
  {
    var m := n / b;
    var q, r, low := m / c, m % c, n % b;
    Regroup(n, m, q, r, low, b, c, d);
    Quotient(n, d, q, r * b + low);
  }

  lemma Regroup(n: nat, m: nat, q: nat, r: nat, low: nat, b: nat, c: nat, d: nat)
    requires d == b * c && m == q * c + r && n == m * b + low && r < c && low < b
    ensures r * b + low >= 0 && n == q * d + (r * b + low) && r * b + low < d
  {
    assert m * b == q * c * b + r * b;
    assert q * c * b == q * d;
    Monotone(b, r, c - 1);
    assert (c - 1) * b == d - b;
  }

  lemma {:induction false} BigEndianAt(n: nat, k: nat, i: nat)
    requires i < k
    ensures BigEndian(n, k)[i] == n / Pow256(k - 1 - i) % 256
  {
    if i < k - 1 {
      BigEndianAt(n / 256, k - 1, i);
      DivDiv(n, 256, Pow256(k - 2 - i), Pow256(k - 1 - i));
    }
  }

  /** Only the low bytes count, so the counter may wrap. */
  lemma {:induction false} BigEndianLow(q: nat, r: nat, k: nat)
    ensures BigEndian(q * Pow256(k) + r, k) == BigEndian(r, k)
  {
    if k > 0 {
      LowByte(q, r, Pow256(k - 1));
      BigEndianLow(q, r / 256, k - 1);
    }
  }

  lemma LowByte(q: nat, r: nat, p: nat)
    ensures var n := q * (256 * p) + r; n / 256 == q * p + r / 256 && n % 256 == r % 256
  {
    var t := q * p;
    assert q * (256 * p) == 256 * t;
  }

  /** The wrapped counter gives the length field of the message. */
  lemma LengthField(length: nat)
    ensures BigEndian(BitLen(length), LENGTH_BYTES) == BigEndian(8 * length, LENGTH_BYTES)
  {
    BitLenIs(length, 8 * length);
    BigEndianWraps(8 * length);
  }

  lemma BigEndianWraps(n: nat)
    ensures BigEndian(n, LENGTH_BYTES) == BigEndian(n % TWO64, LENGTH_BYTES)
  {
    assert Pow256(8) == TWO64;
    BigEndianLow(n / TWO64, n % TWO64, 8);
  }

  lemma {:induction false} BigEndianInjective(a: nat, b: nat, k: nat)
    requires a < Pow256(k) && b < Pow256(k) && BigEndian(a, k) == BigEndian(b, k)
    ensures a == b
  {
    if k > 0 {
      var x, y := BigEndian(a, k), BigEndian(b, k);
      assert x[..k - 1] == BigEndian(a / 256, k - 1) && y[..k - 1] == BigEndian(b / 256, k - 1);
      assert x[k - 1] == a % 256 && y[k - 1] == b % 256;
      BigEndianInjective(a / 256, b / 256, k - 1);
    }
  }

  /** Below 2^61 bytes the padding is unambiguous: different messages have different padded
      messages, so two messages with one digest exhibit a collision of the block function's fold. */
  lemma PaddedInjective(a: seq<Byte>, b: seq<Byte>)
    requires 8 * |a| < TWO64 && 8 * |b| < TWO64 && Padded(a) == Padded(b)
    ensures a == b
  {
    var p, q := Padded(a), Padded(b);
    assert p[|p| - 8..] == BigEndian(8 * |a|, LENGTH_BYTES) && q[|q| - 8..] == BigEndian(8 * |b|, LENGTH_BYTES);
    assert Pow256(8) == TWO64;
    BigEndianInjective(8 * |a|, 8 * |b|, 8);
    assert p[..|a|] == a && q[..|b|] == b;
  }

  // ---------------------------------------------------------------- any split of the message

  /** However the message is split into updates, the digest is that of the whole message. */
  method HashPieces(formulas: Formulas, pieces: seq<seq<Byte>>) returns (out: string)
    ensures out == Digest(formulas, Joined(pieces))
  {
    var hasher := new Hasher(formulas);
    for i := 0 to |pieces|
      invariant fresh(hasher) && fresh(hasher.state) && fresh(hasher.buffer)
      invariant hasher.formulas == formulas && hasher.Valid() && hasher.message == Joined(pieces[..i])
    {
      assert pieces[..i + 1][..i] == pieces[..i];
      hasher.Update(pieces[i]);
    }
    assert pieces[..|pieces|] == pieces;
    out := hasher.Hex();
  }

  function Joined(pieces: seq<seq<Byte>>): seq<Byte> {
    if pieces == [] then [] else Joined(pieces[..|pieces| - 1]) + pieces[|pieces| - 1]
  }
}
