/**
 * SHA-256 as sections 4 to 6 of FIPS 180-4 define it, over messages of whole bytes. This is the reference that
 * CryptCrypto is proved against; nothing here follows the shape of the program.
 */
module Sha256 {
  import opened Types

  type Word = bv32

  // ----- Section 4.1.2: functions -----

  /** Three-way exclusive or, named so that proofs can treat it as one operation. */
  function Xor3(x: Word, y: Word, z: Word): Word {
    x ^ y ^ z
  }

  function Ch(x: Word, y: Word, z: Word): Word {
    (x & y) ^ (!x & z)
  }

  function Maj(x: Word, y: Word, z: Word): Word {
    Xor3(x & y, x & z, y & z)
  }

  function BigSigma0(x: Word): Word {
    Xor3(x.RotateRight(2), x.RotateRight(13), x.RotateRight(22))
  }

  function BigSigma1(x: Word): Word {
    Xor3(x.RotateRight(6), x.RotateRight(11), x.RotateRight(25))
  }

  function SmallSigma0(x: Word): Word {
    Xor3(x.RotateRight(7), x.RotateRight(18), x >> 3)
  }

  function SmallSigma1(x: Word): Word {
    Xor3(x.RotateRight(17), x.RotateRight(19), x >> 10)
  }

  // ----- Sections 4.2.2 and 5.3.3: constants -----

  const K_0: seq<Word> := [
    0x428a2f98, 0x71374491, 0xb5c0fbcf, 0xe9b5dba5, 0x3956c25b, 0x59f111f1, 0x923f82a4, 0xab1c5ed5,
    0xd807aa98, 0x12835b01, 0x243185be, 0x550c7dc3, 0x72be5d74, 0x80deb1fe, 0x9bdc06a7, 0xc19bf174]

  const K_16: seq<Word> := [
    0xe49b69c1, 0xefbe4786, 0x0fc19dc6, 0x240ca1cc, 0x2de92c6f, 0x4a7484aa, 0x5cb0a9dc, 0x76f988da,
    0x983e5152, 0xa831c66d, 0xb00327c8, 0xbf597fc7, 0xc6e00bf3, 0xd5a79147, 0x06ca6351, 0x14292967]

  const K_32: seq<Word> := [
    0x27b70a85, 0x2e1b2138, 0x4d2c6dfc, 0x53380d13, 0x650a7354, 0x766a0abb, 0x81c2c92e, 0x92722c85,
    0xa2bfe8a1, 0xa81a664b, 0xc24b8b70, 0xc76c51a3, 0xd192e819, 0xd6990624, 0xf40e3585, 0x106aa070]

  const K_48: seq<Word> := [
    0x19a4c116, 0x1e376c08, 0x2748774c, 0x34b0bcb5, 0x391c0cb3, 0x4ed8aa4a, 0x5b9cca4f, 0x682e6ff3,
    0x748f82ee, 0x78a5636f, 0x84c87814, 0x8cc70208, 0x90befffa, 0xa4506ceb, 0xbef9a3f7, 0xc67178f2]

  const K := K_0 + K_16 + K_32 + K_48

  const INITIAL: seq<Word> := [
    0x6a09e667, 0xbb67ae85, 0x3c6ef372, 0xa54ff53a, 0x510e527f, 0x9b05688c, 0x1f83d9ab, 0x5be0cd19]

  // ----- Section 5: padding and parsing -----

  predicate LeavesLengthField(n: nat, k: nat) {
    (n + 1 + k) % 64 == 56
  }

  /** The number of zero bytes between the byte 0x80 and the length field, after an n-byte message. */
  function ZeroCount(n: nat): (k: nat)
    ensures LeavesLengthField(n, k)
  {
    (119 - n % 64) % 64
  }

  /** It is the least number that ends 8 bytes short of a block. */
  lemma ZeroCountIsLeast(n: nat, k: nat)
    requires LeavesLengthField(n, k)
    ensures ZeroCount(n) <= k
  {
  }

  function LowByte(x: nat): byte {
    Low8(x) as byte
  }

  /** The k low-order bytes of x, most significant first. */
  function BigEndian(x: nat, k: nat): (s: seq<byte>)
    ensures |s| == k
  {
    if k == 0 then [] else BigEndian(x / 0x100, k - 1) + [LowByte(x)]
  }

  function Zeros(k: nat): (s: seq<byte>)
    ensures |s| == k
  {
    seq(k, _ => 0)
  }

  lemma TailFills(n: nat)
    ensures (n + 9 + ZeroCount(n)) % 64 == 0
  {
    assert LeavesLengthField(n, ZeroCount(n));
  }

  /** The bit 1, zeros and a length field of the given number of bits, modulo 2^64, behind n bytes. */
  function Tail(n: nat, bits: nat): (s: seq<byte>)
    ensures |s| == 9 + ZeroCount(n)
  {
    [0x80] + Zeros(ZeroCount(n)) + BigEndian(Low64(bits), 8)
  }

  /** What section 5.1.1 appends to a message. */
  function Padded(message: seq<byte>): (s: seq<byte>)
    ensures WholeBlocks(s)
  {
    TailFills(|message|);
    message + Tail(|message|, 8 * |message|)
  }

  predicate WholeBlocks(s: seq<byte>) {
    |s| % 64 == 0
  }

  function Join(b0: byte, b1: byte, b2: byte, b3: byte): Word {
    ((b0 as Word) << 24) | ((b1 as Word) << 16) | ((b2 as Word) << 8) | (b3 as Word)
  }

  /** Word t of a 512-bit block, section 5.2.1. */
  function WordAt(block: seq<byte>, t: nat): Word
    requires |block| == 64 && t < 16
  {
    Join(block[4 * t], block[4 * t + 1], block[4 * t + 2], block[4 * t + 3])
  }

  // ----- Section 6.2.2: the compression of one block -----

  /** Addition modulo 2^32, named so that proofs can treat it as one operation. */
  function Plus(x: Word, y: Word): Word {
    x + y
  }

  function NextWord(w2: Word, w7: Word, w15: Word, w16: Word): Word {
    Plus(Plus(Plus(SmallSigma1(w2), w7), SmallSigma0(w15)), w16)
  }

  function Schedule(block: seq<byte>, t: nat): Word
    requires |block| == 64
  {
    if t < 16 then WordAt(block, t)
    else NextWord(Schedule(block, t - 2), Schedule(block, t - 7), Schedule(block, t - 15), Schedule(block, t - 16))
  }

  /** The working variables a to h. */
  datatype Vars = Vars(a: Word, b: Word, c: Word, d: Word, e: Word, f: Word, g: Word, h: Word)

  function T1(h: Word, sigma: Word, ch: Word, k: Word, w: Word): Word {
    h + sigma + ch + k + w
  }

  function T2(sigma: Word, maj: Word): Word {
    Plus(sigma, maj)
  }

  function Round(v: Vars, k: Word, w: Word): Vars {
    var t1 := T1(v.h, BigSigma1(v.e), Ch(v.e, v.f, v.g), k, w);
    var t2 := T2(BigSigma0(v.a), Maj(v.a, v.b, v.c));
    Vars(Plus(t1, t2), v.a, v.b, v.c, Plus(v.d, t1), v.e, v.f, v.g)
  }

  function Rounds(v: Vars, block: seq<byte>, t: nat): Vars
    requires |block| == 64 && t <= 64
  {
    if t == 0 then v else Round(Rounds(v, block, t - 1), K[t - 1], Schedule(block, t - 1))
  }

  function VarsOf(h: seq<Word>): Vars
    requires |h| == 8
  {
    Vars(h[0], h[1], h[2], h[3], h[4], h[5], h[6], h[7])
  }

  function WordsOf(v: Vars): (r: seq<Word>)
    ensures |r| == 8 && VarsOf(r) == v
  {
    [v.a, v.b, v.c, v.d, v.e, v.f, v.g, v.h]
  }

  function AddWords(h: seq<Word>, v: seq<Word>): (r: seq<Word>)
    requires |h| == |v|
    ensures |r| == |h|
  {
    seq(|h|, i requires 0 <= i < |h| => Plus(h[i], v[i]))
  }

  function Compress(h: seq<Word>, block: seq<byte>): (r: seq<Word>)
    requires |h| == 8 && |block| == 64
    ensures |r| == 8
  {
    AddWords(h, WordsOf(Rounds(VarsOf(h), block, 64)))
  }

  /** Compresses the whole blocks of s, first to last. */
  function Fold(h: seq<Word>, s: seq<byte>): (r: seq<Word>)
    requires |h| == 8 && WholeBlocks(s)
    ensures |r| == 8
    decreases |s|
  {
    if s == [] then h else Fold(Compress(h, s[..64]), s[64..])
  }

  // ----- The hash -----

  function WordBytes(w: Word): (s: seq<byte>)
    ensures |s| == 4
  {
    [((w >> 24) & 0xff) as byte, ((w >> 16) & 0xff) as byte, ((w >> 8) & 0xff) as byte, (w & 0xff) as byte]
  }

  function WordsBytes(h: seq<Word>): (s: seq<byte>)
    ensures |s| == 4 * |h|
  {
    seq(4 * |h|, p requires 0 <= p < 4 * |h| => WordBytes(h[p / 4])[p % 4])
  }

  function Hash(message: seq<byte>): (r: seq<byte>)
    ensures |r| == 32
  {
    WordsBytes(Fold(INITIAL, Padded(message)))
  }

  /** Compressing two runs of whole blocks one after the other is compressing them together. */
  lemma {:induction false} FoldAppend(h: seq<Word>, s: seq<byte>, t: seq<byte>)
    requires |h| == 8 && WholeBlocks(s) && WholeBlocks(t)
    ensures WholeBlocks(s + t)
    ensures Fold(h, s + t) == Fold(Fold(h, s), t)
    decreases |s|
  {
    hide Compress;
    if s == [] {
      assert s + t == t;
    } else {
      assert (s + t)[..64] == s[..64];
      assert (s + t)[64..] == s[64..] + t;
      FoldAppend(Compress(h, s[..64]), s[64..], t);
    }
  }

  lemma FoldOne(h: seq<Word>, block: seq<byte>)
    requires |h| == 8 && |block| == 64
    ensures WholeBlocks(block)
    ensures Fold(h, block) == Compress(h, block)
  {
    assert block[..64] == block && block[64..] == [];
  }
}
