/** Facts about the reference that do not follow its form: what its functions and constants are, as numbers and bits. */
module Sha256Facts {
  import opened Types
  import opened Sha256

  // ----- Words and bytes -----

  lemma JoinedValue(b0: byte, b1: byte, b2: byte, b3: byte)
    ensures (((b0 as Word) << 24) | ((b1 as Word) << 16) | ((b2 as Word) << 8) | (b3 as Word)) as nat ==
            0x100 * (0x100 * (0x100 * (b0 as nat) + b1 as nat) + b2 as nat) + b3 as nat
  {
  }

  lemma Joined(b0: byte, b1: byte, b2: byte, b3: byte)
    ensures Join(b0, b1, b2, b3) == ((b0 as Word) << 24) | ((b1 as Word) << 16) | ((b2 as Word) << 8) | (b3 as Word)
  {
  }

  /** Joining reads four bytes as a big-endian number. */
  lemma JoinIsBigEndian(b0: byte, b1: byte, b2: byte, b3: byte)
    ensures Join(b0, b1, b2, b3) as nat ==
            0x100 * (0x100 * (0x100 * (b0 as nat) + b1 as nat) + b2 as nat) + b3 as nat
  {
    hide *;
    Joined(b0, b1, b2, b3);
    JoinedValue(b0, b1, b2, b3);
  }

  /** Printing undoes joining, so it prints the most significant byte first. */
  lemma PrintedIsJoined(b0: byte, b1: byte, b2: byte, b3: byte)
    ensures WordBytes(Join(b0, b1, b2, b3)) == [b0, b1, b2, b3]
  {
  }

  lemma JoinedIsPrinted(w: Word)
    ensures var b := WordBytes(w); Join(b[0], b[1], b[2], b[3]) == w
  {
  }

  function BigEndianValue(s: seq<byte>): nat {
    if s == [] then 0 else 0x100 * BigEndianValue(s[..|s| - 1]) + s[|s| - 1] as nat
  }

  /** The length field of k bytes, read as a big-endian number, is the length modulo 2^(8k). */
  lemma {:induction false} LengthReadsBack(x: nat, k: nat)
    ensures BigEndianValue(BigEndian(x, k)) == x % Power(k)
  {
    if k > 0 {
      LengthReadsBack(x / 0x100, k - 1);
      ByteValue(x);
      var s := BigEndian(x, k);
      assert s[..k - 1] == BigEndian(x / 0x100, k - 1);
      hide BigEndian, LowByte;
      ModuloNext(x / 0x100, x % 0x100, Power(k - 1));
    }
  }

  lemma ByteValue(x: nat)
    ensures LowByte(x) as nat == x % 0x100
  {
  }

  function Power(k: nat): (p: nat)
    ensures p > 0
  {
    if k == 0 then 1 else 0x100 * Power(k - 1)
  }

  lemma ModuloNext(a: nat, r: nat, m: nat)
    requires m > 0 && r < 0x100
    ensures 0x100 * (a % m) + r == (0x100 * a + r) % (0x100 * m)
  {
    var q := a / m;
    assert 0x100 * a + r == q * (0x100 * m) + (0x100 * (a % m) + r);
    QuotientIsUnique(0x100 * a + r, q, 0x100 * m, 0x100 * (a % m) + r);
  }

  lemma QuotientIsUnique(x: int, q: int, m: int, r: int)
    requires 0 <= r < m && x == q * m + r
    ensures x % m == r
  {
    var d := x / m - q;
    assert d * m == r - x % m;
    assert d >= 1 ==> d * m >= m;
    assert d <= -1 ==> d * m <= -m;
  }

  // ----- Operations on words -----

  /** Addition in 64 bits, where nothing wraps, and then modulo 2^32. */
  lemma PlusIsModular(x: Word, y: Word)
    ensures Plus(x, y) as bv64 == ((x as bv64) + (y as bv64)) & 0xffff_ffff
  {
  }

  /** A bit is set when it is in exactly one or in all three of the words. */
  lemma Xor3IsParity(x: Word, y: Word, z: Word)
    ensures Xor3(x, y, z) == (x & !y & !z) | (!x & y & !z) | (!x & !y & z) | (x & y & z)
  {
  }

  /** The bits of the first word choose between the other two. */
  lemma ChChooses(x: Word, y: Word, z: Word)
    ensures Ch(x, y, z) & x == y & x && Ch(x, y, z) & !x == z & !x
  {
  }

  /** A bit is set when it is set in two of the three words. */
  lemma MajIsOfPairs(x: Word, y: Word, z: Word)
    ensures Maj(x, y, z) == (x & y) | (x & z) | (y & z)
  {
    assert (x & y) ^ (x & z) ^ (y & z) == (x & y) | (x & z) | (y & z);
  }

  // ----- Constants -----

  predicate Constant(t: nat, k: Word) {
    t < 64 && K[t] == k
  }

  lemma Constants0()
    ensures Constant(0, 0x428a2f98) && Constant(1, 0x71374491)
    ensures Constant(2, 0xb5c0fbcf) && Constant(3, 0xe9b5dba5)
  {
  }

  lemma Constants4()
    ensures Constant(4, 0x3956c25b) && Constant(5, 0x59f111f1)
    ensures Constant(6, 0x923f82a4) && Constant(7, 0xab1c5ed5)
  {
  }

  lemma Constants8()
    ensures Constant(8, 0xd807aa98) && Constant(9, 0x12835b01)
    ensures Constant(10, 0x243185be) && Constant(11, 0x550c7dc3)
  {
  }

  lemma Constants12()
    ensures Constant(12, 0x72be5d74) && Constant(13, 0x80deb1fe)
    ensures Constant(14, 0x9bdc06a7) && Constant(15, 0xc19bf174)
  {
  }

  lemma Constants16()
    ensures Constant(16, 0xe49b69c1) && Constant(17, 0xefbe4786)
    ensures Constant(18, 0x0fc19dc6) && Constant(19, 0x240ca1cc)
  {
  }

  lemma Constants20()
    ensures Constant(20, 0x2de92c6f) && Constant(21, 0x4a7484aa)
    ensures Constant(22, 0x5cb0a9dc) && Constant(23, 0x76f988da)
  {
  }

  lemma Constants24()
    ensures Constant(24, 0x983e5152) && Constant(25, 0xa831c66d)
    ensures Constant(26, 0xb00327c8) && Constant(27, 0xbf597fc7)
  {
  }

  lemma Constants28()
    ensures Constant(28, 0xc6e00bf3) && Constant(29, 0xd5a79147)
    ensures Constant(30, 0x06ca6351) && Constant(31, 0x14292967)
  {
  }

  lemma Constants32()
    ensures Constant(32, 0x27b70a85) && Constant(33, 0x2e1b2138)
    ensures Constant(34, 0x4d2c6dfc) && Constant(35, 0x53380d13)
  {
  }

  lemma Constants36()
    ensures Constant(36, 0x650a7354) && Constant(37, 0x766a0abb)
    ensures Constant(38, 0x81c2c92e) && Constant(39, 0x92722c85)
  {
  }

  lemma Constants40()
    ensures Constant(40, 0xa2bfe8a1) && Constant(41, 0xa81a664b)
    ensures Constant(42, 0xc24b8b70) && Constant(43, 0xc76c51a3)
  {
  }

  lemma Constants44()
    ensures Constant(44, 0xd192e819) && Constant(45, 0xd6990624)
    ensures Constant(46, 0xf40e3585) && Constant(47, 0x106aa070)
  {
  }

  lemma Constants48()
    ensures Constant(48, 0x19a4c116) && Constant(49, 0x1e376c08)
    ensures Constant(50, 0x2748774c) && Constant(51, 0x34b0bcb5)
  {
  }

  lemma Constants52()
    ensures Constant(52, 0x391c0cb3) && Constant(53, 0x4ed8aa4a)
    ensures Constant(54, 0x5b9cca4f) && Constant(55, 0x682e6ff3)
  {
  }

  lemma Constants56()
    ensures Constant(56, 0x748f82ee) && Constant(57, 0x78a5636f)
    ensures Constant(58, 0x84c87814) && Constant(59, 0x8cc70208)
  {
  }

  lemma Constants60()
    ensures Constant(60, 0x90befffa) && Constant(61, 0xa4506ceb)
    ensures Constant(62, 0xbef9a3f7) && Constant(63, 0xc67178f2)
  {
  }

  /** k is the first 32 bits of the fractional part of the cube root of p; c is the integral part. */
  predicate IsCubeRoot(k: nat, c: nat, p: nat) {
    var v := c * 0x1_0000_0000 + k;
    && k < 0x1_0000_0000
    && v * v * v <= p * 0x1_0000_0000_0000_0000_0000_0000 < (v + 1) * (v + 1) * (v + 1)
  }

  predicate IsSquareRoot(k: nat, c: nat, p: nat) {
    var v := c * 0x1_0000_0000 + k;
    && k < 0x1_0000_0000
    && v * v <= p * 0x1_0000_0000_0000_0000 < (v + 1) * (v + 1)
  }

  /** Constant t of the rounds comes from the cube root of p. */
  predicate FromCubeRoot(t: nat, c: nat, p: nat) {
    t < 64 && IsCubeRoot(K[t] as nat, c, p)
  }

  predicate FromSquareRoot(t: nat, c: nat, p: nat) {
    t < 8 && IsSquareRoot(INITIAL[t] as nat, c, p)
  }

  lemma CubeRoot(t: nat, w: Word, k: nat, c: nat, p: nat)
    requires Constant(t, w) && w as nat == k && IsCubeRoot(k, c, p)
    ensures FromCubeRoot(t, c, p)
  {
    hide IsCubeRoot;
  }

  lemma SquareRoot(t: nat, w: Word, k: nat, c: nat, p: nat)
    requires t < 8 && INITIAL[t] == w && w as nat == k && IsSquareRoot(k, c, p)
    ensures FromSquareRoot(t, c, p)
  {
    hide IsSquareRoot;
  }

  lemma CubeRoots0()
    ensures FromCubeRoot(0, 1, 2) && FromCubeRoot(1, 1, 3) && FromCubeRoot(2, 1, 5) && FromCubeRoot(3, 1, 7)
    ensures FromCubeRoot(4, 2, 11) && FromCubeRoot(5, 2, 13) && FromCubeRoot(6, 2, 17) && FromCubeRoot(7, 2, 19)
  {
    hide Constant, FromCubeRoot;
    Constants0();
    Constants4();
    CubeRoot(0, 0x428a2f98, 0x428a2f98, 1, 2);
    CubeRoot(1, 0x71374491, 0x71374491, 1, 3);
    CubeRoot(2, 0xb5c0fbcf, 0xb5c0fbcf, 1, 5);
    CubeRoot(3, 0xe9b5dba5, 0xe9b5dba5, 1, 7);
    CubeRoot(4, 0x3956c25b, 0x3956c25b, 2, 11);
    CubeRoot(5, 0x59f111f1, 0x59f111f1, 2, 13);
    CubeRoot(6, 0x923f82a4, 0x923f82a4, 2, 17);
    CubeRoot(7, 0xab1c5ed5, 0xab1c5ed5, 2, 19);
  }

  lemma CubeRoots8()
    ensures FromCubeRoot(8, 2, 23) && FromCubeRoot(9, 3, 29) && FromCubeRoot(10, 3, 31) && FromCubeRoot(11, 3, 37)
    ensures FromCubeRoot(12, 3, 41) && FromCubeRoot(13, 3, 43) && FromCubeRoot(14, 3, 47) && FromCubeRoot(15, 3, 53)
  {
    hide Constant, FromCubeRoot;
    Constants8();
    Constants12();
    CubeRoot(8, 0xd807aa98, 0xd807aa98, 2, 23);
    CubeRoot(9, 0x12835b01, 0x12835b01, 3, 29);
    CubeRoot(10, 0x243185be, 0x243185be, 3, 31);
    CubeRoot(11, 0x550c7dc3, 0x550c7dc3, 3, 37);
    CubeRoot(12, 0x72be5d74, 0x72be5d74, 3, 41);
    CubeRoot(13, 0x80deb1fe, 0x80deb1fe, 3, 43);
    CubeRoot(14, 0x9bdc06a7, 0x9bdc06a7, 3, 47);
    CubeRoot(15, 0xc19bf174, 0xc19bf174, 3, 53);
  }

  lemma CubeRoots16()
    ensures FromCubeRoot(16, 3, 59) && FromCubeRoot(17, 3, 61) && FromCubeRoot(18, 4, 67) && FromCubeRoot(19, 4, 71)
    ensures FromCubeRoot(20, 4, 73) && FromCubeRoot(21, 4, 79) && FromCubeRoot(22, 4, 83) && FromCubeRoot(23, 4, 89)
  {
    hide Constant, FromCubeRoot;
    Constants16();
    Constants20();
    CubeRoot(16, 0xe49b69c1, 0xe49b69c1, 3, 59);
    CubeRoot(17, 0xefbe4786, 0xefbe4786, 3, 61);
    CubeRoot(18, 0x0fc19dc6, 0x0fc19dc6, 4, 67);
    CubeRoot(19, 0x240ca1cc, 0x240ca1cc, 4, 71);
    CubeRoot(20, 0x2de92c6f, 0x2de92c6f, 4, 73);
    CubeRoot(21, 0x4a7484aa, 0x4a7484aa, 4, 79);
    CubeRoot(22, 0x5cb0a9dc, 0x5cb0a9dc, 4, 83);
    CubeRoot(23, 0x76f988da, 0x76f988da, 4, 89);
  }

  lemma CubeRoots24()
    ensures FromCubeRoot(24, 4, 97) && FromCubeRoot(25, 4, 101) && FromCubeRoot(26, 4, 103) && FromCubeRoot(27, 4, 107)
    ensures FromCubeRoot(28, 4, 109) && FromCubeRoot(29, 4, 113) && FromCubeRoot(30, 5, 127) && FromCubeRoot(31, 5, 131)
  {
    hide Constant, FromCubeRoot;
    Constants24();
    Constants28();
    CubeRoot(24, 0x983e5152, 0x983e5152, 4, 97);
    CubeRoot(25, 0xa831c66d, 0xa831c66d, 4, 101);
    CubeRoot(26, 0xb00327c8, 0xb00327c8, 4, 103);
    CubeRoot(27, 0xbf597fc7, 0xbf597fc7, 4, 107);
    CubeRoot(28, 0xc6e00bf3, 0xc6e00bf3, 4, 109);
    CubeRoot(29, 0xd5a79147, 0xd5a79147, 4, 113);
    CubeRoot(30, 0x06ca6351, 0x06ca6351, 5, 127);
    CubeRoot(31, 0x14292967, 0x14292967, 5, 131);
  }

  lemma CubeRoots32()
    ensures FromCubeRoot(32, 5, 137) && FromCubeRoot(33, 5, 139) && FromCubeRoot(34, 5, 149) && FromCubeRoot(35, 5, 151)
    ensures FromCubeRoot(36, 5, 157) && FromCubeRoot(37, 5, 163) && FromCubeRoot(38, 5, 167) && FromCubeRoot(39, 5, 173)
  {
    hide Constant, FromCubeRoot;
    Constants32();
    Constants36();
    CubeRoot(32, 0x27b70a85, 0x27b70a85, 5, 137);
    CubeRoot(33, 0x2e1b2138, 0x2e1b2138, 5, 139);
    CubeRoot(34, 0x4d2c6dfc, 0x4d2c6dfc, 5, 149);
    CubeRoot(35, 0x53380d13, 0x53380d13, 5, 151);
    CubeRoot(36, 0x650a7354, 0x650a7354, 5, 157);
    CubeRoot(37, 0x766a0abb, 0x766a0abb, 5, 163);
    CubeRoot(38, 0x81c2c92e, 0x81c2c92e, 5, 167);
    CubeRoot(39, 0x92722c85, 0x92722c85, 5, 173);
  }

  lemma CubeRoots40()
    ensures FromCubeRoot(40, 5, 179) && FromCubeRoot(41, 5, 181) && FromCubeRoot(42, 5, 191) && FromCubeRoot(43, 5, 193)
    ensures FromCubeRoot(44, 5, 197) && FromCubeRoot(45, 5, 199) && FromCubeRoot(46, 5, 211) && FromCubeRoot(47, 6, 223)
  {
    hide Constant, FromCubeRoot;
    Constants40();
    Constants44();
    CubeRoot(40, 0xa2bfe8a1, 0xa2bfe8a1, 5, 179);
    CubeRoot(41, 0xa81a664b, 0xa81a664b, 5, 181);
    CubeRoot(42, 0xc24b8b70, 0xc24b8b70, 5, 191);
    CubeRoot(43, 0xc76c51a3, 0xc76c51a3, 5, 193);
    CubeRoot(44, 0xd192e819, 0xd192e819, 5, 197);
    CubeRoot(45, 0xd6990624, 0xd6990624, 5, 199);
    CubeRoot(46, 0xf40e3585, 0xf40e3585, 5, 211);
    CubeRoot(47, 0x106aa070, 0x106aa070, 6, 223);
  }

  lemma CubeRoots48()
    ensures FromCubeRoot(48, 6, 227) && FromCubeRoot(49, 6, 229) && FromCubeRoot(50, 6, 233) && FromCubeRoot(51, 6, 239)
    ensures FromCubeRoot(52, 6, 241) && FromCubeRoot(53, 6, 251) && FromCubeRoot(54, 6, 257) && FromCubeRoot(55, 6, 263)
  {
    hide Constant, FromCubeRoot;
    Constants48();
    Constants52();
    CubeRoot(48, 0x19a4c116, 0x19a4c116, 6, 227);
    CubeRoot(49, 0x1e376c08, 0x1e376c08, 6, 229);
    CubeRoot(50, 0x2748774c, 0x2748774c, 6, 233);
    CubeRoot(51, 0x34b0bcb5, 0x34b0bcb5, 6, 239);
    CubeRoot(52, 0x391c0cb3, 0x391c0cb3, 6, 241);
    CubeRoot(53, 0x4ed8aa4a, 0x4ed8aa4a, 6, 251);
    CubeRoot(54, 0x5b9cca4f, 0x5b9cca4f, 6, 257);
    CubeRoot(55, 0x682e6ff3, 0x682e6ff3, 6, 263);
  }

  lemma CubeRoots56()
    ensures FromCubeRoot(56, 6, 269) && FromCubeRoot(57, 6, 271) && FromCubeRoot(58, 6, 277) && FromCubeRoot(59, 6, 281)
    ensures FromCubeRoot(60, 6, 283) && FromCubeRoot(61, 6, 293) && FromCubeRoot(62, 6, 307) && FromCubeRoot(63, 6, 311)
  {
    hide Constant, FromCubeRoot;
    Constants56();
    Constants60();
    CubeRoot(56, 0x748f82ee, 0x748f82ee, 6, 269);
    CubeRoot(57, 0x78a5636f, 0x78a5636f, 6, 271);
    CubeRoot(58, 0x84c87814, 0x84c87814, 6, 277);
    CubeRoot(59, 0x8cc70208, 0x8cc70208, 6, 281);
    CubeRoot(60, 0x90befffa, 0x90befffa, 6, 283);
    CubeRoot(61, 0xa4506ceb, 0xa4506ceb, 6, 293);
    CubeRoot(62, 0xbef9a3f7, 0xbef9a3f7, 6, 307);
    CubeRoot(63, 0xc67178f2, 0xc67178f2, 6, 311);
  }

  /** The initial hash value comes from the square roots of the first eight primes. */
  lemma SquareRoots()
    ensures FromSquareRoot(0, 1, 2) && FromSquareRoot(1, 1, 3) && FromSquareRoot(2, 2, 5) && FromSquareRoot(3, 2, 7)
    ensures FromSquareRoot(4, 3, 11) && FromSquareRoot(5, 3, 13) && FromSquareRoot(6, 4, 17) && FromSquareRoot(7, 4, 19)
  {
    hide FromSquareRoot;
    SquareRoot(0, 0x6a09e667, 0x6a09e667, 1, 2);
    SquareRoot(1, 0xbb67ae85, 0xbb67ae85, 1, 3);
    SquareRoot(2, 0x3c6ef372, 0x3c6ef372, 2, 5);
    SquareRoot(3, 0xa54ff53a, 0xa54ff53a, 2, 7);
    SquareRoot(4, 0x510e527f, 0x510e527f, 3, 11);
    SquareRoot(5, 0x9b05688c, 0x9b05688c, 3, 13);
    SquareRoot(6, 0x1f83d9ab, 0x1f83d9ab, 4, 17);
    SquareRoot(7, 0x5be0cd19, 0x5be0cd19, 4, 19);
  }
}
