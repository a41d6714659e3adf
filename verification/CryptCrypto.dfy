/** The streaming SHA-256 of the ledger and the byte-sum digest it hands out as a hash. */
module CryptCrypto {
  import opened Types
  import Sha256
  import Counting

  type Word = Sha256.Word

  // ----- The bit functions, in the program's own formulation -----

  function Rotr(x: Word, n: Word): Word
    requires n <= 32
  {
    (x >> n) | (x << (32 - n))
  }

  function Choose(e: Word, f: Word, g: Word): Word {
    (e & f) ^ (!e & g)
  }

  function Majority(a: Word, b: Word, c: Word): Word {
    (a & (b | c)) | (b & c)
  }

  function Sig0(x: Word): Word {
    Sha256.Xor3(Rotr(x, 7), Rotr(x, 18), x >> 3)
  }

  function Sig1(x: Word): Word {
    Sha256.Xor3(Rotr(x, 17), Rotr(x, 19), x >> 10)
  }

  /** The and/or form of the majority is the exclusive-or form of the standard. */
  lemma MajorityIsMaj(a: Word, b: Word, c: Word)
    ensures Majority(a, b, c) == Sha256.Maj(a, b, c)
  {
    assert (a & (b | c)) | (b & c) == (a & b) ^ (a & c) ^ (b & c);
  }

  lemma ChooseIsCh(e: Word, f: Word, g: Word)
    ensures Choose(e, f, g) == Sha256.Ch(e, f, g)
  {
  }

  lemma ShiftsRotate(x: Word)
    ensures Rotr(x, 2) == x.RotateRight(2) && Rotr(x, 13) == x.RotateRight(13) && Rotr(x, 22) == x.RotateRight(22)
    ensures Rotr(x, 6) == x.RotateRight(6) && Rotr(x, 11) == x.RotateRight(11) && Rotr(x, 25) == x.RotateRight(25)
    ensures Rotr(x, 7) == x.RotateRight(7) && Rotr(x, 18) == x.RotateRight(18)
    ensures Rotr(x, 17) == x.RotateRight(17) && Rotr(x, 19) == x.RotateRight(19)
  {
  }

  lemma SigsAreSigmas(x: Word)
    ensures Sig0(x) == Sha256.SmallSigma0(x) && Sig1(x) == Sha256.SmallSigma1(x)
  {
    ShiftsRotate(x);
  }

  function Sum(m: Word, k: Word, h: Word, ch: Word, xorE: Word): Word {
    m + k + h + ch + xorE
  }

  /** The order in which the loop adds up its terms does not matter. */
  lemma SumIsT1(h: Word, sigma: Word, ch: Word, k: Word, w: Word)
    ensures Sum(w, k, h, ch, sigma) == Sha256.T1(h, sigma, ch, k, w)
  {
    assert w + k + h + ch + sigma == h + sigma + ch + k + w;
  }

  lemma PlusCommutes(x: Word, y: Word)
    ensures Sha256.Plus(x, y) == Sha256.Plus(y, x)
  {
  }

  /** The registers after one pass of the compression loop. */
  function Step(v: Sha256.Vars, k: Word, w: Word): Sha256.Vars {
    var maj := Majority(v.a, v.b, v.c);
    var xorA := Sha256.Xor3(Rotr(v.a, 2), Rotr(v.a, 13), Rotr(v.a, 22));
    var ch := Choose(v.e, v.f, v.g);
    var xorE := Sha256.Xor3(Rotr(v.e, 6), Rotr(v.e, 11), Rotr(v.e, 25));
    var sum := Sum(w, k, v.h, ch, xorE);
    Sha256.Vars(Sha256.Plus(Sha256.Plus(xorA, maj), sum), v.a, v.b, v.c, Sha256.Plus(v.d, sum), v.e, v.f, v.g)
  }

  lemma RotatedXors(x: Word)
    ensures Sha256.Xor3(Rotr(x, 2), Rotr(x, 13), Rotr(x, 22)) == Sha256.BigSigma0(x)
    ensures Sha256.Xor3(Rotr(x, 6), Rotr(x, 11), Rotr(x, 25)) == Sha256.BigSigma1(x)
  {
    hide Rotr, Sha256.Xor3;
    ShiftsRotate(x);
  }

  /** The first register: the program adds the two parts of the new value in the other order. */
  lemma FirstRegister(sigma: Word, maj: Word, sum: Word)
    ensures Sha256.Plus(Sha256.Plus(sigma, maj), sum) == Sha256.Plus(sum, Sha256.T2(sigma, maj))
  {
    PlusCommutes(Sha256.Plus(sigma, maj), sum);
    hide Sha256.Plus;
  }

  lemma StepIsRound(v: Sha256.Vars, k: Word, w: Word)
    ensures Step(v, k, w) == Sha256.Round(v, k, w)
  {
    hide Rotr, Majority, Choose, Sum;
    hide Sha256.Xor3, Sha256.BigSigma0, Sha256.BigSigma1, Sha256.Maj, Sha256.Ch, Sha256.Plus, Sha256.T1, Sha256.T2;
    var sum := Sha256.T1(v.h, Sha256.BigSigma1(v.e), Sha256.Ch(v.e, v.f, v.g), k, w);
    RotatedXors(v.a);
    RotatedXors(v.e);
    MajorityIsMaj(v.a, v.b, v.c);
    ChooseIsCh(v.e, v.f, v.g);
    SumIsT1(v.h, Sha256.BigSigma1(v.e), Sha256.Ch(v.e, v.f, v.g), k, w);
    FirstRegister(Sha256.BigSigma0(v.a), Sha256.Maj(v.a, v.b, v.c), sum);
  }

  // ----- transform -----

  lemma ScheduleNext(block: seq<byte>, t: nat)
    requires |block| == 64 && 16 <= t
    ensures Sha256.Schedule(block, t) ==
            Sha256.Plus(Sha256.Plus(Sha256.Plus(Sig1(Sha256.Schedule(block, t - 2)), Sha256.Schedule(block, t - 7)),
                                    Sig0(Sha256.Schedule(block, t - 15))),
                        Sha256.Schedule(block, t - 16))
  {
    hide Sha256.Plus, Sha256.SmallSigma0, Sha256.SmallSigma1, Sig0, Sig1;
    SigsAreSigmas(Sha256.Schedule(block, t - 2));
    SigsAreSigmas(Sha256.Schedule(block, t - 15));
  }

  lemma ScheduleFirst(block: seq<byte>, t: nat)
    requires |block| == 64 && t < 16
    ensures Sha256.Schedule(block, t) == Sha256.Join(block[4 * t], block[4 * t + 1], block[4 * t + 2], block[4 * t + 3])
  {
    hide Sha256.Join;
  }

  /** The first 16 words of the message schedule, and then the other 48. */
  method ExpandSchedule(data: array<byte>, m: array<Word>)
    requires data.Length == 64 && m.Length == 64
    modifies m
    ensures forall t | 0 <= t < 64 :: m[t] == Sha256.Schedule(data[..], t)
  {
    hide *;
    ghost var block := data[..];
    var i, j := 0, 0;
    while i < 16
      invariant 0 <= i <= 16 && j == 4 * i
      invariant forall t | 0 <= t < i :: m[t] == Sha256.Schedule(block, t)
    {
      ScheduleFirst(block, i);
      m[i] := Sha256.Join(data[j], data[j + 1], data[j + 2], data[j + 3]);
      i, j := i + 1, j + 4;
    }
    var k := 16;
    while k < 64
      invariant 16 <= k <= 64
      invariant forall t | 0 <= t < k :: m[t] == Sha256.Schedule(block, t)
    {
      ScheduleNext(block, k);
      m[k] := Sha256.Plus(Sha256.Plus(Sha256.Plus(Sig1(m[k - 2]), m[k - 7]), Sig0(m[k - 15])), m[k - 16]);
      k := k + 1;
    }
  }

  /** One pass of the loop: seven registers move up in place, two are recomputed. */
  method RotateRegisters(state: array<Word>, k: Word, w: Word)
    requires state.Length == 8
    modifies state
    ensures Sha256.VarsOf(state[..]) == Sha256.Round(old(Sha256.VarsOf(state[..])), k, w)
  {
    hide Sha256.Round, Sha256.Xor3, Sha256.Plus, Rotr, Majority, Choose, Sum;
    StepIsRound(Sha256.VarsOf(state[..]), k, w);
    var maj := Majority(state[0], state[1], state[2]);
    var xorA := Sha256.Xor3(Rotr(state[0], 2), Rotr(state[0], 13), Rotr(state[0], 22));
    var ch := Choose(state[4], state[5], state[6]);
    var xorE := Sha256.Xor3(Rotr(state[4], 6), Rotr(state[4], 11), Rotr(state[4], 25));
    var sum := Sum(w, k, state[7], ch, xorE);
    var newA := Sha256.Plus(Sha256.Plus(xorA, maj), sum);
    var newE := Sha256.Plus(state[3], sum);
    state[7] := state[6];
    state[6] := state[5];
    state[5] := state[4];
    state[4] := newE;
    state[3] := state[2];
    state[2] := state[1];
    state[1] := state[0];
    state[0] := newA;
  }

  /** The 64 passes over a copy of the state. */
  method RunRounds(mState: array<Word>, m: array<Word>, ghost block: seq<byte>) returns (state: array<Word>)
    requires mState.Length == 8 && m.Length == 64 && |block| == 64
    requires forall t | 0 <= t < 64 :: m[t] == Sha256.Schedule(block, t)
    ensures fresh(state) && state.Length == 8
    ensures state[..] == Sha256.WordsOf(Sha256.Rounds(Sha256.VarsOf(mState[..]), block, 64))
  {
    hide Sha256.Round, Sha256.Schedule;
    state := new Word[8];
    for i := 0 to 8
      modifies state
      invariant forall j | 0 <= j < i :: state[j] == mState[j]
    {
      state[i] := mState[i];
    }
    for i := 0 to 64
      modifies state
      invariant Sha256.VarsOf(state[..]) == Sha256.Rounds(Sha256.VarsOf(mState[..]), block, i)
    {
      RotateRegisters(state, Sha256.K[i], m[i]);
    }
  }

  method AddState(mState: array<Word>, state: array<Word>)
    requires mState.Length == state.Length == 8 && mState != state
    modifies mState
    ensures mState[..] == Sha256.AddWords(old(mState[..]), state[..])
  {
    hide Sha256.Plus;
    for i := 0 to 8
      invariant forall j | 0 <= j < i :: mState[j] == Sha256.Plus(old(mState[j]), state[j])
      invariant forall j | i <= j < 8 :: mState[j] == old(mState[j])
    {
      mState[i] := Sha256.Plus(mState[i], state[i]);
    }
  }

  method Transform(mState: array<Word>, mData: array<byte>)
    requires mState.Length == 8 && mData.Length == 64
    modifies mState
    ensures mState[..] == Sha256.Compress(old(mState[..]), mData[..])
  {
    hide Sha256.Rounds, Sha256.Schedule, Sha256.AddWords;
    var m := new Word[64];
    ExpandSchedule(mData, m);
    var state := RunRounds(mState, m, mData[..]);
    AddState(mState, state);
  }

  // ----- pad -----

  /** x >> 8k, for unsigned x. */
  function ShiftBytes(x: nat, k: nat): nat {
    if k == 0 then x else ShiftBytes(x / 0x100, k - 1)
  }

  /** Byte i of the k-byte big-endian form is what shifting out the bytes after it leaves in the lowest byte. */
  lemma {:induction false} BigEndianAt(x: nat, k: nat, i: nat)
    requires i < k
    ensures Sha256.BigEndian(x, k)[i] == Sha256.LowByte(ShiftBytes(x, k - 1 - i))
  {
    if i < k - 1 {
      BigEndianAt(x / 0x100, k - 1, i);
    }
  }

  lemma LengthField(x: nat)
    ensures var s := Sha256.BigEndian(x, 8);
            && s[0] == Sha256.LowByte(ShiftBytes(x, 7)) && s[1] == Sha256.LowByte(ShiftBytes(x, 6))
            && s[2] == Sha256.LowByte(ShiftBytes(x, 5)) && s[3] == Sha256.LowByte(ShiftBytes(x, 4))
            && s[4] == Sha256.LowByte(ShiftBytes(x, 3)) && s[5] == Sha256.LowByte(ShiftBytes(x, 2))
            && s[6] == Sha256.LowByte(ShiftBytes(x, 1)) && s[7] == Sha256.LowByte(x)
  {
    assert ShiftBytes(x, 0) == x;
    hide *;
    BigEndianAt(x, 8, 0);
    BigEndianAt(x, 8, 1);
    BigEndianAt(x, 8, 2);
    BigEndianAt(x, 8, 3);
    BigEndianAt(x, 8, 4);
    BigEndianAt(x, 8, 5);
    BigEndianAt(x, 8, 6);
    BigEndianAt(x, 8, 7);
  }

  method WriteLength(mData: array<byte>, mBitlen: uint64)
    requires mData.Length == 64
    modifies mData
    ensures mData[..56] == old(mData[..56])
    ensures mData[56..] == Sha256.BigEndian(mBitlen, 8)
  {
    hide *;
    LengthField(mBitlen);
    mData[63] := Sha256.LowByte(mBitlen);
    mData[62] := Sha256.LowByte(ShiftBytes(mBitlen, 1));
    mData[61] := Sha256.LowByte(ShiftBytes(mBitlen, 2));
    mData[60] := Sha256.LowByte(ShiftBytes(mBitlen, 3));
    mData[59] := Sha256.LowByte(ShiftBytes(mBitlen, 4));
    mData[58] := Sha256.LowByte(ShiftBytes(mBitlen, 5));
    mData[57] := Sha256.LowByte(ShiftBytes(mBitlen, 6));
    mData[56] := Sha256.LowByte(ShiftBytes(mBitlen, 7));
  }

  method FillZeros(mData: array<byte>, start: nat, end: nat)
    requires mData.Length == 64 && start <= end <= 64
    modifies mData
    ensures mData[..start] == old(mData[..start])
    ensures mData[start..end] == Sha256.Zeros(end - start)
  {
    var i := start;
    while i < end
      invariant start <= i <= end
      invariant mData[..start] == old(mData[..start])
      invariant forall j | start <= j < i :: mData[j] == 0
    {
      mData[i] := 0x00;
      i := i + 1;
    }
  }

  /** The padding depends only on the length of the message and on how many of its bytes do not fill a block. */
  lemma TailOfRest(n: nat, bits: nat)
    ensures Sha256.Tail(n % 64, bits) == Sha256.Tail(n, bits)
  {
    var r := n % 64;
    assert r % 64 == r;
    assert Sha256.ZeroCount(r) == Sha256.ZeroCount(n);
    hide Sha256.ZeroCount, Sha256.BigEndian, Sha256.Zeros;
  }

  lemma Regroup<T>(a: seq<T>, b: seq<T>, c: seq<T>, d: seq<T>, e: seq<T>)
    ensures a + (b + (c + d) + e) == (a + b + c) + (d + e)
    ensures c + [] == c && [] + e == e
  {
  }

  lemma ZerosOfRest(k: nat)
    requires k < 64
    ensures Sha256.ZeroCount(k) == if k < 56 then 55 - k else 119 - k
    ensures k >= 56 ==> Sha256.Zeros(119 - k) == Sha256.Zeros(63 - k) + Sha256.Zeros(56)
  {
    assert k % 64 == k;
    if k < 56 {
      assert 119 - k == 64 + (55 - k) && (64 + (55 - k)) % 64 == 55 - k;
    } else {
      assert (119 - k) % 64 == 119 - k;
      ZerosAppend(63 - k, 56);
    }
  }

  lemma ZerosAppend(m: nat, n: nat)
    ensures Sha256.Zeros(m + n) == Sha256.Zeros(m) + Sha256.Zeros(n)
  {
  }

  lemma TailIs(n: nat, bits: nat)
    ensures Sha256.Tail(n, bits) == [0x80] + Sha256.Zeros(Sha256.ZeroCount(n)) + Sha256.BigEndian(Low64(bits), 8)
  {
    hide Sha256.ZeroCount, Sha256.Zeros, Sha256.BigEndian, Low64;
  }

  /** The buffer ends in one block when the length field still fits behind the bit 1, and in two otherwise. */
  lemma TailBlocks(rest: seq<byte>, bits: nat)
    requires |rest| < 64
    ensures var field := Sha256.BigEndian(Low64(bits), 8);
            rest + Sha256.Tail(|rest|, bits) ==
            if |rest| < 56 then (rest + [0x80] + Sha256.Zeros(55 - |rest|)) + field
            else (rest + [0x80] + Sha256.Zeros(63 - |rest|)) + (Sha256.Zeros(56) + field)
  {
    var k, field := |rest|, Sha256.BigEndian(Low64(bits), 8);
    hide *;
    ZerosOfRest(k);
    TailIs(k, bits);
    if k < 56 {
      Regroup(rest, [0x80], Sha256.Zeros(55 - k), [], field);
    } else {
      Regroup(rest, [0x80], Sha256.Zeros(63 - k), Sha256.Zeros(56), field);
    }
  }

  lemma FoldTail(h: seq<Word>, rest: seq<byte>, bits: nat)
    requires |h| == 8 && |rest| < 64
    ensures Sha256.WholeBlocks(rest + Sha256.Tail(|rest|, bits))
    ensures var field := Sha256.BigEndian(Low64(bits), 8);
            Sha256.Fold(h, rest + Sha256.Tail(|rest|, bits)) ==
            if |rest| < 56 then Sha256.Compress(h, (rest + [0x80] + Sha256.Zeros(55 - |rest|)) + field)
            else Sha256.Compress(Sha256.Compress(h, rest + [0x80] + Sha256.Zeros(63 - |rest|)),
                                 Sha256.Zeros(56) + field)
  {
    hide Sha256.BigEndian, Sha256.Compress, Sha256.Tail, Sha256.Fold;
    var field := Sha256.BigEndian(Low64(bits), 8);
    TailBlocks(rest, bits);
    if |rest| < 56 {
      Sha256.FoldOne(h, (rest + [0x80] + Sha256.Zeros(55 - |rest|)) + field);
    } else {
      var first, last := rest + [0x80] + Sha256.Zeros(63 - |rest|), Sha256.Zeros(56) + field;
      Sha256.FoldOne(h, first);
      Sha256.FoldOne(Sha256.Compress(h, first), last);
      Sha256.FoldAppend(h, first, last);
    }
  }

  method AppendBit(mData: array<byte>, mBlocklen: uint32) returns (end: nat)
    requires mData.Length == 64 && mBlocklen < 64
    modifies mData
    ensures end == if mBlocklen < 56 then 56 else 64
    ensures mData[..end] == old(mData[..mBlocklen]) + [0x80] + Sha256.Zeros(end - mBlocklen - 1)
  {
    end := if mBlocklen < 56 then 56 else 64;
    mData[mBlocklen] := 0x80;
    FillZeros(mData, mBlocklen + 1, end);
    assert mData[..end] == mData[..mBlocklen + 1] + mData[mBlocklen + 1..end];
  }

  method AppendLength(mState: array<Word>, mData: array<byte>, mBitlen: uint64)
    requires mState.Length == 8 && mData.Length == 64
    modifies mState, mData
    ensures mState[..] == Sha256.Compress(old(mState[..]), old(mData[..56]) + Sha256.BigEndian(mBitlen, 8))
  {
    hide Sha256.BigEndian, Sha256.Compress;
    WriteLength(mData, mBitlen);
    assert mData[..] == mData[..56] + mData[56..];
    Transform(mState, mData);
  }

  method Pad(mState: array<Word>, mData: array<byte>, mBlocklen: uint32, mBitlen: uint64)
    requires mState.Length == 8 && mData.Length == 64 && mBlocklen < 64
    requires Sha256.WholeBlocks(mData[..mBlocklen] + Sha256.Tail(mBlocklen, mBitlen + 8 * mBlocklen))
    modifies mState, mData
    ensures mState[..] ==
            Sha256.Fold(old(mState[..]), old(mData[..mBlocklen]) + Sha256.Tail(mBlocklen, mBitlen + 8 * mBlocklen))
  {
    hide *;
    ghost var h, rest, bits := mState[..], mData[..mBlocklen], mBitlen + 8 * mBlocklen;
    ghost var folded := Sha256.Fold(h, rest + Sha256.Tail(mBlocklen, bits));
    ghost var field := Sha256.BigEndian(Low64(bits), 8);
    FoldTail(h, rest, bits);
    var end := AppendBit(mData, mBlocklen);
    if mBlocklen >= 56 {
      assert mData[..] == mData[..end];
      Transform(mState, mData);
      FillZeros(mData, 0, 56);
      assert mData[..56] == mData[0..56];
    }
    assert folded == Sha256.Compress(mState[..], mData[..56] + field);
    AppendLength(mState, mData, Low64(mBitlen + 8 * mBlocklen));
  }

  // ----- revert and hash -----

  function ByteAt(w: Word, i: Word): byte
    requires i < 4
  {
    ((w >> (24 - 8 * i)) & 0xff) as byte
  }

  lemma ByteAtIsWordByte(w: Word, i: Word)
    requires i < 4
    ensures ByteAt(w, i) == Sha256.WordBytes(w)[i as nat]
  {
    var b := Sha256.WordBytes(w);
    if i == 0 {
      assert ByteAt(w, 0) == b[0];
    } else if i == 1 {
      assert ByteAt(w, 1) == b[1];
    } else if i == 2 {
      assert ByteAt(w, 2) == b[2];
    } else {
      assert i == 3;
      assert ByteAt(w, 3) == b[3];
    }
  }

  method Revert(hash: array<byte>, mState: array<Word>)
    requires hash.Length == 32 && mState.Length == 8
    modifies hash
    ensures hash[..] == Sha256.WordsBytes(mState[..])
  {
    hide ByteAt, Sha256.WordBytes;
    for i := 0 to 4
      invariant forall p | 0 <= p < 32 && p % 4 < i :: hash[p] == Sha256.WordBytes(mState[p / 4])[p % 4]
    {
      for j := 0 to 8
        invariant forall p | 0 <= p < 32 && (p % 4 < i || (p % 4 == i && p / 4 < j)) ::
                    hash[p] == Sha256.WordBytes(mState[p / 4])[p % 4]
      {
        ByteAtIsWordByte(mState[j], i as Word);
        hash[i + j * 4] := ByteAt(mState[j], i as Word);
      }
    }
  }

  /** The part of an i-byte prefix that fills whole blocks. */
  function Whole(i: nat): (q: nat)
    ensures q <= i < q + 64
  {
    i - i % 64
  }

  lemma WholeNext(i: nat)
    ensures Whole(i + 1) == if i + 1 == Whole(i) + 64 then i + 1 else Whole(i)
    ensures Whole(Whole(i)) == Whole(i)
  {
  }

  lemma AddBits(bits: nat, more: nat)
    ensures Low64(Low64(bits) + more) == Low64(bits + more)
  {
  }

  /** The state after the whole blocks of the first i bytes. */
  function Absorbed(h: seq<Word>, message: seq<byte>, i: nat): (r: seq<Word>)
    requires |h| == 8 && i <= |message|
    ensures |r| == 8
  {
    Sha256.Fold(h, message[..Whole(i)])
  }

  lemma AbsorbNothing(h: seq<Word>, message: seq<byte>)
    requires |h| == 8
    ensures Low64(0) == 0 && Whole(0) == 0 && Absorbed(h, message, 0) == h
  {
    assert message[..Whole(0)] == [];
  }

  lemma AbsorbedWhole(h: seq<Word>, message: seq<byte>)
    requires |h| == 8
    ensures Absorbed(h, message, Whole(|message|)) == Absorbed(h, message, |message|)
  {
    assert Whole(Whole(|message|)) == Whole(|message|);
  }

  lemma AbsorbNextBlock(h: seq<Word>, message: seq<byte>, q: nat)
    requires |h| == 8 && q == Whole(q) && q + 64 <= |message|
    ensures Absorbed(h, message, q + 64) == Sha256.Compress(Absorbed(h, message, q), message[q..q + 64])
  {
    hide Sha256.Compress, Sha256.Fold;
    assert Whole(q + 64) == q + 64;
    assert message[..q + 64] == message[..q] + message[q..q + 64];
    Sha256.FoldAppend(h, message[..q], message[q..q + 64]);
    Sha256.FoldOne(Sha256.Fold(h, message[..q]), message[q..q + 64]);
  }

  lemma WholeRest(n: nat)
    ensures n - Whole(n) == n % 64 && Whole(n) % 64 == 0
  {
  }

  lemma TailBits(n: nat, bits: nat, more: nat)
    requires Low64(bits) == Low64(more)
    ensures Sha256.Tail(n, bits) == Sha256.Tail(n, more)
  {
  }

  /** The padding depends on the length of the rest alone, and fills it up to whole blocks. */
  lemma RestPads(message: seq<byte>, bits: nat)
    requires Low64(bits) == Low64(8 * |message|)
    ensures var q := Whole(|message|);
            var tail := Sha256.Tail(|message| - q, bits);
            && Sha256.WholeBlocks(message[..q]) && Sha256.WholeBlocks(message[q..] + tail)
            && Sha256.Padded(message) == message + tail
  {
    hide Whole, Low64, Sha256.Tail, Sha256.ZeroCount;
    var n := |message|;
    WholeRest(n);
    TailOfRest(n, bits);
    TailBits(n, bits, 8 * n);
    Sha256.TailFills(n % 64);
    assert |message[Whole(n)..] + Sha256.Tail(n % 64, bits)| == n % 64 + 9 + Sha256.ZeroCount(n % 64);
  }

  lemma AbsorbRest(h: seq<Word>, message: seq<byte>, bits: nat)
    requires |h| == 8 && Low64(bits) == Low64(8 * |message|)
    ensures var q := Whole(|message|);
            var last := message[q..] + Sha256.Tail(|message| - q, bits);
            && Sha256.WholeBlocks(last)
            && Sha256.Fold(Absorbed(h, message, |message|), last) == Sha256.Fold(h, Sha256.Padded(message))
  {
    hide Sha256.Fold, Sha256.Padded, Sha256.Tail, Sha256.WholeBlocks, Whole, Low64;
    var q := Whole(|message|);
    var tail := Sha256.Tail(|message| - q, bits);
    RestPads(message, bits);
    assert message + tail == message[..q] + (message[q..] + tail);
    Sha256.FoldAppend(h, message[..q], message[q..] + tail);
  }

  lemma SliceNext(message: seq<byte>, q: nat, i: nat)
    requires q <= i < |message|
    ensures message[q..i] + [message[i]] == message[q..i + 1]
  {
  }

  /** Compresses the full buffer and counts its bits. */
  method EndBlock(mState: array<Word>, mData: array<byte>, mBitlen: uint64,
                  ghost h: seq<Word>, ghost message: seq<byte>, ghost q: nat)
    returns (bitlen: uint64)
    requires mState.Length == 8 && mData.Length == 64
    requires |h| == 8 && q == Whole(q) && q + 64 <= |message|
    requires mData[..] == message[q..q + 64] && mState[..] == Absorbed(h, message, q) && mBitlen == Low64(8 * q)
    modifies mState
    ensures mState[..] == Absorbed(h, message, q + 64) && bitlen == Low64(8 * (q + 64))
  {
    hide *;
    AbsorbNextBlock(h, message, q);
    Transform(mState, mData);
    AddBits(8 * q, 512);
    bitlen := Low64(mBitlen + 512);
  }

  method PutByte(mData: array<byte>, mBlocklen: nat, b: byte, ghost rest: seq<byte>)
    requires mBlocklen < mData.Length && mData[..mBlocklen] == rest
    modifies mData
    ensures mData[..mBlocklen + 1] == rest + [b]
  {
    mData[mBlocklen] := b;
    assert mData[..mBlocklen + 1] == mData[..mBlocklen] + [b];
  }

  /** What the buffering has done after i bytes: whole blocks are compressed, the rest is in the buffer. */
  ghost predicate Buffered(h: seq<Word>, message: seq<byte>, i: nat, state: seq<Word>, data: seq<byte>, blocklen: nat,
                           bitlen: nat)
  {
    && |h| == 8 && i <= |message| && blocklen == i - Whole(i) && blocklen <= |data|
    && data[..blocklen] == message[Whole(i)..i]
    && state == Absorbed(h, message, Whole(i)) && bitlen == Low64(8 * Whole(i))
  }

  lemma BufferNothing(h: seq<Word>, message: seq<byte>, data: seq<byte>)
    requires |h| == 8
    ensures Buffered(h, message, 0, h, data, 0, 0)
  {
    AbsorbNothing(h, message);
    hide Absorbed, Whole, Low64;
  }

  /** One pass of the loop. */
  method AbsorbByte(mState: array<Word>, mData: array<byte>, mBlocklen: uint32, mBitlen: uint64, message: seq<byte>,
                    i: nat, ghost h: seq<Word>)
    returns (blocklen: uint32, bitlen: uint64)
    requires mState.Length == 8 && mData.Length == 64 && i < |message|
    requires Buffered(h, message, i, mState[..], mData[..], mBlocklen, mBitlen)
    modifies mState, mData
    ensures Buffered(h, message, i + 1, mState[..], mData[..], blocklen, bitlen)
  {
    hide Absorbed, Whole, Low64;
    WholeNext(i);
    ghost var q := Whole(i);
    assert mData[..mBlocklen] == mData[..][..mBlocklen];
    PutByte(mData, mBlocklen, message[i], message[q..i]);
    SliceNext(message, q, i);
    blocklen, bitlen := mBlocklen + 1, mBitlen;
    assert mData[..blocklen] == mData[..][..blocklen];
    if blocklen == 64 {
      bitlen := EndBlock(mState, mData, mBitlen, h, message, q);
      blocklen := 0;
    }
  }

  /** The buffering loop: whole blocks are compressed as they fill up, the rest stays in the buffer. */
  method Absorb(mState: array<Word>, mData: array<byte>, message: seq<byte>)
    returns (mBlocklen: uint32, mBitlen: uint64)
    requires mState.Length == 8 && mData.Length == 64
    modifies mState, mData
    ensures var q := Whole(|message|);
            && mBlocklen == |message| - q && mBitlen == Low64(8 * q)
            && mData[..mBlocklen] == message[q..]
            && mState[..] == Absorbed(old(mState[..]), message, |message|)
  {
    hide Absorbed, Whole, Low64, Buffered;
    ghost var h := mState[..];
    BufferNothing(h, message, mData[..]);
    mBlocklen, mBitlen := 0, 0;
    for i := 0 to |message|
      invariant Buffered(h, message, i, mState[..], mData[..], mBlocklen, mBitlen)
    {
      mBlocklen, mBitlen := AbsorbByte(mState, mData, mBlocklen, mBitlen, message, i, h);
    }
    AbsorbedWhole(h, message);
    BufferedAll(h, message, mState[..], mData[..], mBlocklen, mBitlen);
    assert mData[..mBlocklen] == mData[..][..mBlocklen];
  }

  lemma BufferedAll(h: seq<Word>, message: seq<byte>, state: seq<Word>, data: seq<byte>, blocklen: nat, bitlen: nat)
    requires Buffered(h, message, |message|, state, data, blocklen, bitlen)
    ensures var q := Whole(|message|);
            && blocklen == |message| - q && bitlen == Low64(8 * q) && blocklen <= |data|
            && data[..blocklen] == message[q..] && state == Absorbed(h, message, q)
  {
    hide Absorbed, Whole, Low64;
    assert message[Whole(|message|)..|message|] == message[Whole(|message|)..];
  }

  function SumBytes(s: seq<byte>): (r: nat)
    ensures r <= 255 * |s|
  {
    if s == [] then 0 else SumBytes(s[..|s| - 1]) + s[|s| - 1] as nat
  }

  /** Each byte counts once, as its value. */
  lemma {:induction false} SumAppend(a: seq<byte>, b: seq<byte>)
    ensures SumBytes(a + b) == SumBytes(a) + SumBytes(b)
    ensures forall x: byte :: SumBytes([x]) == x as nat
  {
    assert forall x: byte :: [x][..0] == [];
    if b == [] {
      assert a + b == a;
    } else {
      assert (a + b)[..|a + b| - 1] == a + b[..|b| - 1];
      SumAppend(a, b[..|b| - 1]);
    }
  }

  /** The number the ledger uses as the hash of a message. */
  function Digest(message: seq<byte>): (r: uint32)
    ensures r <= 8160
  {
    SumBytes(Sha256.Hash(message))
  }

  /** Of more than 8161 messages, two have one digest. */
  lemma DigestsCollide(messages: set<seq<byte>>)
    requires |messages| > 8161
    ensures exists a, b :: a in messages && b in messages && a != b && Digest(a) == Digest(b)
  {
    hide Digest;
    if forall a, b | a in messages && b in messages && Digest(a) == Digest(b) :: a == b {
      Counting.InjectionBound(messages, (m: seq<byte>) => Digest(m) as nat, 8161);
    }
  }

  method Initialize(mState: array<Word>)
    requires mState.Length == 8
    modifies mState
    ensures mState[..] == Sha256.INITIAL
  {
    mState[0] := 0x6a09e667;
    mState[1] := 0xbb67ae85;
    mState[2] := 0x3c6ef372;
    mState[3] := 0xa54ff53a;
    mState[4] := 0x510e527f;
    mState[5] := 0x9b05688c;
    mState[6] := 0x1f83d9ab;
    mState[7] := 0x5be0cd19;
  }

  method Hash(message: seq<byte>) returns (hashd: uint32)
    ensures hashd == Digest(message)
  {
    hide *;
    var mState := new Word[8];
    Initialize(mState);
    var mData := new byte[64];
    var mBlocklen, mBitlen := Absorb(mState, mData, message);
    AddBits(8 * Whole(|message|), 8 * mBlocklen);
    AbsorbRest(Sha256.INITIAL, message, mBitlen + 8 * mBlocklen);
    Pad(mState, mData, mBlocklen, mBitlen);
    var hash := new byte[32];
    Revert(hash, mState);
    DigestOfHash(message);
    hashd := AddUp(hash);
  }

  lemma DigestOfHash(message: seq<byte>)
    ensures Digest(message) == SumBytes(Sha256.WordsBytes(Sha256.Fold(Sha256.INITIAL, Sha256.Padded(message))))
  {
  }

  lemma SumNext(s: seq<byte>, i: nat)
    requires i < |s| <= 32
    ensures SumBytes(s[..i + 1]) == Low32(SumBytes(s[..i]) + s[i] as nat)
  {
    assert s[..i + 1][..i] == s[..i];
    assert SumBytes(s[..i + 1]) <= 255 * (i + 1);
  }

  method AddUp(hash: array<byte>) returns (hashd: uint32)
    requires hash.Length == 32
    ensures hashd == SumBytes(hash[..])
  {
    assert SumBytes([]) == 0;
    hide *;
    hashd := 0;
    for i := 0 to 32
      invariant hashd == SumBytes(hash[..i])
    {
      SumNext(hash[..], i);
      assert hash[..][..i] == hash[..i] && hash[..][..i + 1] == hash[..i + 1];
      hashd := Low32(hashd + hash[i] as nat);
    }
    assert hash[..] == hash[..32];
  }
}
