/**
 * The standard's example of a message of one block, "abc", word by word and round by round. Any change to the schedule,
 * the rounds, the constants, the padding or the order of bytes leads elsewhere.
 */
module Sha256Example {
  import opened Types
  import opened Sha256
  import opened Sha256Facts
  import CryptCrypto

  const ABC: seq<byte> := [0x61, 0x62, 0x63]

  /** Word t of the schedule of a block is w. */
  predicate Scheduled(b: seq<byte>, t: nat, w: Word) {
    |b| == 64 && Schedule(b, t) == w
  }

  /** After t rounds on a block the registers are v. */
  predicate Reached(b: seq<byte>, t: nat, v: Vars) {
    |b| == 64 && t <= 64 && Rounds(VarsOf(INITIAL), b, t) == v
  }

  lemma Extend(b: seq<byte>, t: nat, w2: Word, w7: Word, w15: Word, w16: Word, w: Word)
    requires 16 <= t && Scheduled(b, t - 2, w2) && Scheduled(b, t - 7, w7)
    requires Scheduled(b, t - 15, w15) && Scheduled(b, t - 16, w16) && NextWord(w2, w7, w15, w16) == w
    ensures Scheduled(b, t, w)
  {
    hide NextWord;
  }

  lemma Next(b: seq<byte>, t: nat, v: Vars, k: Word, w: Word, a: Word, e: Word) returns (next: Vars)
    requires t < 64 && Reached(b, t, v) && Constant(t, k) && Scheduled(b, t, w)
    requires Round(v, k, w) == Vars(a, v.a, v.b, v.c, e, v.e, v.f, v.g)
    ensures next == Vars(a, v.a, v.b, v.c, e, v.e, v.f, v.g) && Reached(b, t + 1, next)
  {
    hide Round;
    next := Round(v, k, w);
  }

  lemma Words16(b: seq<byte>)
    requires Scheduled(b, 0, 0x61626380) && Scheduled(b, 1, 0x00000000) && Scheduled(b, 2, 0x00000000)
    requires Scheduled(b, 3, 0x00000000) && Scheduled(b, 4, 0x00000000) && Scheduled(b, 5, 0x00000000)
    requires Scheduled(b, 6, 0x00000000) && Scheduled(b, 7, 0x00000000) && Scheduled(b, 8, 0x00000000)
    requires Scheduled(b, 9, 0x00000000) && Scheduled(b, 10, 0x00000000) && Scheduled(b, 11, 0x00000000)
    requires Scheduled(b, 12, 0x00000000) && Scheduled(b, 13, 0x00000000) && Scheduled(b, 14, 0x00000000)
    requires Scheduled(b, 15, 0x00000018)
    ensures Scheduled(b, 16, 0x61626380) && Scheduled(b, 17, 0x000f0000) && Scheduled(b, 18, 0x7da86405)
    ensures Scheduled(b, 19, 0x600003c6) && Scheduled(b, 20, 0x3e9d7b78) && Scheduled(b, 21, 0x0183fc00)
    ensures Scheduled(b, 22, 0x12dcbfdb) && Scheduled(b, 23, 0xe2e2c38e)
  {
    hide Scheduled;
    Extend(b, 16, 0x00000000, 0x00000000, 0x00000000, 0x61626380, 0x61626380);
    Extend(b, 17, 0x00000018, 0x00000000, 0x00000000, 0x00000000, 0x000f0000);
    Extend(b, 18, 0x61626380, 0x00000000, 0x00000000, 0x00000000, 0x7da86405);
    Extend(b, 19, 0x000f0000, 0x00000000, 0x00000000, 0x00000000, 0x600003c6);
    Extend(b, 20, 0x7da86405, 0x00000000, 0x00000000, 0x00000000, 0x3e9d7b78);
    Extend(b, 21, 0x600003c6, 0x00000000, 0x00000000, 0x00000000, 0x0183fc00);
    Extend(b, 22, 0x3e9d7b78, 0x00000018, 0x00000000, 0x00000000, 0x12dcbfdb);
    Extend(b, 23, 0x0183fc00, 0x61626380, 0x00000000, 0x00000000, 0xe2e2c38e);
  }

  lemma Words24(b: seq<byte>)
    requires Scheduled(b, 8, 0x00000000) && Scheduled(b, 9, 0x00000000) && Scheduled(b, 10, 0x00000000)
    requires Scheduled(b, 11, 0x00000000) && Scheduled(b, 12, 0x00000000) && Scheduled(b, 13, 0x00000000)
    requires Scheduled(b, 14, 0x00000000) && Scheduled(b, 15, 0x00000018) && Scheduled(b, 16, 0x61626380)
    requires Scheduled(b, 17, 0x000f0000) && Scheduled(b, 18, 0x7da86405) && Scheduled(b, 19, 0x600003c6)
    requires Scheduled(b, 20, 0x3e9d7b78) && Scheduled(b, 21, 0x0183fc00) && Scheduled(b, 22, 0x12dcbfdb)
    requires Scheduled(b, 23, 0xe2e2c38e)
    ensures Scheduled(b, 24, 0xc8215c1a) && Scheduled(b, 25, 0xb73679a2) && Scheduled(b, 26, 0xe5bc3909)
    ensures Scheduled(b, 27, 0x32663c5b) && Scheduled(b, 28, 0x9d209d67) && Scheduled(b, 29, 0xec8726cb)
    ensures Scheduled(b, 30, 0x702138a4) && Scheduled(b, 31, 0xd3b7973b)
  {
    hide Scheduled;
    Extend(b, 24, 0x12dcbfdb, 0x000f0000, 0x00000000, 0x00000000, 0xc8215c1a);
    Extend(b, 25, 0xe2e2c38e, 0x7da86405, 0x00000000, 0x00000000, 0xb73679a2);
    Extend(b, 26, 0xc8215c1a, 0x600003c6, 0x00000000, 0x00000000, 0xe5bc3909);
    Extend(b, 27, 0xb73679a2, 0x3e9d7b78, 0x00000000, 0x00000000, 0x32663c5b);
    Extend(b, 28, 0xe5bc3909, 0x0183fc00, 0x00000000, 0x00000000, 0x9d209d67);
    Extend(b, 29, 0x32663c5b, 0x12dcbfdb, 0x00000000, 0x00000000, 0xec8726cb);
    Extend(b, 30, 0x9d209d67, 0xe2e2c38e, 0x00000018, 0x00000000, 0x702138a4);
    Extend(b, 31, 0xec8726cb, 0xc8215c1a, 0x61626380, 0x00000018, 0xd3b7973b);
  }

  lemma Words32(b: seq<byte>)
    requires Scheduled(b, 16, 0x61626380) && Scheduled(b, 17, 0x000f0000) && Scheduled(b, 18, 0x7da86405)
    requires Scheduled(b, 19, 0x600003c6) && Scheduled(b, 20, 0x3e9d7b78) && Scheduled(b, 21, 0x0183fc00)
    requires Scheduled(b, 22, 0x12dcbfdb) && Scheduled(b, 23, 0xe2e2c38e) && Scheduled(b, 24, 0xc8215c1a)
    requires Scheduled(b, 25, 0xb73679a2) && Scheduled(b, 26, 0xe5bc3909) && Scheduled(b, 27, 0x32663c5b)
    requires Scheduled(b, 28, 0x9d209d67) && Scheduled(b, 29, 0xec8726cb) && Scheduled(b, 30, 0x702138a4)
    requires Scheduled(b, 31, 0xd3b7973b)
    ensures Scheduled(b, 32, 0x93f5997f) && Scheduled(b, 33, 0x3b68ba73) && Scheduled(b, 34, 0xaff4ffc1)
    ensures Scheduled(b, 35, 0xf10a5c62) && Scheduled(b, 36, 0x0a8b3996) && Scheduled(b, 37, 0x72af830a)
    ensures Scheduled(b, 38, 0x9409e33e) && Scheduled(b, 39, 0x24641522)
  {
    hide Scheduled;
    Extend(b, 32, 0x702138a4, 0xb73679a2, 0x000f0000, 0x61626380, 0x93f5997f);
    Extend(b, 33, 0xd3b7973b, 0xe5bc3909, 0x7da86405, 0x000f0000, 0x3b68ba73);
    Extend(b, 34, 0x93f5997f, 0x32663c5b, 0x600003c6, 0x7da86405, 0xaff4ffc1);
    Extend(b, 35, 0x3b68ba73, 0x9d209d67, 0x3e9d7b78, 0x600003c6, 0xf10a5c62);
    Extend(b, 36, 0xaff4ffc1, 0xec8726cb, 0x0183fc00, 0x3e9d7b78, 0x0a8b3996);
    Extend(b, 37, 0xf10a5c62, 0x702138a4, 0x12dcbfdb, 0x0183fc00, 0x72af830a);
    Extend(b, 38, 0x0a8b3996, 0xd3b7973b, 0xe2e2c38e, 0x12dcbfdb, 0x9409e33e);
    Extend(b, 39, 0x72af830a, 0x93f5997f, 0xc8215c1a, 0xe2e2c38e, 0x24641522);
  }

  lemma Words40(b: seq<byte>)
    requires Scheduled(b, 24, 0xc8215c1a) && Scheduled(b, 25, 0xb73679a2) && Scheduled(b, 26, 0xe5bc3909)
    requires Scheduled(b, 27, 0x32663c5b) && Scheduled(b, 28, 0x9d209d67) && Scheduled(b, 29, 0xec8726cb)
    requires Scheduled(b, 30, 0x702138a4) && Scheduled(b, 31, 0xd3b7973b) && Scheduled(b, 32, 0x93f5997f)
    requires Scheduled(b, 33, 0x3b68ba73) && Scheduled(b, 34, 0xaff4ffc1) && Scheduled(b, 35, 0xf10a5c62)
    requires Scheduled(b, 36, 0x0a8b3996) && Scheduled(b, 37, 0x72af830a) && Scheduled(b, 38, 0x9409e33e)
    requires Scheduled(b, 39, 0x24641522)
    ensures Scheduled(b, 40, 0x9f47bf94) && Scheduled(b, 41, 0xf0a64f5a) && Scheduled(b, 42, 0x3e246a79)
    ensures Scheduled(b, 43, 0x27333ba3) && Scheduled(b, 44, 0x0c4763f2) && Scheduled(b, 45, 0x840abf27)
    ensures Scheduled(b, 46, 0x7a290d5d) && Scheduled(b, 47, 0x065c43da)
  {
    hide Scheduled;
    Extend(b, 40, 0x9409e33e, 0x3b68ba73, 0xb73679a2, 0xc8215c1a, 0x9f47bf94);
    Extend(b, 41, 0x24641522, 0xaff4ffc1, 0xe5bc3909, 0xb73679a2, 0xf0a64f5a);
    Extend(b, 42, 0x9f47bf94, 0xf10a5c62, 0x32663c5b, 0xe5bc3909, 0x3e246a79);
    Extend(b, 43, 0xf0a64f5a, 0x0a8b3996, 0x9d209d67, 0x32663c5b, 0x27333ba3);
    Extend(b, 44, 0x3e246a79, 0x72af830a, 0xec8726cb, 0x9d209d67, 0x0c4763f2);
    Extend(b, 45, 0x27333ba3, 0x9409e33e, 0x702138a4, 0xec8726cb, 0x840abf27);
    Extend(b, 46, 0x0c4763f2, 0x24641522, 0xd3b7973b, 0x702138a4, 0x7a290d5d);
    Extend(b, 47, 0x840abf27, 0x9f47bf94, 0x93f5997f, 0xd3b7973b, 0x065c43da);
  }

  lemma Words48(b: seq<byte>)
    requires Scheduled(b, 32, 0x93f5997f) && Scheduled(b, 33, 0x3b68ba73) && Scheduled(b, 34, 0xaff4ffc1)
    requires Scheduled(b, 35, 0xf10a5c62) && Scheduled(b, 36, 0x0a8b3996) && Scheduled(b, 37, 0x72af830a)
    requires Scheduled(b, 38, 0x9409e33e) && Scheduled(b, 39, 0x24641522) && Scheduled(b, 40, 0x9f47bf94)
    requires Scheduled(b, 41, 0xf0a64f5a) && Scheduled(b, 42, 0x3e246a79) && Scheduled(b, 43, 0x27333ba3)
    requires Scheduled(b, 44, 0x0c4763f2) && Scheduled(b, 45, 0x840abf27) && Scheduled(b, 46, 0x7a290d5d)
    requires Scheduled(b, 47, 0x065c43da)
    ensures Scheduled(b, 48, 0xfb3e89cb) && Scheduled(b, 49, 0xcc7617db) && Scheduled(b, 50, 0xb9e66c34)
    ensures Scheduled(b, 51, 0xa9993667) && Scheduled(b, 52, 0x84badedd) && Scheduled(b, 53, 0xc21462bc)
    ensures Scheduled(b, 54, 0x1487472c) && Scheduled(b, 55, 0xb20f7a99)
  {
    hide Scheduled;
    Extend(b, 48, 0x7a290d5d, 0xf0a64f5a, 0x3b68ba73, 0x93f5997f, 0xfb3e89cb);
    Extend(b, 49, 0x065c43da, 0x3e246a79, 0xaff4ffc1, 0x3b68ba73, 0xcc7617db);
    Extend(b, 50, 0xfb3e89cb, 0x27333ba3, 0xf10a5c62, 0xaff4ffc1, 0xb9e66c34);
    Extend(b, 51, 0xcc7617db, 0x0c4763f2, 0x0a8b3996, 0xf10a5c62, 0xa9993667);
    Extend(b, 52, 0xb9e66c34, 0x840abf27, 0x72af830a, 0x0a8b3996, 0x84badedd);
    Extend(b, 53, 0xa9993667, 0x7a290d5d, 0x9409e33e, 0x72af830a, 0xc21462bc);
    Extend(b, 54, 0x84badedd, 0x065c43da, 0x24641522, 0x9409e33e, 0x1487472c);
    Extend(b, 55, 0xc21462bc, 0xfb3e89cb, 0x9f47bf94, 0x24641522, 0xb20f7a99);
  }

  lemma Words56(b: seq<byte>)
    requires Scheduled(b, 40, 0x9f47bf94) && Scheduled(b, 41, 0xf0a64f5a) && Scheduled(b, 42, 0x3e246a79)
    requires Scheduled(b, 43, 0x27333ba3) && Scheduled(b, 44, 0x0c4763f2) && Scheduled(b, 45, 0x840abf27)
    requires Scheduled(b, 46, 0x7a290d5d) && Scheduled(b, 47, 0x065c43da) && Scheduled(b, 48, 0xfb3e89cb)
    requires Scheduled(b, 49, 0xcc7617db) && Scheduled(b, 50, 0xb9e66c34) && Scheduled(b, 51, 0xa9993667)
    requires Scheduled(b, 52, 0x84badedd) && Scheduled(b, 53, 0xc21462bc) && Scheduled(b, 54, 0x1487472c)
    requires Scheduled(b, 55, 0xb20f7a99)
    ensures Scheduled(b, 56, 0xef57b9cd) && Scheduled(b, 57, 0xebe6b238) && Scheduled(b, 58, 0x9fe3095e)
    ensures Scheduled(b, 59, 0x78bc8d4b) && Scheduled(b, 60, 0xa43fcf15) && Scheduled(b, 61, 0x668b2ff8)
    ensures Scheduled(b, 62, 0xeeaba2cc) && Scheduled(b, 63, 0x12b1edeb)
  {
    hide Scheduled;
    Extend(b, 56, 0x1487472c, 0xcc7617db, 0xf0a64f5a, 0x9f47bf94, 0xef57b9cd);
    Extend(b, 57, 0xb20f7a99, 0xb9e66c34, 0x3e246a79, 0xf0a64f5a, 0xebe6b238);
    Extend(b, 58, 0xef57b9cd, 0xa9993667, 0x27333ba3, 0x3e246a79, 0x9fe3095e);
    Extend(b, 59, 0xebe6b238, 0x84badedd, 0x0c4763f2, 0x27333ba3, 0x78bc8d4b);
    Extend(b, 60, 0x9fe3095e, 0xc21462bc, 0x840abf27, 0x0c4763f2, 0xa43fcf15);
    Extend(b, 61, 0x78bc8d4b, 0x1487472c, 0x7a290d5d, 0x840abf27, 0x668b2ff8);
    Extend(b, 62, 0xa43fcf15, 0xb20f7a99, 0x065c43da, 0x7a290d5d, 0xeeaba2cc);
    Extend(b, 63, 0x668b2ff8, 0xef57b9cd, 0xfb3e89cb, 0x065c43da, 0x12b1edeb);
  }

  lemma Rounds0(b: seq<byte>)
    requires Reached(b, 0, Vars(0x6a09e667, 0xbb67ae85, 0x3c6ef372, 0xa54ff53a,
                     0x510e527f, 0x9b05688c, 0x1f83d9ab, 0x5be0cd19))
    requires Scheduled(b, 0, 0x61626380) && Scheduled(b, 1, 0x00000000) && Scheduled(b, 2, 0x00000000)
    requires Scheduled(b, 3, 0x00000000) && Scheduled(b, 4, 0x00000000) && Scheduled(b, 5, 0x00000000)
    requires Scheduled(b, 6, 0x00000000) && Scheduled(b, 7, 0x00000000)
    ensures Reached(b, 8, Vars(0x85a07b5f, 0xe5030380, 0x2b4209f5, 0x04409a6a,
                     0x0c657a79, 0x9b27a401, 0x714260ad, 0x43ada245))
  {
    hide Scheduled, Reached, Constant;
    Constants0();
    Constants4();
    var v := Vars(0x6a09e667, 0xbb67ae85, 0x3c6ef372, 0xa54ff53a,
                  0x510e527f, 0x9b05688c, 0x1f83d9ab, 0x5be0cd19);
    v := Next(b, 0, v, 0x428a2f98, 0x61626380, 0x5d6aebcd, 0xfa2a4622);
    v := Next(b, 1, v, 0x71374491, 0x00000000, 0x5a6ad9ad, 0x78ce7989);
    v := Next(b, 2, v, 0xb5c0fbcf, 0x00000000, 0xc8c347a7, 0xf92939eb);
    v := Next(b, 3, v, 0xe9b5dba5, 0x00000000, 0xd550f666, 0x24e00850);
    v := Next(b, 4, v, 0x3956c25b, 0x00000000, 0x04409a6a, 0x43ada245);
    v := Next(b, 5, v, 0x59f111f1, 0x00000000, 0x2b4209f5, 0x714260ad);
    v := Next(b, 6, v, 0x923f82a4, 0x00000000, 0xe5030380, 0x9b27a401);
    v := Next(b, 7, v, 0xab1c5ed5, 0x00000000, 0x85a07b5f, 0x0c657a79);
  }

  lemma Rounds8(b: seq<byte>)
    requires Reached(b, 8, Vars(0x85a07b5f, 0xe5030380, 0x2b4209f5, 0x04409a6a,
                     0x0c657a79, 0x9b27a401, 0x714260ad, 0x43ada245))
    requires Scheduled(b, 8, 0x00000000) && Scheduled(b, 9, 0x00000000) && Scheduled(b, 10, 0x00000000)
    requires Scheduled(b, 11, 0x00000000) && Scheduled(b, 12, 0x00000000) && Scheduled(b, 13, 0x00000000)
    requires Scheduled(b, 14, 0x00000000) && Scheduled(b, 15, 0x00000018)
    ensures Reached(b, 16, Vars(0xb0fa238e, 0xc0645fde, 0xd932eb16, 0x87912990,
                     0x07590dcd, 0x0b92f20c, 0x745a48de, 0x1e578218))
  {
    hide Scheduled, Reached, Constant;
    Constants8();
    Constants12();
    var v := Vars(0x85a07b5f, 0xe5030380, 0x2b4209f5, 0x04409a6a,
                  0x0c657a79, 0x9b27a401, 0x714260ad, 0x43ada245);
    v := Next(b, 8, v, 0xd807aa98, 0x00000000, 0x8e04ecb9, 0x32ca2d8c);
    v := Next(b, 9, v, 0x12835b01, 0x00000000, 0x8c87346b, 0x1cc92596);
    v := Next(b, 10, v, 0x243185be, 0x00000000, 0x4798a3f4, 0x436b23e8);
    v := Next(b, 11, v, 0x550c7dc3, 0x00000000, 0xf71fc5a9, 0x816fd6e9);
    v := Next(b, 12, v, 0x72be5d74, 0x00000000, 0x87912990, 0x1e578218);
    v := Next(b, 13, v, 0x80deb1fe, 0x00000000, 0xd932eb16, 0x745a48de);
    v := Next(b, 14, v, 0x9bdc06a7, 0x00000000, 0xc0645fde, 0x0b92f20c);
    v := Next(b, 15, v, 0xc19bf174, 0x00000018, 0xb0fa238e, 0x07590dcd);
  }

  lemma Rounds16(b: seq<byte>)
    requires Reached(b, 16, Vars(0xb0fa238e, 0xc0645fde, 0xd932eb16, 0x87912990,
                     0x07590dcd, 0x0b92f20c, 0x745a48de, 0x1e578218))
    requires Scheduled(b, 16, 0x61626380) && Scheduled(b, 17, 0x000f0000) && Scheduled(b, 18, 0x7da86405)
    requires Scheduled(b, 19, 0x600003c6) && Scheduled(b, 20, 0x3e9d7b78) && Scheduled(b, 21, 0x0183fc00)
    requires Scheduled(b, 22, 0x12dcbfdb) && Scheduled(b, 23, 0xe2e2c38e)
    ensures Reached(b, 24, Vars(0xc5d53d8d, 0xa7a3623f, 0xc2606d6d, 0x9dc68b63,
                     0xaa47c347, 0x49f5114a, 0xe1257970, 0x8ada8930))
  {
    hide Scheduled, Reached, Constant;
    Constants16();
    Constants20();
    var v := Vars(0xb0fa238e, 0xc0645fde, 0xd932eb16, 0x87912990,
                  0x07590dcd, 0x0b92f20c, 0x745a48de, 0x1e578218);
    v := Next(b, 16, v, 0xe49b69c1, 0x61626380, 0x21da9a9b, 0x8034229c);
    v := Next(b, 17, v, 0xefbe4786, 0x000f0000, 0xc2fbd9d1, 0x846ee454);
    v := Next(b, 18, v, 0x0fc19dc6, 0x7da86405, 0xfe777bbf, 0xcc899961);
    v := Next(b, 19, v, 0x240ca1cc, 0x600003c6, 0xe1f20c33, 0xb0638179);
    v := Next(b, 20, v, 0x2de92c6f, 0x3e9d7b78, 0x9dc68b63, 0x8ada8930);
    v := Next(b, 21, v, 0x4a7484aa, 0x0183fc00, 0xc2606d6d, 0xe1257970);
    v := Next(b, 22, v, 0x5cb0a9dc, 0x12dcbfdb, 0xa7a3623f, 0x49f5114a);
    v := Next(b, 23, v, 0x76f988da, 0xe2e2c38e, 0xc5d53d8d, 0xaa47c347);
  }

  lemma Rounds24(b: seq<byte>)
    requires Reached(b, 24, Vars(0xc5d53d8d, 0xa7a3623f, 0xc2606d6d, 0x9dc68b63,
                     0xaa47c347, 0x49f5114a, 0xe1257970, 0x8ada8930))
    requires Scheduled(b, 24, 0xc8215c1a) && Scheduled(b, 25, 0xb73679a2) && Scheduled(b, 26, 0xe5bc3909)
    requires Scheduled(b, 27, 0x32663c5b) && Scheduled(b, 28, 0x9d209d67) && Scheduled(b, 29, 0xec8726cb)
    requires Scheduled(b, 30, 0x702138a4) && Scheduled(b, 31, 0xd3b7973b)
    ensures Reached(b, 32, Vars(0x73b33bf5, 0xea992a22, 0xa0060b30, 0x363482c9,
                     0xba591112, 0x0109ab3a, 0xade79437, 0x6112a3b7))
  {
    hide Scheduled, Reached, Constant;
    Constants24();
    Constants28();
    var v := Vars(0xc5d53d8d, 0xa7a3623f, 0xc2606d6d, 0x9dc68b63,
                  0xaa47c347, 0x49f5114a, 0xe1257970, 0x8ada8930);
    v := Next(b, 24, v, 0x983e5152, 0xc8215c1a, 0x1c2c2838, 0x2823ef91);
    v := Next(b, 25, v, 0xa831c66d, 0xb73679a2, 0xcde8037d, 0x14383d8e);
    v := Next(b, 26, v, 0xb00327c8, 0xe5bc3909, 0xb62ec4bc, 0xc74c6516);
    v := Next(b, 27, v, 0xbf597fc7, 0x32663c5b, 0x77d37528, 0xedffbff8);
    v := Next(b, 28, v, 0xc6e00bf3, 0x9d209d67, 0x363482c9, 0x6112a3b7);
    v := Next(b, 29, v, 0xd5a79147, 0xec8726cb, 0xa0060b30, 0xade79437);
    v := Next(b, 30, v, 0x06ca6351, 0x702138a4, 0xea992a22, 0x0109ab3a);
    v := Next(b, 31, v, 0x14292967, 0xd3b7973b, 0x73b33bf5, 0xba591112);
  }

  lemma Rounds32(b: seq<byte>)
    requires Reached(b, 32, Vars(0x73b33bf5, 0xea992a22, 0xa0060b30, 0x363482c9,
                     0xba591112, 0x0109ab3a, 0xade79437, 0x6112a3b7))
    requires Scheduled(b, 32, 0x93f5997f) && Scheduled(b, 33, 0x3b68ba73) && Scheduled(b, 34, 0xaff4ffc1)
    requires Scheduled(b, 35, 0xf10a5c62) && Scheduled(b, 36, 0x0a8b3996) && Scheduled(b, 37, 0x72af830a)
    requires Scheduled(b, 38, 0x9409e33e) && Scheduled(b, 39, 0x24641522)
    ensures Reached(b, 40, Vars(0x79ea687a, 0x6dc57a8a, 0x34df1604, 0x41a65cb1,
                     0x1efbc0a0, 0xf0781bc8, 0xa507a53d, 0x0772a26b))
  {
    hide Scheduled, Reached, Constant;
    Constants32();
    Constants36();
    var v := Vars(0x73b33bf5, 0xea992a22, 0xa0060b30, 0x363482c9,
                  0xba591112, 0x0109ab3a, 0xade79437, 0x6112a3b7);
    v := Next(b, 32, v, 0x27b70a85, 0x93f5997f, 0x98e12507, 0x9cd9f5f6);
    v := Next(b, 33, v, 0x2e1b2138, 0x3b68ba73, 0xfe604df5, 0x59249dd3);
    v := Next(b, 34, v, 0x4d2c6dfc, 0xaff4ffc1, 0xa9a7738c, 0x085f3833);
    v := Next(b, 35, v, 0x53380d13, 0xf10a5c62, 0x65a0cfe4, 0xf4b002d6);
    v := Next(b, 36, v, 0x650a7354, 0x0a8b3996, 0x41a65cb1, 0x0772a26b);
    v := Next(b, 37, v, 0x766a0abb, 0x72af830a, 0x34df1604, 0xa507a53d);
    v := Next(b, 38, v, 0x81c2c92e, 0x9409e33e, 0x6dc57a8a, 0xf0781bc8);
    v := Next(b, 39, v, 0x92722c85, 0x24641522, 0x79ea687a, 0x1efbc0a0);
  }

  lemma Rounds40(b: seq<byte>)
    requires Reached(b, 40, Vars(0x79ea687a, 0x6dc57a8a, 0x34df1604, 0x41a65cb1,
                     0x1efbc0a0, 0xf0781bc8, 0xa507a53d, 0x0772a26b))
    requires Scheduled(b, 40, 0x9f47bf94) && Scheduled(b, 41, 0xf0a64f5a) && Scheduled(b, 42, 0x3e246a79)
    requires Scheduled(b, 43, 0x27333ba3) && Scheduled(b, 44, 0x0c4763f2) && Scheduled(b, 45, 0x840abf27)
    requires Scheduled(b, 46, 0x7a290d5d) && Scheduled(b, 47, 0x065c43da)
    ensures Reached(b, 48, Vars(0x4172328d, 0xa14c14b0, 0x72ab4b91, 0x26628815,
                     0xfecf0bc6, 0xd57b94a9, 0xb7755da1, 0xa80f11f0))
  {
    hide Scheduled, Reached, Constant;
    Constants40();
    Constants44();
    var v := Vars(0x79ea687a, 0x6dc57a8a, 0x34df1604, 0x41a65cb1,
                  0x1efbc0a0, 0xf0781bc8, 0xa507a53d, 0x0772a26b);
    v := Next(b, 40, v, 0xa2bfe8a1, 0x9f47bf94, 0xd6670766, 0x26352d63);
    v := Next(b, 41, v, 0xa81a664b, 0xf0a64f5a, 0xdf46652f, 0x838b2711);
    v := Next(b, 42, v, 0xc24b8b70, 0x3e246a79, 0x17aa0dfe, 0xdecd4715);
    v := Next(b, 43, v, 0xc76c51a3, 0x27333ba3, 0x9d4baf93, 0xfda24c2e);
    v := Next(b, 44, v, 0xd192e819, 0x0c4763f2, 0x26628815, 0xa80f11f0);
    v := Next(b, 45, v, 0xd6990624, 0x840abf27, 0x72ab4b91, 0xb7755da1);
    v := Next(b, 46, v, 0xf40e3585, 0x7a290d5d, 0xa14c14b0, 0xd57b94a9);
    v := Next(b, 47, v, 0x106aa070, 0x065c43da, 0x4172328d, 0xfecf0bc6);
  }

  lemma Rounds48(b: seq<byte>)
    requires Reached(b, 48, Vars(0x4172328d, 0xa14c14b0, 0x72ab4b91, 0x26628815,
                     0xfecf0bc6, 0xd57b94a9, 0xb7755da1, 0xa80f11f0))
    requires Scheduled(b, 48, 0xfb3e89cb) && Scheduled(b, 49, 0xcc7617db) && Scheduled(b, 50, 0xb9e66c34)
    requires Scheduled(b, 51, 0xa9993667) && Scheduled(b, 52, 0x84badedd) && Scheduled(b, 53, 0xc21462bc)
    requires Scheduled(b, 54, 0x1487472c) && Scheduled(b, 55, 0xb20f7a99)
    ensures Reached(b, 56, Vars(0x38cc9913, 0x3ec45cdb, 0xf5702fdb, 0x101fd28f,
                     0x54cb266b, 0xe50e1b4f, 0x9f4787c3, 0x529e7d00))
  {
    hide Scheduled, Reached, Constant;
    Constants48();
    Constants52();
    var v := Vars(0x4172328d, 0xa14c14b0, 0x72ab4b91, 0x26628815,
                  0xfecf0bc6, 0xd57b94a9, 0xb7755da1, 0xa80f11f0);
    v := Next(b, 48, v, 0x19a4c116, 0xfb3e89cb, 0x05757ceb, 0xbd714038);
    v := Next(b, 49, v, 0x1e376c08, 0xcc7617db, 0xf11bfaa8, 0x6e5c390c);
    v := Next(b, 50, v, 0x2748774c, 0xb9e66c34, 0x7a0508a1, 0x52f1ccf7);
    v := Next(b, 51, v, 0x34b0bcb5, 0xa9993667, 0x886e7a22, 0x49231c1e);
    v := Next(b, 52, v, 0x391c0cb3, 0x84badedd, 0x101fd28f, 0x529e7d00);
    v := Next(b, 53, v, 0x4ed8aa4a, 0xc21462bc, 0xf5702fdb, 0x9f4787c3);
    v := Next(b, 54, v, 0x5b9cca4f, 0x1487472c, 0x3ec45cdb, 0xe50e1b4f);
    v := Next(b, 55, v, 0x682e6ff3, 0xb20f7a99, 0x38cc9913, 0x54cb266b);
  }

  lemma Rounds56(b: seq<byte>)
    requires Reached(b, 56, Vars(0x38cc9913, 0x3ec45cdb, 0xf5702fdb, 0x101fd28f,
                     0x54cb266b, 0xe50e1b4f, 0x9f4787c3, 0x529e7d00))
    requires Scheduled(b, 56, 0xef57b9cd) && Scheduled(b, 57, 0xebe6b238) && Scheduled(b, 58, 0x9fe3095e)
    requires Scheduled(b, 59, 0x78bc8d4b) && Scheduled(b, 60, 0xa43fcf15) && Scheduled(b, 61, 0x668b2ff8)
    requires Scheduled(b, 62, 0xeeaba2cc) && Scheduled(b, 63, 0x12b1edeb)
    ensures Reached(b, 64, Vars(0x506e3058, 0xd39a2165, 0x04d24d6c, 0xb85e2ce9,
                     0x5ef50f24, 0xfb121210, 0x948d25b6, 0x961f4894))
  {
    hide Scheduled, Reached, Constant;
    Constants56();
    Constants60();
    var v := Vars(0x38cc9913, 0x3ec45cdb, 0xf5702fdb, 0x101fd28f,
                  0x54cb266b, 0xe50e1b4f, 0x9f4787c3, 0x529e7d00);
    v := Next(b, 56, v, 0x748f82ee, 0xef57b9cd, 0xfcd1887b, 0x9b5e906c);
    v := Next(b, 57, v, 0x78a5636f, 0xebe6b238, 0xc062d46f, 0x7e44008e);
    v := Next(b, 58, v, 0x84c87814, 0x9fe3095e, 0xffb70472, 0x6d83bfc6);
    v := Next(b, 59, v, 0x8cc70208, 0x78bc8d4b, 0xb6ae8fff, 0xb21bad3d);
    v := Next(b, 60, v, 0x90befffa, 0xa43fcf15, 0xb85e2ce9, 0x961f4894);
    v := Next(b, 61, v, 0xa4506ceb, 0x668b2ff8, 0x04d24d6c, 0x948d25b6);
    v := Next(b, 62, v, 0xbef9a3f7, 0xeeaba2cc, 0xd39a2165, 0xfb121210);
    v := Next(b, 63, v, 0xc67178f2, 0x12b1edeb, 0x506e3058, 0x5ef50f24);
  }

  // ----- The block and the result -----

  lemma {:induction false} NoBits(k: nat)
    ensures BigEndian(0, k) == Zeros(k)
  {
    if k > 0 {
      NoBits(k - 1);
      assert LowByte(0) == 0;
    }
  }

  /** The three bytes, the bit 1, 52 zeros, and the length of 24 bits. */
  lemma Block()
    ensures Padded(ABC) == ABC + [0x80] + Zeros(59) + [24]
  {
    NoBits(7);
    assert ZeroCount(3) == 52 && Low64(24) == 24;
    assert BigEndian(24, 8) == BigEndian(0, 7) + [LowByte(24)] && LowByte(24) == 24;
    assert Zeros(52) + Zeros(7) == Zeros(59);
  }

  lemma FirstWords(b: seq<byte>)
    requires b == Padded(ABC)
    ensures Scheduled(b, 0, 0x61626380) && Scheduled(b, 1, 0x00000000) && Scheduled(b, 2, 0x00000000)
    ensures Scheduled(b, 3, 0x00000000) && Scheduled(b, 4, 0x00000000) && Scheduled(b, 5, 0x00000000)
    ensures Scheduled(b, 6, 0x00000000) && Scheduled(b, 7, 0x00000000) && Scheduled(b, 8, 0x00000000)
    ensures Scheduled(b, 9, 0x00000000) && Scheduled(b, 10, 0x00000000) && Scheduled(b, 11, 0x00000000)
    ensures Scheduled(b, 12, 0x00000000) && Scheduled(b, 13, 0x00000000) && Scheduled(b, 14, 0x00000000)
    ensures Scheduled(b, 15, 0x00000018)
  {
    Block();
    hide Padded, Join;
    Joins();
    assert WordAt(b, 0) == Join(0x61, 0x62, 0x63, 0x80);
    forall t | 1 <= t < 15
      ensures WordAt(b, t) == Join(0, 0, 0, 0)
    {
    }
    assert WordAt(b, 15) == Join(0, 0, 0, 24);
  }

  lemma Joins()
    ensures Join(0x61, 0x62, 0x63, 0x80) == 0x61626380 && Join(0, 0, 0, 0) == 0 && Join(0, 0, 0, 24) == 0x18
  {
  }

  lemma Start(b: seq<byte>)
    requires |b| == 64
    ensures Reached(b, 0, Vars(0x6a09e667, 0xbb67ae85, 0x3c6ef372, 0xa54ff53a,
                     0x510e527f, 0x9b05688c, 0x1f83d9ab, 0x5be0cd19))
  {
  }

  lemma LastRound(b: seq<byte>)
    requires b == Padded(ABC)
    ensures Reached(b, 64, Vars(0x506e3058, 0xd39a2165, 0x04d24d6c, 0xb85e2ce9,
                     0x5ef50f24, 0xfb121210, 0x948d25b6, 0x961f4894))
  {
    hide *;
    FirstWords(b);
    Words16(b);
    Words24(b);
    Words32(b);
    Words40(b);
    Words48(b);
    Words56(b);
    Length(b);
    Start(b);
    Rounds0(b);
    Rounds8(b);
    Rounds16(b);
    Rounds24(b);
    Rounds32(b);
    Rounds40(b);
    Rounds48(b);
    Rounds56(b);
  }

  lemma Length(b: seq<byte>)
    requires b == Padded(ABC)
    ensures |b| == 64 && WholeBlocks(b)
  {
    Block();
  }

  lemma Sums()
    ensures Plus(0x6a09e667, 0x506e3058) == 0xba7816bf
    ensures Plus(0xbb67ae85, 0xd39a2165) == 0x8f01cfea
    ensures Plus(0x3c6ef372, 0x04d24d6c) == 0x414140de
    ensures Plus(0xa54ff53a, 0xb85e2ce9) == 0x5dae2223
    ensures Plus(0x510e527f, 0x5ef50f24) == 0xb00361a3
    ensures Plus(0x9b05688c, 0xfb121210) == 0x96177a9c
    ensures Plus(0x1f83d9ab, 0x948d25b6) == 0xb410ff61
    ensures Plus(0x5be0cd19, 0x961f4894) == 0xf20015ad
  {
  }

  /** What is left after the block. */
  lemma Compressed()
    ensures var h := Fold(INITIAL, Padded(ABC));
            h == [0xba7816bf, 0x8f01cfea, 0x414140de, 0x5dae2223,
                  0xb00361a3, 0x96177a9c, 0xb410ff61, 0xf20015ad]
  {
    var b := Padded(ABC);
    LastRound(b);
    Length(b);
    Sums();
    FoldOne(INITIAL, b);
    hide Padded, Rounds, Plus, Fold;
    var h, v := INITIAL, Rounds(VarsOf(INITIAL), b, 64);
    var after := Compress(h, b);
    assert after == AddWords(h, WordsOf(v));
    assert after[0] == Plus(h[0], v.a) && after[1] == Plus(h[1], v.b);
    assert after[2] == Plus(h[2], v.c) && after[3] == Plus(h[3], v.d);
    assert after[4] == Plus(h[4], v.e) && after[5] == Plus(h[5], v.f);
    assert after[6] == Plus(h[6], v.g) && after[7] == Plus(h[7], v.h);
  }

  lemma SumOfFour(a: byte, b: byte, c: byte, d: byte)
    ensures CryptCrypto.SumBytes([a, b, c, d]) == a as nat + b as nat + c as nat + d as nat
  {
    var s := [a, b, c, d];
    assert s[..3][..2] == s[..2] && s[..2][..1] == s[..1] && s[..1][..0] == [];
    assert CryptCrypto.SumBytes(s[..1]) == a as nat && CryptCrypto.SumBytes(s[..2]) == a as nat + b as nat;
    assert CryptCrypto.SumBytes(s[..3]) == a as nat + b as nat + c as nat;
  }

  lemma Printed()
    ensures WordBytes(0xba7816bf) == [186, 120, 22, 191]
    ensures WordBytes(0x8f01cfea) == [143, 1, 207, 234]
    ensures WordBytes(0x414140de) == [65, 65, 64, 222]
    ensures WordBytes(0x5dae2223) == [93, 174, 34, 35]
    ensures WordBytes(0xb00361a3) == [176, 3, 97, 163]
    ensures WordBytes(0x96177a9c) == [150, 23, 122, 156]
    ensures WordBytes(0xb410ff61) == [180, 16, 255, 97]
    ensures WordBytes(0xf20015ad) == [242, 0, 21, 173]
  {
  }

  lemma NextPrinted(h: seq<Word>, n: nat)
    requires n < |h|
    ensures WordsBytes(h[..n + 1]) == WordsBytes(h[..n]) + WordBytes(h[n])
  {
    hide WordBytes;
    var now, next := WordsBytes(h[..n]), WordsBytes(h[..n + 1]);
    forall p | 0 <= p < 4 * n + 4
      ensures next[p] == (now + WordBytes(h[n]))[p]
    {
      assert p >= 4 * n ==> p / 4 == n && p % 4 == p - 4 * n;
    }
  }

  lemma NextSum(h: seq<Word>, n: nat)
    requires n < |h|
    ensures CryptCrypto.SumBytes(WordsBytes(h[..n + 1])) ==
            CryptCrypto.SumBytes(WordsBytes(h[..n])) + CryptCrypto.SumBytes(WordBytes(h[n]))
  {
    hide *;
    NextPrinted(h, n);
    CryptCrypto.SumAppend(WordsBytes(h[..n]), WordBytes(h[n]));
  }

  lemma NothingPrinted(h: seq<Word>)
    ensures CryptCrypto.SumBytes(WordsBytes(h[..0])) == 0 && h[..|h|] == h
  {
    assert WordsBytes(h[..0]) == [];
  }

  lemma SumOfWords(h: seq<Word>)
    requires |h| == 8
    ensures CryptCrypto.SumBytes(WordsBytes(h)) ==
            CryptCrypto.SumBytes(WordBytes(h[0])) + CryptCrypto.SumBytes(WordBytes(h[1]))
            + CryptCrypto.SumBytes(WordBytes(h[2])) + CryptCrypto.SumBytes(WordBytes(h[3]))
            + CryptCrypto.SumBytes(WordBytes(h[4])) + CryptCrypto.SumBytes(WordBytes(h[5]))
            + CryptCrypto.SumBytes(WordBytes(h[6])) + CryptCrypto.SumBytes(WordBytes(h[7]))
  {
    hide *;
    NothingPrinted(h);
    NextSum(h, 0);
    NextSum(h, 1);
    NextSum(h, 2);
    NextSum(h, 3);
    NextSum(h, 4);
    NextSum(h, 5);
    NextSum(h, 6);
    NextSum(h, 7);
  }

  /** The digest of the message. */
  lemma DigestOfAbc()
    ensures CryptCrypto.Digest(ABC) == 3730
  {
    Compressed();
    CryptCrypto.DigestOfHash(ABC);
    Printed();
    var h := Fold(INITIAL, Padded(ABC));
    hide *;
    SumOfWords(h);
    SumOfFour(186, 120, 22, 191);
    SumOfFour(143, 1, 207, 234);
    SumOfFour(65, 65, 64, 222);
    SumOfFour(93, 174, 34, 35);
    SumOfFour(176, 3, 97, 163);
    SumOfFour(150, 23, 122, 156);
    SumOfFour(180, 16, 255, 97);
    SumOfFour(242, 0, 21, 173);
  }
}
