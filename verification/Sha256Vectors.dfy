/**
  The digest of one known message, and where the constants come from: facts about
  SHA-256 that do not mention how the digest is put together.
 */
module Sha256Vectors {
  import opened LittleEndian
  import opened Sha256

  // ------------------------------------------------------------------
  // The message "abc" (FIPS 180-4 example)
  // ------------------------------------------------------------------

  const ABC: seq<bv8> := [0x61, 0x62, 0x63]

  /** The message, the one bit, and the length of 24 bits. */
  lemma PadAbc(t: nat)
    ensures |Pad(ABC)| == 64
    ensures t < 64 ==> Pad(ABC)[t] == if t < 3 then ABC[t] else if t == 3 then 0x80 else if t == 63 then 24 else 0
  {
    assert (55 - |ABC|) % 64 == 52;
    if 56 <= t < 64 {
      Pow256Values();
      assert Pow256(0) == 1;
      LengthOf24(t - 56);
      assert Pad(ABC)[t] == LengthByte(24, t - 56);
    }
  }

  lemma LengthOf24(i: nat)
    requires i < 8
    ensures LengthByte(24, i) == if i == 7 then 24 else 0
  {
    if i < 7 {
      assert Pow256(7 - i) == 256 * Pow256(6 - i) >= 256;
      SmallQuotient(24, Pow256(7 - i));
    } else {
      assert Pow256(0) == 1;
    }
  }

  lemma SmallQuotient(x: nat, y: nat)
    requires x < y
    ensures x / y == 0
  {
  }

  lemma WordFromBlock(p: seq<bv8>, n: nat, t: nat)
    requires |p| == 64 && t < n
    ensures t < 16 ==> Schedule(p, n)[t] == WordAt(p, t)
    ensures t >= 16 ==> Schedule(p, n)[t] == NextWord(Schedule(p, t)) && Schedule(p, n)[..t] == Schedule(p, t)
  {
    hide WordAt, NextWord;
    if t < n - 1 {
      WordFromBlock(p, n - 1, t);
    }
  }

  /** The recurrence of the message schedule, on the finished schedule. */
  lemma WordFromWords(p: seq<bv8>, t: nat)
    requires |p| == 64 && 16 <= t < 64
    ensures var w := Schedule(p, 64);
            w[t] == Add(Add(Add(w[t - 16], SmallSigma0(w[t - 15])), w[t - 7]), SmallSigma1(w[t - 2]))
  {
    hide Add, SmallSigma0, SmallSigma1;
    WordFromBlock(p, 64, t);
    var w := Schedule(p, 64);
    assert w[..t][t - 16] == w[t - 16] && w[..t][t - 15] == w[t - 15] && w[..t][t - 7] == w[t - 7];
    assert w[..t][t - 2] == w[t - 2];
  }

  lemma FirstWords(p: seq<bv8>, w: seq<bv32>)
    requires p == Pad(ABC) && |p| == 64 && w == Schedule(p, 64)
    ensures w[0] == 0x61626380 && w[15] == 0x18 && forall t :: 0 < t < 15 ==> w[t] == 0
  {
    hide Schedule, Pad;
    forall t: nat | t < 16
      ensures w[t] == if t == 0 then 0x61626380 else if t == 15 then 0x18 else 0
    {
      WordFromBlock(p, 64, t);
      PadAbc(4 * t);
      PadAbc(4 * t + 1);
      PadAbc(4 * t + 2);
      PadAbc(4 * t + 3);
      BytesOfAbc();
    }
  }

  lemma BytesOfAbc()
    ensures BigEndian(0x61, 0x62, 0x63, 0x80) == 0x61626380 && BigEndian(0, 0, 0, 0) == 0
    ensures BigEndian(0, 0, 0, 24) == 0x18
  {
  }

  lemma NextIs(p: seq<bv8>, w: seq<bv32>, t: nat, x16: bv32, x15: bv32, x7: bv32, x2: bv32, x: bv32)
    requires |p| == 64 && w == Schedule(p, 64) && 16 <= t < 64
    requires w[t - 16] == x16 && w[t - 15] == x15 && w[t - 7] == x7 && w[t - 2] == x2
    requires Add(Add(Add(x16, SmallSigma0(x15)), x7), SmallSigma1(x2)) == x
    ensures w[t] == x
  {
    hide Schedule, Add, SmallSigma0, SmallSigma1;
    WordFromWords(p, t);
  }

  lemma Words16(p: seq<bv8>, w: seq<bv32>)
    requires |p| == 64 && w == Schedule(p, 64)
    requires w[0] == 0x61626380 && w[1] == 0x00000000 && w[2] == 0x00000000 && w[3] == 0x00000000
    requires w[4] == 0x00000000 && w[5] == 0x00000000 && w[6] == 0x00000000 && w[7] == 0x00000000
    requires w[8] == 0x00000000 && w[9] == 0x00000000 && w[10] == 0x00000000 && w[11] == 0x00000000
    requires w[12] == 0x00000000 && w[13] == 0x00000000 && w[14] == 0x00000000 && w[15] == 0x00000018
    ensures w[16] == 0x61626380 && w[17] == 0x000f0000 && w[18] == 0x7da86405 && w[19] == 0x600003c6
    ensures w[20] == 0x3e9d7b78 && w[21] == 0x0183fc00 && w[22] == 0x12dcbfdb && w[23] == 0xe2e2c38e
    ensures w[24] == 0xc8215c1a && w[25] == 0xb73679a2 && w[26] == 0xe5bc3909 && w[27] == 0x32663c5b
    ensures w[28] == 0x9d209d67 && w[29] == 0xec8726cb && w[30] == 0x702138a4 && w[31] == 0xd3b7973b
  {
    hide Schedule;
    NextIs(p, w, 16, 0x61626380, 0x00000000, 0x00000000, 0x00000000, 0x61626380);
    NextIs(p, w, 17, 0x00000000, 0x00000000, 0x00000000, 0x00000018, 0x000f0000);
    NextIs(p, w, 18, 0x00000000, 0x00000000, 0x00000000, 0x61626380, 0x7da86405);
    NextIs(p, w, 19, 0x00000000, 0x00000000, 0x00000000, 0x000f0000, 0x600003c6);
    NextIs(p, w, 20, 0x00000000, 0x00000000, 0x00000000, 0x7da86405, 0x3e9d7b78);
    NextIs(p, w, 21, 0x00000000, 0x00000000, 0x00000000, 0x600003c6, 0x0183fc00);
    NextIs(p, w, 22, 0x00000000, 0x00000000, 0x00000018, 0x3e9d7b78, 0x12dcbfdb);
    NextIs(p, w, 23, 0x00000000, 0x00000000, 0x61626380, 0x0183fc00, 0xe2e2c38e);
    NextIs(p, w, 24, 0x00000000, 0x00000000, 0x000f0000, 0x12dcbfdb, 0xc8215c1a);
    NextIs(p, w, 25, 0x00000000, 0x00000000, 0x7da86405, 0xe2e2c38e, 0xb73679a2);
    NextIs(p, w, 26, 0x00000000, 0x00000000, 0x600003c6, 0xc8215c1a, 0xe5bc3909);
    NextIs(p, w, 27, 0x00000000, 0x00000000, 0x3e9d7b78, 0xb73679a2, 0x32663c5b);
    NextIs(p, w, 28, 0x00000000, 0x00000000, 0x0183fc00, 0xe5bc3909, 0x9d209d67);
    NextIs(p, w, 29, 0x00000000, 0x00000000, 0x12dcbfdb, 0x32663c5b, 0xec8726cb);
    NextIs(p, w, 30, 0x00000000, 0x00000018, 0xe2e2c38e, 0x9d209d67, 0x702138a4);
    NextIs(p, w, 31, 0x00000018, 0x61626380, 0xc8215c1a, 0xec8726cb, 0xd3b7973b);
  }

  lemma Words32(p: seq<bv8>, w: seq<bv32>)
    requires |p| == 64 && w == Schedule(p, 64)
    requires w[16] == 0x61626380 && w[17] == 0x000f0000 && w[18] == 0x7da86405 && w[19] == 0x600003c6
    requires w[20] == 0x3e9d7b78 && w[21] == 0x0183fc00 && w[22] == 0x12dcbfdb && w[23] == 0xe2e2c38e
    requires w[24] == 0xc8215c1a && w[25] == 0xb73679a2 && w[26] == 0xe5bc3909 && w[27] == 0x32663c5b
    requires w[28] == 0x9d209d67 && w[29] == 0xec8726cb && w[30] == 0x702138a4 && w[31] == 0xd3b7973b
    ensures w[32] == 0x93f5997f && w[33] == 0x3b68ba73 && w[34] == 0xaff4ffc1 && w[35] == 0xf10a5c62
    ensures w[36] == 0x0a8b3996 && w[37] == 0x72af830a && w[38] == 0x9409e33e && w[39] == 0x24641522
    ensures w[40] == 0x9f47bf94 && w[41] == 0xf0a64f5a && w[42] == 0x3e246a79 && w[43] == 0x27333ba3
    ensures w[44] == 0x0c4763f2 && w[45] == 0x840abf27 && w[46] == 0x7a290d5d && w[47] == 0x065c43da
  {
    hide Schedule;
    NextIs(p, w, 32, 0x61626380, 0x000f0000, 0xb73679a2, 0x702138a4, 0x93f5997f);
    NextIs(p, w, 33, 0x000f0000, 0x7da86405, 0xe5bc3909, 0xd3b7973b, 0x3b68ba73);
    NextIs(p, w, 34, 0x7da86405, 0x600003c6, 0x32663c5b, 0x93f5997f, 0xaff4ffc1);
    NextIs(p, w, 35, 0x600003c6, 0x3e9d7b78, 0x9d209d67, 0x3b68ba73, 0xf10a5c62);
    NextIs(p, w, 36, 0x3e9d7b78, 0x0183fc00, 0xec8726cb, 0xaff4ffc1, 0x0a8b3996);
    NextIs(p, w, 37, 0x0183fc00, 0x12dcbfdb, 0x702138a4, 0xf10a5c62, 0x72af830a);
    NextIs(p, w, 38, 0x12dcbfdb, 0xe2e2c38e, 0xd3b7973b, 0x0a8b3996, 0x9409e33e);
    NextIs(p, w, 39, 0xe2e2c38e, 0xc8215c1a, 0x93f5997f, 0x72af830a, 0x24641522);
    NextIs(p, w, 40, 0xc8215c1a, 0xb73679a2, 0x3b68ba73, 0x9409e33e, 0x9f47bf94);
    NextIs(p, w, 41, 0xb73679a2, 0xe5bc3909, 0xaff4ffc1, 0x24641522, 0xf0a64f5a);
    NextIs(p, w, 42, 0xe5bc3909, 0x32663c5b, 0xf10a5c62, 0x9f47bf94, 0x3e246a79);
    NextIs(p, w, 43, 0x32663c5b, 0x9d209d67, 0x0a8b3996, 0xf0a64f5a, 0x27333ba3);
    NextIs(p, w, 44, 0x9d209d67, 0xec8726cb, 0x72af830a, 0x3e246a79, 0x0c4763f2);
    NextIs(p, w, 45, 0xec8726cb, 0x702138a4, 0x9409e33e, 0x27333ba3, 0x840abf27);
    NextIs(p, w, 46, 0x702138a4, 0xd3b7973b, 0x24641522, 0x0c4763f2, 0x7a290d5d);
    NextIs(p, w, 47, 0xd3b7973b, 0x93f5997f, 0x9f47bf94, 0x840abf27, 0x065c43da);
  }

  lemma Words48(p: seq<bv8>, w: seq<bv32>)
    requires |p| == 64 && w == Schedule(p, 64)
    requires w[32] == 0x93f5997f && w[33] == 0x3b68ba73 && w[34] == 0xaff4ffc1 && w[35] == 0xf10a5c62
    requires w[36] == 0x0a8b3996 && w[37] == 0x72af830a && w[38] == 0x9409e33e && w[39] == 0x24641522
    requires w[40] == 0x9f47bf94 && w[41] == 0xf0a64f5a && w[42] == 0x3e246a79 && w[43] == 0x27333ba3
    requires w[44] == 0x0c4763f2 && w[45] == 0x840abf27 && w[46] == 0x7a290d5d && w[47] == 0x065c43da
    ensures w[48] == 0xfb3e89cb && w[49] == 0xcc7617db && w[50] == 0xb9e66c34 && w[51] == 0xa9993667
    ensures w[52] == 0x84badedd && w[53] == 0xc21462bc && w[54] == 0x1487472c && w[55] == 0xb20f7a99
    ensures w[56] == 0xef57b9cd && w[57] == 0xebe6b238 && w[58] == 0x9fe3095e && w[59] == 0x78bc8d4b
    ensures w[60] == 0xa43fcf15 && w[61] == 0x668b2ff8 && w[62] == 0xeeaba2cc && w[63] == 0x12b1edeb
  {
    hide Schedule;
    NextIs(p, w, 48, 0x93f5997f, 0x3b68ba73, 0xf0a64f5a, 0x7a290d5d, 0xfb3e89cb);
    NextIs(p, w, 49, 0x3b68ba73, 0xaff4ffc1, 0x3e246a79, 0x065c43da, 0xcc7617db);
    NextIs(p, w, 50, 0xaff4ffc1, 0xf10a5c62, 0x27333ba3, 0xfb3e89cb, 0xb9e66c34);
    NextIs(p, w, 51, 0xf10a5c62, 0x0a8b3996, 0x0c4763f2, 0xcc7617db, 0xa9993667);
    NextIs(p, w, 52, 0x0a8b3996, 0x72af830a, 0x840abf27, 0xb9e66c34, 0x84badedd);
    NextIs(p, w, 53, 0x72af830a, 0x9409e33e, 0x7a290d5d, 0xa9993667, 0xc21462bc);
    NextIs(p, w, 54, 0x9409e33e, 0x24641522, 0x065c43da, 0x84badedd, 0x1487472c);
    NextIs(p, w, 55, 0x24641522, 0x9f47bf94, 0xfb3e89cb, 0xc21462bc, 0xb20f7a99);
    NextIs(p, w, 56, 0x9f47bf94, 0xf0a64f5a, 0xcc7617db, 0x1487472c, 0xef57b9cd);
    NextIs(p, w, 57, 0xf0a64f5a, 0x3e246a79, 0xb9e66c34, 0xb20f7a99, 0xebe6b238);
    NextIs(p, w, 58, 0x3e246a79, 0x27333ba3, 0xa9993667, 0xef57b9cd, 0x9fe3095e);
    NextIs(p, w, 59, 0x27333ba3, 0x0c4763f2, 0x84badedd, 0xebe6b238, 0x78bc8d4b);
    NextIs(p, w, 60, 0x0c4763f2, 0x840abf27, 0xc21462bc, 0x9fe3095e, 0xa43fcf15);
    NextIs(p, w, 61, 0x840abf27, 0x7a290d5d, 0x1487472c, 0x78bc8d4b, 0x668b2ff8);
    NextIs(p, w, 62, 0x7a290d5d, 0x065c43da, 0xb20f7a99, 0xa43fcf15, 0xeeaba2cc);
    NextIs(p, w, 63, 0x065c43da, 0xfb3e89cb, 0xef57b9cd, 0x668b2ff8, 0x12b1edeb);
  }

  /** One round: only two registers are new. */
  lemma Advance(h: Regs, w: seq<bv32>, t: nat, s: Regs, k: bv32, x: bv32, a: bv32, e: bv32) returns (n: Regs)
    requires |w| == 64 && t < 64 && Rounds(h, w, t) == s && K[t] == k && w[t] == x
    requires Round(s, k, x) == Regs(a, s.a, s.b, s.c, e, s.e, s.f, s.g)
    ensures n == Regs(a, s.a, s.b, s.c, e, s.e, s.f, s.g) == Rounds(h, w, t + 1)
  {
    hide Round, Rounds;
    RoundsNext(h, w, t);
    n := Regs(a, s.a, s.b, s.c, e, s.e, s.f, s.g);
  }

  lemma Constants0()
    ensures K[0] == 0x428a2f98 && K[1] == 0x71374491 && K[2] == 0xb5c0fbcf && K[3] == 0xe9b5dba5
    ensures K[4] == 0x3956c25b && K[5] == 0x59f111f1 && K[6] == 0x923f82a4 && K[7] == 0xab1c5ed5
    ensures K[8] == 0xd807aa98 && K[9] == 0x12835b01 && K[10] == 0x243185be && K[11] == 0x550c7dc3
    ensures K[12] == 0x72be5d74 && K[13] == 0x80deb1fe && K[14] == 0x9bdc06a7 && K[15] == 0xc19bf174
  {
  }

  lemma Constants16()
    ensures K[16] == 0xe49b69c1 && K[17] == 0xefbe4786 && K[18] == 0x0fc19dc6 && K[19] == 0x240ca1cc
    ensures K[20] == 0x2de92c6f && K[21] == 0x4a7484aa && K[22] == 0x5cb0a9dc && K[23] == 0x76f988da
    ensures K[24] == 0x983e5152 && K[25] == 0xa831c66d && K[26] == 0xb00327c8 && K[27] == 0xbf597fc7
    ensures K[28] == 0xc6e00bf3 && K[29] == 0xd5a79147 && K[30] == 0x06ca6351 && K[31] == 0x14292967
  {
  }

  lemma Constants32()
    ensures K[32] == 0x27b70a85 && K[33] == 0x2e1b2138 && K[34] == 0x4d2c6dfc && K[35] == 0x53380d13
    ensures K[36] == 0x650a7354 && K[37] == 0x766a0abb && K[38] == 0x81c2c92e && K[39] == 0x92722c85
    ensures K[40] == 0xa2bfe8a1 && K[41] == 0xa81a664b && K[42] == 0xc24b8b70 && K[43] == 0xc76c51a3
    ensures K[44] == 0xd192e819 && K[45] == 0xd6990624 && K[46] == 0xf40e3585 && K[47] == 0x106aa070
  {
  }

  lemma Constants48()
    ensures K[48] == 0x19a4c116 && K[49] == 0x1e376c08 && K[50] == 0x2748774c && K[51] == 0x34b0bcb5
    ensures K[52] == 0x391c0cb3 && K[53] == 0x4ed8aa4a && K[54] == 0x5b9cca4f && K[55] == 0x682e6ff3
    ensures K[56] == 0x748f82ee && K[57] == 0x78a5636f && K[58] == 0x84c87814 && K[59] == 0x8cc70208
    ensures K[60] == 0x90befffa && K[61] == 0xa4506ceb && K[62] == 0xbef9a3f7 && K[63] == 0xc67178f2
  {
  }

  lemma Rounds0(h: Regs, w: seq<bv32>)
    requires |w| == 64
    requires w[0] == 0x61626380 && w[1] == 0x00000000 && w[2] == 0x00000000 && w[3] == 0x00000000
    requires w[4] == 0x00000000 && w[5] == 0x00000000 && w[6] == 0x00000000 && w[7] == 0x00000000
    requires Rounds(h, w, 0)
             == Regs(0x6a09e667, 0xbb67ae85, 0x3c6ef372, 0xa54ff53a,
                     0x510e527f, 0x9b05688c, 0x1f83d9ab, 0x5be0cd19)
    ensures Rounds(h, w, 8)
            == Regs(0x85a07b5f, 0xe5030380, 0x2b4209f5, 0x04409a6a,
                    0x0c657a79, 0x9b27a401, 0x714260ad, 0x43ada245)
  {
    hide Rounds;
    Constants0();
    var s := Regs(0x6a09e667, 0xbb67ae85, 0x3c6ef372, 0xa54ff53a,
                  0x510e527f, 0x9b05688c, 0x1f83d9ab, 0x5be0cd19);
    s := Advance(h, w, 0, s, 0x428a2f98, 0x61626380, 0x5d6aebcd, 0xfa2a4622);
    s := Advance(h, w, 1, s, 0x71374491, 0x00000000, 0x5a6ad9ad, 0x78ce7989);
    s := Advance(h, w, 2, s, 0xb5c0fbcf, 0x00000000, 0xc8c347a7, 0xf92939eb);
    s := Advance(h, w, 3, s, 0xe9b5dba5, 0x00000000, 0xd550f666, 0x24e00850);
    s := Advance(h, w, 4, s, 0x3956c25b, 0x00000000, 0x04409a6a, 0x43ada245);
    s := Advance(h, w, 5, s, 0x59f111f1, 0x00000000, 0x2b4209f5, 0x714260ad);
    s := Advance(h, w, 6, s, 0x923f82a4, 0x00000000, 0xe5030380, 0x9b27a401);
    s := Advance(h, w, 7, s, 0xab1c5ed5, 0x00000000, 0x85a07b5f, 0x0c657a79);
  }

  lemma Rounds8(h: Regs, w: seq<bv32>)
    requires |w| == 64
    requires w[8] == 0x00000000 && w[9] == 0x00000000 && w[10] == 0x00000000 && w[11] == 0x00000000
    requires w[12] == 0x00000000 && w[13] == 0x00000000 && w[14] == 0x00000000 && w[15] == 0x00000018
    requires Rounds(h, w, 8)
             == Regs(0x85a07b5f, 0xe5030380, 0x2b4209f5, 0x04409a6a,
                     0x0c657a79, 0x9b27a401, 0x714260ad, 0x43ada245)
    ensures Rounds(h, w, 16)
            == Regs(0xb0fa238e, 0xc0645fde, 0xd932eb16, 0x87912990,
                    0x07590dcd, 0x0b92f20c, 0x745a48de, 0x1e578218)
  {
    hide Rounds;
    Constants0();
    var s := Regs(0x85a07b5f, 0xe5030380, 0x2b4209f5, 0x04409a6a,
                  0x0c657a79, 0x9b27a401, 0x714260ad, 0x43ada245);
    s := Advance(h, w, 8, s, 0xd807aa98, 0x00000000, 0x8e04ecb9, 0x32ca2d8c);
    s := Advance(h, w, 9, s, 0x12835b01, 0x00000000, 0x8c87346b, 0x1cc92596);
    s := Advance(h, w, 10, s, 0x243185be, 0x00000000, 0x4798a3f4, 0x436b23e8);
    s := Advance(h, w, 11, s, 0x550c7dc3, 0x00000000, 0xf71fc5a9, 0x816fd6e9);
    s := Advance(h, w, 12, s, 0x72be5d74, 0x00000000, 0x87912990, 0x1e578218);
    s := Advance(h, w, 13, s, 0x80deb1fe, 0x00000000, 0xd932eb16, 0x745a48de);
    s := Advance(h, w, 14, s, 0x9bdc06a7, 0x00000000, 0xc0645fde, 0x0b92f20c);
    s := Advance(h, w, 15, s, 0xc19bf174, 0x00000018, 0xb0fa238e, 0x07590dcd);
  }

  lemma Rounds16(h: Regs, w: seq<bv32>)
    requires |w| == 64
    requires w[16] == 0x61626380 && w[17] == 0x000f0000 && w[18] == 0x7da86405 && w[19] == 0x600003c6
    requires w[20] == 0x3e9d7b78 && w[21] == 0x0183fc00 && w[22] == 0x12dcbfdb && w[23] == 0xe2e2c38e
    requires Rounds(h, w, 16)
             == Regs(0xb0fa238e, 0xc0645fde, 0xd932eb16, 0x87912990,
                     0x07590dcd, 0x0b92f20c, 0x745a48de, 0x1e578218)
    ensures Rounds(h, w, 24)
            == Regs(0xc5d53d8d, 0xa7a3623f, 0xc2606d6d, 0x9dc68b63,
                    0xaa47c347, 0x49f5114a, 0xe1257970, 0x8ada8930)
  {
    hide Rounds;
    Constants16();
    var s := Regs(0xb0fa238e, 0xc0645fde, 0xd932eb16, 0x87912990,
                  0x07590dcd, 0x0b92f20c, 0x745a48de, 0x1e578218);
    s := Advance(h, w, 16, s, 0xe49b69c1, 0x61626380, 0x21da9a9b, 0x8034229c);
    s := Advance(h, w, 17, s, 0xefbe4786, 0x000f0000, 0xc2fbd9d1, 0x846ee454);
    s := Advance(h, w, 18, s, 0x0fc19dc6, 0x7da86405, 0xfe777bbf, 0xcc899961);
    s := Advance(h, w, 19, s, 0x240ca1cc, 0x600003c6, 0xe1f20c33, 0xb0638179);
    s := Advance(h, w, 20, s, 0x2de92c6f, 0x3e9d7b78, 0x9dc68b63, 0x8ada8930);
    s := Advance(h, w, 21, s, 0x4a7484aa, 0x0183fc00, 0xc2606d6d, 0xe1257970);
    s := Advance(h, w, 22, s, 0x5cb0a9dc, 0x12dcbfdb, 0xa7a3623f, 0x49f5114a);
    s := Advance(h, w, 23, s, 0x76f988da, 0xe2e2c38e, 0xc5d53d8d, 0xaa47c347);
  }

  lemma Rounds24(h: Regs, w: seq<bv32>)
    requires |w| == 64
    requires w[24] == 0xc8215c1a && w[25] == 0xb73679a2 && w[26] == 0xe5bc3909 && w[27] == 0x32663c5b
    requires w[28] == 0x9d209d67 && w[29] == 0xec8726cb && w[30] == 0x702138a4 && w[31] == 0xd3b7973b
    requires Rounds(h, w, 24)
             == Regs(0xc5d53d8d, 0xa7a3623f, 0xc2606d6d, 0x9dc68b63,
                     0xaa47c347, 0x49f5114a, 0xe1257970, 0x8ada8930)
    ensures Rounds(h, w, 32)
            == Regs(0x73b33bf5, 0xea992a22, 0xa0060b30, 0x363482c9,
                    0xba591112, 0x0109ab3a, 0xade79437, 0x6112a3b7)
  {
    hide Rounds;
    Constants16();
    var s := Regs(0xc5d53d8d, 0xa7a3623f, 0xc2606d6d, 0x9dc68b63,
                  0xaa47c347, 0x49f5114a, 0xe1257970, 0x8ada8930);
    s := Advance(h, w, 24, s, 0x983e5152, 0xc8215c1a, 0x1c2c2838, 0x2823ef91);
    s := Advance(h, w, 25, s, 0xa831c66d, 0xb73679a2, 0xcde8037d, 0x14383d8e);
    s := Advance(h, w, 26, s, 0xb00327c8, 0xe5bc3909, 0xb62ec4bc, 0xc74c6516);
    s := Advance(h, w, 27, s, 0xbf597fc7, 0x32663c5b, 0x77d37528, 0xedffbff8);
    s := Advance(h, w, 28, s, 0xc6e00bf3, 0x9d209d67, 0x363482c9, 0x6112a3b7);
    s := Advance(h, w, 29, s, 0xd5a79147, 0xec8726cb, 0xa0060b30, 0xade79437);
    s := Advance(h, w, 30, s, 0x06ca6351, 0x702138a4, 0xea992a22, 0x0109ab3a);
    s := Advance(h, w, 31, s, 0x14292967, 0xd3b7973b, 0x73b33bf5, 0xba591112);
  }

  lemma Rounds32(h: Regs, w: seq<bv32>)
    requires |w| == 64
    requires w[32] == 0x93f5997f && w[33] == 0x3b68ba73 && w[34] == 0xaff4ffc1 && w[35] == 0xf10a5c62
    requires w[36] == 0x0a8b3996 && w[37] == 0x72af830a && w[38] == 0x9409e33e && w[39] == 0x24641522
    requires Rounds(h, w, 32)
             == Regs(0x73b33bf5, 0xea992a22, 0xa0060b30, 0x363482c9,
                     0xba591112, 0x0109ab3a, 0xade79437, 0x6112a3b7)
    ensures Rounds(h, w, 40)
            == Regs(0x79ea687a, 0x6dc57a8a, 0x34df1604, 0x41a65cb1,
                    0x1efbc0a0, 0xf0781bc8, 0xa507a53d, 0x0772a26b)
  {
    hide Rounds;
    Constants32();
    var s := Regs(0x73b33bf5, 0xea992a22, 0xa0060b30, 0x363482c9,
                  0xba591112, 0x0109ab3a, 0xade79437, 0x6112a3b7);
    s := Advance(h, w, 32, s, 0x27b70a85, 0x93f5997f, 0x98e12507, 0x9cd9f5f6);
    s := Advance(h, w, 33, s, 0x2e1b2138, 0x3b68ba73, 0xfe604df5, 0x59249dd3);
    s := Advance(h, w, 34, s, 0x4d2c6dfc, 0xaff4ffc1, 0xa9a7738c, 0x085f3833);
    s := Advance(h, w, 35, s, 0x53380d13, 0xf10a5c62, 0x65a0cfe4, 0xf4b002d6);
    s := Advance(h, w, 36, s, 0x650a7354, 0x0a8b3996, 0x41a65cb1, 0x0772a26b);
    s := Advance(h, w, 37, s, 0x766a0abb, 0x72af830a, 0x34df1604, 0xa507a53d);
    s := Advance(h, w, 38, s, 0x81c2c92e, 0x9409e33e, 0x6dc57a8a, 0xf0781bc8);
    s := Advance(h, w, 39, s, 0x92722c85, 0x24641522, 0x79ea687a, 0x1efbc0a0);
  }

  lemma Rounds40(h: Regs, w: seq<bv32>)
    requires |w| == 64
    requires w[40] == 0x9f47bf94 && w[41] == 0xf0a64f5a && w[42] == 0x3e246a79 && w[43] == 0x27333ba3
    requires w[44] == 0x0c4763f2 && w[45] == 0x840abf27 && w[46] == 0x7a290d5d && w[47] == 0x065c43da
    requires Rounds(h, w, 40)
             == Regs(0x79ea687a, 0x6dc57a8a, 0x34df1604, 0x41a65cb1,
                     0x1efbc0a0, 0xf0781bc8, 0xa507a53d, 0x0772a26b)
    ensures Rounds(h, w, 48)
            == Regs(0x4172328d, 0xa14c14b0, 0x72ab4b91, 0x26628815,
                    0xfecf0bc6, 0xd57b94a9, 0xb7755da1, 0xa80f11f0)
  {
    hide Rounds;
    Constants32();
    var s := Regs(0x79ea687a, 0x6dc57a8a, 0x34df1604, 0x41a65cb1,
                  0x1efbc0a0, 0xf0781bc8, 0xa507a53d, 0x0772a26b);
    s := Advance(h, w, 40, s, 0xa2bfe8a1, 0x9f47bf94, 0xd6670766, 0x26352d63);
    s := Advance(h, w, 41, s, 0xa81a664b, 0xf0a64f5a, 0xdf46652f, 0x838b2711);
    s := Advance(h, w, 42, s, 0xc24b8b70, 0x3e246a79, 0x17aa0dfe, 0xdecd4715);
    s := Advance(h, w, 43, s, 0xc76c51a3, 0x27333ba3, 0x9d4baf93, 0xfda24c2e);
    s := Advance(h, w, 44, s, 0xd192e819, 0x0c4763f2, 0x26628815, 0xa80f11f0);
    s := Advance(h, w, 45, s, 0xd6990624, 0x840abf27, 0x72ab4b91, 0xb7755da1);
    s := Advance(h, w, 46, s, 0xf40e3585, 0x7a290d5d, 0xa14c14b0, 0xd57b94a9);
    s := Advance(h, w, 47, s, 0x106aa070, 0x065c43da, 0x4172328d, 0xfecf0bc6);
  }

  lemma Rounds48(h: Regs, w: seq<bv32>)
    requires |w| == 64
    requires w[48] == 0xfb3e89cb && w[49] == 0xcc7617db && w[50] == 0xb9e66c34 && w[51] == 0xa9993667
    requires w[52] == 0x84badedd && w[53] == 0xc21462bc && w[54] == 0x1487472c && w[55] == 0xb20f7a99
    requires Rounds(h, w, 48)
             == Regs(0x4172328d, 0xa14c14b0, 0x72ab4b91, 0x26628815,
                     0xfecf0bc6, 0xd57b94a9, 0xb7755da1, 0xa80f11f0)
    ensures Rounds(h, w, 56)
            == Regs(0x38cc9913, 0x3ec45cdb, 0xf5702fdb, 0x101fd28f,
                    0x54cb266b, 0xe50e1b4f, 0x9f4787c3, 0x529e7d00)
  {
    hide Rounds;
    Constants48();
    var s := Regs(0x4172328d, 0xa14c14b0, 0x72ab4b91, 0x26628815,
                  0xfecf0bc6, 0xd57b94a9, 0xb7755da1, 0xa80f11f0);
    s := Advance(h, w, 48, s, 0x19a4c116, 0xfb3e89cb, 0x05757ceb, 0xbd714038);
    s := Advance(h, w, 49, s, 0x1e376c08, 0xcc7617db, 0xf11bfaa8, 0x6e5c390c);
    s := Advance(h, w, 50, s, 0x2748774c, 0xb9e66c34, 0x7a0508a1, 0x52f1ccf7);
    s := Advance(h, w, 51, s, 0x34b0bcb5, 0xa9993667, 0x886e7a22, 0x49231c1e);
    s := Advance(h, w, 52, s, 0x391c0cb3, 0x84badedd, 0x101fd28f, 0x529e7d00);
    s := Advance(h, w, 53, s, 0x4ed8aa4a, 0xc21462bc, 0xf5702fdb, 0x9f4787c3);
    s := Advance(h, w, 54, s, 0x5b9cca4f, 0x1487472c, 0x3ec45cdb, 0xe50e1b4f);
    s := Advance(h, w, 55, s, 0x682e6ff3, 0xb20f7a99, 0x38cc9913, 0x54cb266b);
  }

  lemma Rounds56(h: Regs, w: seq<bv32>)
    requires |w| == 64
    requires w[56] == 0xef57b9cd && w[57] == 0xebe6b238 && w[58] == 0x9fe3095e && w[59] == 0x78bc8d4b
    requires w[60] == 0xa43fcf15 && w[61] == 0x668b2ff8 && w[62] == 0xeeaba2cc && w[63] == 0x12b1edeb
    requires Rounds(h, w, 56)
             == Regs(0x38cc9913, 0x3ec45cdb, 0xf5702fdb, 0x101fd28f,
                     0x54cb266b, 0xe50e1b4f, 0x9f4787c3, 0x529e7d00)
    ensures Rounds(h, w, 64)
            == Regs(0x506e3058, 0xd39a2165, 0x04d24d6c, 0xb85e2ce9,
                    0x5ef50f24, 0xfb121210, 0x948d25b6, 0x961f4894)
  {
    hide Rounds;
    Constants48();
    var s := Regs(0x38cc9913, 0x3ec45cdb, 0xf5702fdb, 0x101fd28f,
                  0x54cb266b, 0xe50e1b4f, 0x9f4787c3, 0x529e7d00);
    s := Advance(h, w, 56, s, 0x748f82ee, 0xef57b9cd, 0xfcd1887b, 0x9b5e906c);
    s := Advance(h, w, 57, s, 0x78a5636f, 0xebe6b238, 0xc062d46f, 0x7e44008e);
    s := Advance(h, w, 58, s, 0x84c87814, 0x9fe3095e, 0xffb70472, 0x6d83bfc6);
    s := Advance(h, w, 59, s, 0x8cc70208, 0x78bc8d4b, 0xb6ae8fff, 0xb21bad3d);
    s := Advance(h, w, 60, s, 0x90befffa, 0xa43fcf15, 0xb85e2ce9, 0x961f4894);
    s := Advance(h, w, 61, s, 0xa4506ceb, 0x668b2ff8, 0x04d24d6c, 0x948d25b6);
    s := Advance(h, w, 62, s, 0xbef9a3f7, 0xeeaba2cc, 0xd39a2165, 0xfb121210);
    s := Advance(h, w, 63, s, 0xc67178f2, 0x12b1edeb, 0x506e3058, 0x5ef50f24);
  }

  lemma AbcRounds(p: seq<bv8>)
    requires p == Pad(ABC) && |p| == 64
    ensures Rounds(RegsOf(H0), Schedule(p, 64), 64)
            == Regs(0x506e3058, 0xd39a2165, 0x04d24d6c, 0xb85e2ce9,
                    0x5ef50f24, 0xfb121210, 0x948d25b6, 0x961f4894)
  {
    hide Rounds, Schedule, Pad;
    var r, w := RegsOf(H0), Schedule(p, 64);
    RoundsStart(r, w);
    FirstWords(p, w);
    Words16(p, w);
    Words32(p, w);
    Words48(p, w);
    Rounds0(r, w);
    Rounds8(r, w);
    Rounds16(r, w);
    Rounds24(r, w);
    Rounds32(r, w);
    Rounds40(r, w);
    Rounds48(r, w);
    Rounds56(r, w);
  }

  lemma AbcHash(p: seq<bv8>)
    requires p == Pad(ABC)
    ensures HashBlocks(p)
            == [0xba7816bf, 0x8f01cfea, 0x414140de, 0x5dae2223,
                0xb00361a3, 0x96177a9c, 0xb410ff61, 0xf20015ad]
  {
    hide Rounds, Schedule, Pad;
    PadAbc(0);
    assert p[..|p| - 64] == [] && p[|p| - 64..] == p;
    assert HashBlocks([]) == H0;
    AbcRounds(p);
    CompressEnds(H0, p);
  }

  /** The digest of "abc". */
  lemma DigestOfAbc()
    ensures Digest(ABC)
            == [0xba, 0x78, 0x16, 0xbf, 0x8f, 0x01, 0xcf, 0xea, 0x41, 0x41, 0x40, 0xde, 0x5d, 0xae, 0x22, 0x23,
                0xb0, 0x03, 0x61, 0xa3, 0x96, 0x17, 0x7a, 0x9c, 0xb4, 0x10, 0xff, 0x61, 0xf2, 0x00, 0x15, 0xad]
  {
    hide HashBlocks, Pad, WordBytes;
    AbcHash(Pad(ABC));
    var h := HashBlocks(Pad(ABC));
    assert Digest(ABC) == DigestBytes(h);
    DigestOfWords(h);
    WordsOfAbc();
  }

  lemma DigestOfWords(h: seq<bv32>)
    requires |h| == 8
    ensures DigestBytes(h) == WordBytes(h[0]) + WordBytes(h[1]) + WordBytes(h[2]) + WordBytes(h[3])
                              + WordBytes(h[4]) + WordBytes(h[5]) + WordBytes(h[6]) + WordBytes(h[7])
  {
    hide WordBytes;
    hide DigestBytes;
    DigestStep(h, 0);
    DigestStep(h, 1);
    assert [] + WordBytes(h[0]) == WordBytes(h[0]);
    DigestStep(h, 2);
    var d2 := WordBytes(h[0]) + WordBytes(h[1]);
    assert DigestBytes(h[..2]) == d2;
    DigestStep(h, 3);
    var d3 := d2 + WordBytes(h[2]);
    assert DigestBytes(h[..3]) == d3;
    DigestStep(h, 4);
    var d4 := d3 + WordBytes(h[3]);
    assert DigestBytes(h[..4]) == d4;
    DigestStep(h, 5);
    var d5 := d4 + WordBytes(h[4]);
    assert DigestBytes(h[..5]) == d5;
    DigestStep(h, 6);
    var d6 := d5 + WordBytes(h[5]);
    assert DigestBytes(h[..6]) == d6;
    DigestStep(h, 7);
    var d7 := d6 + WordBytes(h[6]);
    assert DigestBytes(h[..7]) == d7;
    DigestStep(h, 8);
    var d8 := d7 + WordBytes(h[7]);
    assert DigestBytes(h[..8]) == d8;
    assert h[..8] == h;
  }

  lemma DigestStep(h: seq<bv32>, n: nat)
    requires n <= |h|
    ensures DigestBytes(h[..n]) == if n == 0 then [] else DigestBytes(h[..n - 1]) + WordBytes(h[n - 1])
  {
    hide WordBytes;
    assert n > 0 ==> h[..n][..n - 1] == h[..n - 1];
  }

  lemma WordsOfAbc()
    ensures WordBytes(0xba7816bf) == [0xba, 0x78, 0x16, 0xbf]
    ensures WordBytes(0x8f01cfea) == [0x8f, 0x01, 0xcf, 0xea]
    ensures WordBytes(0x414140de) == [0x41, 0x41, 0x40, 0xde]
    ensures WordBytes(0x5dae2223) == [0x5d, 0xae, 0x22, 0x23]
    ensures WordBytes(0xb00361a3) == [0xb0, 0x03, 0x61, 0xa3]
    ensures WordBytes(0x96177a9c) == [0x96, 0x17, 0x7a, 0x9c]
    ensures WordBytes(0xb410ff61) == [0xb4, 0x10, 0xff, 0x61]
    ensures WordBytes(0xf20015ad) == [0xf2, 0x00, 0x15, 0xad]
  {
  }
}
