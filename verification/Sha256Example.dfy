/** A known answer: the three bytes "abc", worked through the definition to the published digest. */
module Sha256Example {
  import opened Words
  import opened Sha256

  const ABC: Bytes := [0x61, 0x62, 0x63]

  // ---- one word, one round ----

  lemma {:induction false} ScheduleStarts(block: Bytes, n: nat, m: nat)
    requires |block| == 64 && n <= m
    ensures Schedule(block, m)[..n] == Schedule(block, n)
    decreases m
  {
    if n < m {
      ScheduleStarts(block, n, m - 1);
    }
  }

  /** W_t from the words before it, in the whole schedule. */
  lemma WordAt(block: Bytes, t: nat)
    requires |block| == 64 && t < 64
    ensures Schedule(block, 64)[t] == NextWord(block, Schedule(block, 64)[..t])
  {
    hide NextWord;
    ScheduleStarts(block, t, 64);
    ScheduleStarts(block, t + 1, 64);
    assert Schedule(block, 64)[t] == Schedule(block, 64)[..t + 1][t];
  }

  ghost predicate IsSchedule(block: Bytes, w: seq<bv32>)
    requires |block| == 64
  {
    w == Schedule(block, 64)
  }

  lemma Early(block: Bytes, w: seq<bv32>, t: nat)
    requires |block| == 64 && t < 16 && IsSchedule(block, w)
    ensures |w| == 64 && w[t] == Word(block[4 * t], block[4 * t + 1], block[4 * t + 2], block[4 * t + 3])
  {
    hide Word, Mix;
    WordAt(block, t);
  }

  lemma Late(block: Bytes, w: seq<bv32>, t: nat)
    requires |block| == 64 && 16 <= t < 64 && IsSchedule(block, w)
    ensures |w| == 64 && w[t] == Mix(w[t - 2], w[t - 7], w[t - 15], w[t - 16])
  {
    hide Word, Mix;
    WordAt(block, t);
  }

  lemma EightWords(block: Bytes, w: seq<bv32>, t: nat)
    requires |block| == 64 && 16 <= t <= 56 && IsSchedule(block, w)
    ensures |w| == 64
    ensures w[t] == Mix(w[t - 2], w[t - 7], w[t - 15], w[t - 16])
    ensures w[t + 1] == Mix(w[t - 1], w[t - 6], w[t - 14], w[t - 15])
    ensures w[t + 2] == Mix(w[t], w[t - 5], w[t - 13], w[t - 14])
    ensures w[t + 3] == Mix(w[t + 1], w[t - 4], w[t - 12], w[t - 13])
    ensures w[t + 4] == Mix(w[t + 2], w[t - 3], w[t - 11], w[t - 12])
    ensures w[t + 5] == Mix(w[t + 3], w[t - 2], w[t - 10], w[t - 11])
    ensures w[t + 6] == Mix(w[t + 4], w[t - 1], w[t - 9], w[t - 10])
    ensures w[t + 7] == Mix(w[t + 5], w[t], w[t - 8], w[t - 9])
  {
    hide Mix;
    Late(block, w, t);
    Late(block, w, t + 1);
    Late(block, w, t + 2);
    Late(block, w, t + 3);
    Late(block, w, t + 4);
    Late(block, w, t + 5);
    Late(block, w, t + 6);
    Late(block, w, t + 7);
  }

  lemma RoundAt(k: seq<bv32>, w: seq<bv32>, t: nat)
    requires |k| == |w| == 64 && t < 64
    ensures Rounds(H0, k, w, t + 1) == Round(Rounds(H0, k, w, t), k[t], w[t])
  {
  }

  // ---- the words and the rounds, eight at a time ----

  predicate Words0(w: seq<bv32>) {
    && |w| == 64
    && w[0] == 0x61626380 && w[1] == 0x00000000 && w[2] == 0x00000000 && w[3] == 0x00000000
    && w[4] == 0x00000000 && w[5] == 0x00000000 && w[6] == 0x00000000 && w[7] == 0x00000000
  }

  predicate Words1(w: seq<bv32>) {
    && |w| == 64
    && w[8] == 0x00000000 && w[9] == 0x00000000 && w[10] == 0x00000000 && w[11] == 0x00000000
    && w[12] == 0x00000000 && w[13] == 0x00000000 && w[14] == 0x00000000 && w[15] == 0x00000018
  }

  predicate Words2(w: seq<bv32>) {
    && |w| == 64
    && w[16] == 0x61626380 && w[17] == 0x000f0000 && w[18] == 0x7da86405 && w[19] == 0x600003c6
    && w[20] == 0x3e9d7b78 && w[21] == 0x0183fc00 && w[22] == 0x12dcbfdb && w[23] == 0xe2e2c38e
  }

  predicate Words3(w: seq<bv32>) {
    && |w| == 64
    && w[24] == 0xc8215c1a && w[25] == 0xb73679a2 && w[26] == 0xe5bc3909 && w[27] == 0x32663c5b
    && w[28] == 0x9d209d67 && w[29] == 0xec8726cb && w[30] == 0x702138a4 && w[31] == 0xd3b7973b
  }

  predicate Words4(w: seq<bv32>) {
    && |w| == 64
    && w[32] == 0x93f5997f && w[33] == 0x3b68ba73 && w[34] == 0xaff4ffc1 && w[35] == 0xf10a5c62
    && w[36] == 0x0a8b3996 && w[37] == 0x72af830a && w[38] == 0x9409e33e && w[39] == 0x24641522
  }

  predicate Words5(w: seq<bv32>) {
    && |w| == 64
    && w[40] == 0x9f47bf94 && w[41] == 0xf0a64f5a && w[42] == 0x3e246a79 && w[43] == 0x27333ba3
    && w[44] == 0x0c4763f2 && w[45] == 0x840abf27 && w[46] == 0x7a290d5d && w[47] == 0x065c43da
  }

  predicate Words6(w: seq<bv32>) {
    && |w| == 64
    && w[48] == 0xfb3e89cb && w[49] == 0xcc7617db && w[50] == 0xb9e66c34 && w[51] == 0xa9993667
    && w[52] == 0x84badedd && w[53] == 0xc21462bc && w[54] == 0x1487472c && w[55] == 0xb20f7a99
  }

  predicate Words7(w: seq<bv32>) {
    && |w| == 64
    && w[56] == 0xef57b9cd && w[57] == 0xebe6b238 && w[58] == 0x9fe3095e && w[59] == 0x78bc8d4b
    && w[60] == 0xa43fcf15 && w[61] == 0x668b2ff8 && w[62] == 0xeeaba2cc && w[63] == 0x12b1edeb
  }

  lemma FirstWords(block: Bytes, w: seq<bv32>)
    requires |block| == 64 && block[..4] == [0x61, 0x62, 0x63, 0x80] && block[4..63] == Zeros(59) && block[63] == 24
    requires IsSchedule(block, w)
    ensures Words0(w) && Words1(w)
  {
    hide IsSchedule, Word;
    WordValues();
    Early(block, w, 0);
    assert block[0] == block[..4][0] && block[1] == block[..4][1];
    assert block[2] == block[..4][2] && block[3] == block[..4][3];
    forall t | 0 <= t < 16
      ensures |w| == 64 && w[t] == if t == 0 then 0x61626380 else if t == 15 then 24 else 0
    {
      Early(block, w, t);
      if 0 < t {
        assert block[4 * t] == block[4..63][4 * t - 4] && block[4 * t + 1] == block[4..63][4 * t - 3];
        assert block[4 * t + 2] == block[4..63][4 * t - 2];
        assert t < 15 ==> block[4 * t + 3] == block[4..63][4 * t - 1];
      }
    }
  }

  lemma WordValues()
    ensures Word(0x61, 0x62, 0x63, 0x80) == 0x61626380 && Word(0, 0, 0, 0) == 0 && Word(0, 0, 0, 24) == 24
  {
  }

  lemma LaterWords2(block: Bytes, w: seq<bv32>)
    requires |block| == 64 && IsSchedule(block, w) && Words0(w) && Words1(w)
    ensures Words2(w)
  {
    hide IsSchedule;
    EightWords(block, w, 16);
  }

  lemma LaterWords3(block: Bytes, w: seq<bv32>)
    requires |block| == 64 && IsSchedule(block, w) && Words1(w) && Words2(w)
    ensures Words3(w)
  {
    hide IsSchedule;
    EightWords(block, w, 24);
  }

  lemma LaterWords4(block: Bytes, w: seq<bv32>)
    requires |block| == 64 && IsSchedule(block, w) && Words2(w) && Words3(w)
    ensures Words4(w)
  {
    hide IsSchedule;
    EightWords(block, w, 32);
  }

  lemma LaterWords5(block: Bytes, w: seq<bv32>)
    requires |block| == 64 && IsSchedule(block, w) && Words3(w) && Words4(w)
    ensures Words5(w)
  {
    hide IsSchedule;
    EightWords(block, w, 40);
  }

  lemma LaterWords6(block: Bytes, w: seq<bv32>)
    requires |block| == 64 && IsSchedule(block, w) && Words4(w) && Words5(w)
    ensures Words6(w)
  {
    hide IsSchedule;
    EightWords(block, w, 48);
  }

  lemma LaterWords7(block: Bytes, w: seq<bv32>)
    requires |block| == 64 && IsSchedule(block, w) && Words5(w) && Words6(w)
    ensures Words7(w)
  {
    hide IsSchedule;
    EightWords(block, w, 56);
  }

  predicate Constants0(k: seq<bv32>) {
    && |k| == 64
    && k[0] == 0x428a2f98 && k[1] == 0x71374491 && k[2] == 0xb5c0fbcf && k[3] == 0xe9b5dba5
    && k[4] == 0x3956c25b && k[5] == 0x59f111f1 && k[6] == 0x923f82a4 && k[7] == 0xab1c5ed5
  }

  lemma ConstantsAre0()
    ensures Constants0(K)
  {
  }

  predicate Constants1(k: seq<bv32>) {
    && |k| == 64
    && k[8] == 0xd807aa98 && k[9] == 0x12835b01 && k[10] == 0x243185be && k[11] == 0x550c7dc3
    && k[12] == 0x72be5d74 && k[13] == 0x80deb1fe && k[14] == 0x9bdc06a7 && k[15] == 0xc19bf174
  }

  lemma ConstantsAre1()
    ensures Constants1(K)
  {
  }

  predicate Constants2(k: seq<bv32>) {
    && |k| == 64
    && k[16] == 0xe49b69c1 && k[17] == 0xefbe4786 && k[18] == 0x0fc19dc6 && k[19] == 0x240ca1cc
    && k[20] == 0x2de92c6f && k[21] == 0x4a7484aa && k[22] == 0x5cb0a9dc && k[23] == 0x76f988da
  }

  lemma ConstantsAre2()
    ensures Constants2(K)
  {
  }

  predicate Constants3(k: seq<bv32>) {
    && |k| == 64
    && k[24] == 0x983e5152 && k[25] == 0xa831c66d && k[26] == 0xb00327c8 && k[27] == 0xbf597fc7
    && k[28] == 0xc6e00bf3 && k[29] == 0xd5a79147 && k[30] == 0x06ca6351 && k[31] == 0x14292967
  }

  lemma ConstantsAre3()
    ensures Constants3(K)
  {
  }

  predicate Constants4(k: seq<bv32>) {
    && |k| == 64
    && k[32] == 0x27b70a85 && k[33] == 0x2e1b2138 && k[34] == 0x4d2c6dfc && k[35] == 0x53380d13
    && k[36] == 0x650a7354 && k[37] == 0x766a0abb && k[38] == 0x81c2c92e && k[39] == 0x92722c85
  }

  lemma ConstantsAre4()
    ensures Constants4(K)
  {
  }

  predicate Constants5(k: seq<bv32>) {
    && |k| == 64
    && k[40] == 0xa2bfe8a1 && k[41] == 0xa81a664b && k[42] == 0xc24b8b70 && k[43] == 0xc76c51a3
    && k[44] == 0xd192e819 && k[45] == 0xd6990624 && k[46] == 0xf40e3585 && k[47] == 0x106aa070
  }

  lemma ConstantsAre5()
    ensures Constants5(K)
  {
  }

  predicate Constants6(k: seq<bv32>) {
    && |k| == 64
    && k[48] == 0x19a4c116 && k[49] == 0x1e376c08 && k[50] == 0x2748774c && k[51] == 0x34b0bcb5
    && k[52] == 0x391c0cb3 && k[53] == 0x4ed8aa4a && k[54] == 0x5b9cca4f && k[55] == 0x682e6ff3
  }

  lemma ConstantsAre6()
    ensures Constants6(K)
  {
  }

  predicate Constants7(k: seq<bv32>) {
    && |k| == 64
    && k[56] == 0x748f82ee && k[57] == 0x78a5636f && k[58] == 0x84c87814 && k[59] == 0x8cc70208
    && k[60] == 0x90befffa && k[61] == 0xa4506ceb && k[62] == 0xbef9a3f7 && k[63] == 0xc67178f2
  }

  lemma ConstantsAre7()
    ensures Constants7(K)
  {
  }

  lemma Rounds0(k: seq<bv32>, w: seq<bv32>)
    requires Constants0(k) && Words0(w)
    requires Rounds(H0, k, w, 0) ==
             Vars(0x6a09e667, 0xbb67ae85, 0x3c6ef372, 0xa54ff53a, 0x510e527f, 0x9b05688c, 0x1f83d9ab, 0x5be0cd19)
    ensures Rounds(H0, k, w, 8) ==
            Vars(0x85a07b5f, 0xe5030380, 0x2b4209f5, 0x04409a6a, 0x0c657a79, 0x9b27a401, 0x714260ad, 0x43ada245)
  {
    hide Rounds;
    RoundAt(k, w, 0);
    RoundAt(k, w, 1);
    RoundAt(k, w, 2);
    RoundAt(k, w, 3);
    RoundAt(k, w, 4);
    RoundAt(k, w, 5);
    RoundAt(k, w, 6);
    RoundAt(k, w, 7);
  }

  lemma Rounds1(k: seq<bv32>, w: seq<bv32>)
    requires Constants1(k) && Words1(w)
    requires Rounds(H0, k, w, 8) ==
             Vars(0x85a07b5f, 0xe5030380, 0x2b4209f5, 0x04409a6a, 0x0c657a79, 0x9b27a401, 0x714260ad, 0x43ada245)
    ensures Rounds(H0, k, w, 16) ==
            Vars(0xb0fa238e, 0xc0645fde, 0xd932eb16, 0x87912990, 0x07590dcd, 0x0b92f20c, 0x745a48de, 0x1e578218)
  {
    hide Rounds;
    RoundAt(k, w, 8);
    RoundAt(k, w, 9);
    RoundAt(k, w, 10);
    RoundAt(k, w, 11);
    RoundAt(k, w, 12);
    RoundAt(k, w, 13);
    RoundAt(k, w, 14);
    RoundAt(k, w, 15);
  }

  lemma Rounds2(k: seq<bv32>, w: seq<bv32>)
    requires Constants2(k) && Words2(w)
    requires Rounds(H0, k, w, 16) ==
             Vars(0xb0fa238e, 0xc0645fde, 0xd932eb16, 0x87912990, 0x07590dcd, 0x0b92f20c, 0x745a48de, 0x1e578218)
    ensures Rounds(H0, k, w, 24) ==
            Vars(0xc5d53d8d, 0xa7a3623f, 0xc2606d6d, 0x9dc68b63, 0xaa47c347, 0x49f5114a, 0xe1257970, 0x8ada8930)
  {
    hide Rounds;
    RoundAt(k, w, 16);
    RoundAt(k, w, 17);
    RoundAt(k, w, 18);
    RoundAt(k, w, 19);
    RoundAt(k, w, 20);
    RoundAt(k, w, 21);
    RoundAt(k, w, 22);
    RoundAt(k, w, 23);
  }

  lemma Rounds3(k: seq<bv32>, w: seq<bv32>)
    requires Constants3(k) && Words3(w)
    requires Rounds(H0, k, w, 24) ==
             Vars(0xc5d53d8d, 0xa7a3623f, 0xc2606d6d, 0x9dc68b63, 0xaa47c347, 0x49f5114a, 0xe1257970, 0x8ada8930)
    ensures Rounds(H0, k, w, 32) ==
            Vars(0x73b33bf5, 0xea992a22, 0xa0060b30, 0x363482c9, 0xba591112, 0x0109ab3a, 0xade79437, 0x6112a3b7)
  {
    hide Rounds;
    RoundAt(k, w, 24);
    RoundAt(k, w, 25);
    RoundAt(k, w, 26);
    RoundAt(k, w, 27);
    RoundAt(k, w, 28);
    RoundAt(k, w, 29);
    RoundAt(k, w, 30);
    RoundAt(k, w, 31);
  }

  lemma Rounds4(k: seq<bv32>, w: seq<bv32>)
    requires Constants4(k) && Words4(w)
    requires Rounds(H0, k, w, 32) ==
             Vars(0x73b33bf5, 0xea992a22, 0xa0060b30, 0x363482c9, 0xba591112, 0x0109ab3a, 0xade79437, 0x6112a3b7)
    ensures Rounds(H0, k, w, 40) ==
            Vars(0x79ea687a, 0x6dc57a8a, 0x34df1604, 0x41a65cb1, 0x1efbc0a0, 0xf0781bc8, 0xa507a53d, 0x0772a26b)
  {
    hide Rounds;
    RoundAt(k, w, 32);
    RoundAt(k, w, 33);
    RoundAt(k, w, 34);
    RoundAt(k, w, 35);
    RoundAt(k, w, 36);
    RoundAt(k, w, 37);
    RoundAt(k, w, 38);
    RoundAt(k, w, 39);
  }

  lemma Rounds5(k: seq<bv32>, w: seq<bv32>)
    requires Constants5(k) && Words5(w)
    requires Rounds(H0, k, w, 40) ==
             Vars(0x79ea687a, 0x6dc57a8a, 0x34df1604, 0x41a65cb1, 0x1efbc0a0, 0xf0781bc8, 0xa507a53d, 0x0772a26b)
    ensures Rounds(H0, k, w, 48) ==
            Vars(0x4172328d, 0xa14c14b0, 0x72ab4b91, 0x26628815, 0xfecf0bc6, 0xd57b94a9, 0xb7755da1, 0xa80f11f0)
  {
    hide Rounds;
    RoundAt(k, w, 40);
    RoundAt(k, w, 41);
    RoundAt(k, w, 42);
    RoundAt(k, w, 43);
    RoundAt(k, w, 44);
    RoundAt(k, w, 45);
    RoundAt(k, w, 46);
    RoundAt(k, w, 47);
  }

  lemma Rounds6(k: seq<bv32>, w: seq<bv32>)
    requires Constants6(k) && Words6(w)
    requires Rounds(H0, k, w, 48) ==
             Vars(0x4172328d, 0xa14c14b0, 0x72ab4b91, 0x26628815, 0xfecf0bc6, 0xd57b94a9, 0xb7755da1, 0xa80f11f0)
    ensures Rounds(H0, k, w, 56) ==
            Vars(0x38cc9913, 0x3ec45cdb, 0xf5702fdb, 0x101fd28f, 0x54cb266b, 0xe50e1b4f, 0x9f4787c3, 0x529e7d00)
  {
    hide Rounds;
    RoundAt(k, w, 48);
    RoundAt(k, w, 49);
    RoundAt(k, w, 50);
    RoundAt(k, w, 51);
    RoundAt(k, w, 52);
    RoundAt(k, w, 53);
    RoundAt(k, w, 54);
    RoundAt(k, w, 55);
  }

  lemma Rounds7(k: seq<bv32>, w: seq<bv32>)
    requires Constants7(k) && Words7(w)
    requires Rounds(H0, k, w, 56) ==
             Vars(0x38cc9913, 0x3ec45cdb, 0xf5702fdb, 0x101fd28f, 0x54cb266b, 0xe50e1b4f, 0x9f4787c3, 0x529e7d00)
    ensures Rounds(H0, k, w, 64) ==
            Vars(0x506e3058, 0xd39a2165, 0x04d24d6c, 0xb85e2ce9, 0x5ef50f24, 0xfb121210, 0x948d25b6, 0x961f4894)
  {
    hide Rounds;
    RoundAt(k, w, 56);
    RoundAt(k, w, 57);
    RoundAt(k, w, 58);
    RoundAt(k, w, 59);
    RoundAt(k, w, 60);
    RoundAt(k, w, 61);
    RoundAt(k, w, 62);
    RoundAt(k, w, 63);
  }

  // ---- the whole hash ----

  /** The only block: the message, its marker, zeros, and the length in bits. */
  lemma AbcBlock(n: nat)
    requires n == |ABC|
    ensures var block := ABC + Padding(n);
            |block| == 64 && block[..4] == [0x61, 0x62, 0x63, 0x80] && block[4..63] == Zeros(59) && block[63] == 24
  {
    assert BigEndian(24, 8) == Zeros(7) + [24];
  }

  lemma AbcRounds(block: Bytes, w: seq<bv32>)
    requires |block| == 64 && block[..4] == [0x61, 0x62, 0x63, 0x80] && block[4..63] == Zeros(59) && block[63] == 24
    requires IsSchedule(block, w)
    ensures |w| == 64
    ensures Rounds(H0, K, w, 64) ==
            Vars(0x506e3058, 0xd39a2165, 0x04d24d6c, 0xb85e2ce9, 0x5ef50f24, 0xfb121210, 0x948d25b6, 0x961f4894)
  {
    FirstWords(block, w);
    LaterWords2(block, w);
    LaterWords3(block, w);
    LaterWords4(block, w);
    LaterWords5(block, w);
    LaterWords6(block, w);
    LaterWords7(block, w);
    hide IsSchedule, Words0, Words1, Words2, Words3, Words4, Words5, Words6, Words7;
    hide Constants0, Constants1, Constants2, Constants3, Constants4, Constants5, Constants6, Constants7;
    ConstantsAre0();
    Rounds0(K, w);
    ConstantsAre1();
    Rounds1(K, w);
    ConstantsAre2();
    Rounds2(K, w);
    ConstantsAre3();
    Rounds3(K, w);
    ConstantsAre4();
    Rounds4(K, w);
    ConstantsAre5();
    Rounds5(K, w);
    ConstantsAre6();
    Rounds6(K, w);
    ConstantsAre7();
    Rounds7(K, w);
  }

  lemma AbcSum()
    ensures AddVars(H0, Vars(0x506e3058, 0xd39a2165, 0x04d24d6c, 0xb85e2ce9,
                             0x5ef50f24, 0xfb121210, 0x948d25b6, 0x961f4894))
            == Vars(0xba7816bf, 0x8f01cfea, 0x414140de, 0x5dae2223, 0xb00361a3, 0x96177a9c, 0xb410ff61, 0xf20015ad)
  {
  }

  lemma AbcDigest()
    ensures Digest(Vars(0xba7816bf, 0x8f01cfea, 0x414140de, 0x5dae2223,
                        0xb00361a3, 0x96177a9c, 0xb410ff61, 0xf20015ad))
            == [0xba, 0x78, 0x16, 0xbf, 0x8f, 0x01, 0xcf, 0xea, 0x41, 0x41, 0x40, 0xde, 0x5d, 0xae, 0x22, 0x23,
                0xb0, 0x03, 0x61, 0xa3, 0x96, 0x17, 0x7a, 0x9c, 0xb4, 0x10, 0xff, 0x61, 0xf2, 0x00, 0x15, 0xad]
  {
    hide WordBytes;
    AbcBytes();
  }

  lemma AbcBytes()
    ensures WordBytes(0xba7816bf) == [0xba, 0x78, 0x16, 0xbf]
    ensures WordBytes(0x8f01cfea) == [0x8f, 0x01, 0xcf, 0xea]
    ensures WordBytes(0x414140de) == [0x41, 0x41, 0x40, 0xde]
    ensures WordBytes(0x5dae2223) == [0x5d, 0xae, 0x22, 0x23]
    ensures WordBytes(0xb00361a3) == [0xb0, 0x03, 0x61, 0xa3]
    ensures WordBytes(0x96177a9c) == [0x96, 0x17, 0x7a, 0x9c]
    ensures WordBytes(0xb410ff61) == [0xb4, 0x10, 0xff, 0x61]
    ensures WordBytes(0xf20015ad) == [0xf2, 0x00, 0x15, 0xad]
  {
  }

  /** SHA-256 of "abc", as RFC 6234 gives it in section 8.5. */
  lemma HashOfAbc()
    ensures Hash(ABC) ==
            [0xba, 0x78, 0x16, 0xbf, 0x8f, 0x01, 0xcf, 0xea, 0x41, 0x41, 0x40, 0xde, 0x5d, 0xae, 0x22, 0x23,
             0xb0, 0x03, 0x61, 0xa3, 0x96, 0x17, 0x7a, 0x9c, 0xb4, 0x10, 0xff, 0x61, 0xf2, 0x00, 0x15, 0xad]
  {
    hide Compress, Digest, Padding;
    AbcBlock(|ABC|);
    var block := ABC + Padding(|ABC|);
    var w := Schedule(block, 64);
    AbcRounds(block, w);
    OneBlock(H0, K, block);
    AbcSum();
    AbcDigest();
  }

  lemma OneBlock(h: Vars, k: seq<bv32>, block: Bytes)
    requires |k| == |block| == 64
    ensures HashBlocks(h, k, block) == Compress(h, k, block) == AddVars(h, Rounds(h, k, Schedule(block, 64), 64))
  {
    assert block[..64] == block && block[64..] == [];
  }

  /** Blocks are chained: hashing on from where the first part of the data left off. */
  lemma {:induction false} HashesInParts(h: Vars, k: seq<bv32>, a: Bytes, b: Bytes)
    requires |k| == 64 && |a| % 64 == 0
    ensures HashBlocks(h, k, a + b) == HashBlocks(HashBlocks(h, k, a), k, b)
    decreases |a|
  {
    if a == [] {
      assert a + b == b;
    } else {
      assert (a + b)[..64] == a[..64] && (a + b)[64..] == a[64..] + b;
      HashesInParts(Compress(h, k, a[..64]), k, a[64..], b);
    }
  }
}
