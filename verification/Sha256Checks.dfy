/**
 The constants of FIPS 180-4 by the roots they are taken from, and the digest of "abc" (section
 8.5 of RFC 6234 has the same example), so that the definitions of Sha256Spec are not only
 compared with the program but with the standard.
 */
module Sha256Checks {
  import opened Arithmetic
  import opened Words
  import opened Sha256Spec
  import Sha256

  const TWO32 := 0x1_0000_0000

  // The first 64 primes, eight at a time.
  function Primes(g: nat): (p: seq<nat>)
    requires g < 8
    ensures |p| == 8
  {
    match g
    case 0 => [2, 3, 5, 7, 11, 13, 17, 19]
    case 1 => [23, 29, 31, 37, 41, 43, 47, 53]
    case 2 => [59, 61, 67, 71, 73, 79, 83, 89]
    case 3 => [97, 101, 103, 107, 109, 113, 127, 131]
    case 4 => [137, 139, 149, 151, 157, 163, 167, 173]
    case 5 => [179, 181, 191, 193, 197, 199, 211, 223]
    case 6 => [227, 229, 233, 239, 241, 251, 257, 263]
    case _ => [269, 271, 277, 281, 283, 293, 307, 311]
  }

  // c is the first 32 bits of the fractional part of the square root of p, which is between
  // whole and whole + 1.
  ghost predicate SquareRootBits(c: bv32, whole: nat, p: nat) {
    var f := TWO32 * whole + c as nat;
    f * f <= p * TWO32 * TWO32 < (f + 1) * (f + 1)
  }

  ghost predicate CubeRootBits(c: bv32, whole: nat, p: nat) {
    var f := TWO32 * whole + c as nat;
    f * f * f <= p * TWO32 * TWO32 * TWO32 < (f + 1) * (f + 1) * (f + 1)
  }

  // The cube root of p, for primes below 343, rounded down.
  function CubeRoot(p: nat): nat {
    if p < 8 then 1 else if p < 27 then 2 else if p < 64 then 3 else if p < 125 then 4 else if p < 216 then 5 else 6
  }

  // Section 5.3.3.
  lemma InitialFromRoots()
    ensures SquareRootBits(INITIAL.a, 1, 2) && SquareRootBits(INITIAL.b, 1, 3)
    ensures SquareRootBits(INITIAL.c, 2, 5) && SquareRootBits(INITIAL.d, 2, 7)
    ensures SquareRootBits(INITIAL.e, 3, 11) && SquareRootBits(INITIAL.f, 3, 13)
    ensures SquareRootBits(INITIAL.g, 4, 17) && SquareRootBits(INITIAL.h, 4, 19)
  {
  }

  ghost predicate FromRoots(g: nat)
    requires g < 8
  {
    forall j :: 0 <= j < 8 ==> CubeRootBits(KGroup(g)[j], CubeRoot(Primes(g)[j]), Primes(g)[j])
  }

  lemma Group0FromRoots()
    ensures FromRoots(0)
  {
  }

  lemma Group1FromRoots()
    ensures FromRoots(1)
  {
  }

  lemma Group2FromRoots()
    ensures FromRoots(2)
  {
  }

  lemma Group3FromRoots()
    ensures FromRoots(3)
  {
  }

  lemma Group4FromRoots()
    ensures FromRoots(4)
  {
  }

  lemma Group5FromRoots()
    ensures FromRoots(5)
  {
  }

  lemma Group6FromRoots()
    ensures FromRoots(6)
  {
  }

  lemma Group7FromRoots()
    ensures FromRoots(7)
  {
  }

  // Section 4.2.2.
  lemma ConstantsFromRoots(t: nat)
    requires t < 64
    ensures var p := Primes(t / 8)[t % 8]; CubeRootBits(K()[t], CubeRoot(p), p)
  {
    Group0FromRoots();
    Group1FromRoots();
    Group2FromRoots();
    Group3FromRoots();
    Group4FromRoots();
    Group5FromRoots();
    Group6FromRoots();
    Group7FromRoots();
    assert FromRoots(t / 8);
  }

  // ------------------------------------------------------------------- the digest of "abc"

  const ABC: seq<bv8> := [0x61, 0x62, 0x63]

  // The block of "abc", word by word.
  ghost predicate StartsAbc(w: seq<bv32>) {
    && |w| == 64 && w[0] == 0x61626380 && w[15] == 0x00000018
    && forall t :: 1 <= t < 15 ==> w[t] == 0
  }

  lemma ScheduledWord(m: seq<bv32>, t: nat)
    requires |m| == 16 <= t < 64
    ensures var w := Schedule(m, 64); w[t] == Mixed(w[t - 16], w[t - 15], w[t - 7], w[t - 2])
  {
    SchedulePrefix(m, t, 64);
    SchedulePrefix(m, t + 1, 64);
    var w := Schedule(m, 64);
    assert w[..t + 1][t] == w[t];
    assert NextWord(w[..t]) == Mixed(w[t - 16], w[t - 15], w[t - 7], w[t - 2]);
  }

  ghost predicate Extended(w: seq<bv32>) {
    |w| == 64 && forall t :: 16 <= t < 64 ==> FromEarlier(w, t)
  }

  ghost predicate FromEarlier(w: seq<bv32>, t: nat)
    requires 16 <= t < |w|
  {
    w[t] == Mixed(w[t - 16], w[t - 15], w[t - 7], w[t - 2])
  }

  ghost predicate Words2(w: seq<bv32>) {
    && |w| == 64
    && w[16] == 0x61626380 && w[17] == 0x000f0000 && w[18] == 0x7da86405
    && w[19] == 0x600003c6 && w[20] == 0x3e9d7b78 && w[21] == 0x0183fc00
    && w[22] == 0x12dcbfdb && w[23] == 0xe2e2c38e
  }

  ghost predicate Words3(w: seq<bv32>) {
    && |w| == 64
    && w[24] == 0xc8215c1a && w[25] == 0xb73679a2 && w[26] == 0xe5bc3909
    && w[27] == 0x32663c5b && w[28] == 0x9d209d67 && w[29] == 0xec8726cb
    && w[30] == 0x702138a4 && w[31] == 0xd3b7973b
  }

  ghost predicate Words4(w: seq<bv32>) {
    && |w| == 64
    && w[32] == 0x93f5997f && w[33] == 0x3b68ba73 && w[34] == 0xaff4ffc1
    && w[35] == 0xf10a5c62 && w[36] == 0x0a8b3996 && w[37] == 0x72af830a
    && w[38] == 0x9409e33e && w[39] == 0x24641522
  }

  ghost predicate Words5(w: seq<bv32>) {
    && |w| == 64
    && w[40] == 0x9f47bf94 && w[41] == 0xf0a64f5a && w[42] == 0x3e246a79
    && w[43] == 0x27333ba3 && w[44] == 0x0c4763f2 && w[45] == 0x840abf27
    && w[46] == 0x7a290d5d && w[47] == 0x065c43da
  }

  ghost predicate Words6(w: seq<bv32>) {
    && |w| == 64
    && w[48] == 0xfb3e89cb && w[49] == 0xcc7617db && w[50] == 0xb9e66c34
    && w[51] == 0xa9993667 && w[52] == 0x84badedd && w[53] == 0xc21462bc
    && w[54] == 0x1487472c && w[55] == 0xb20f7a99
  }

  ghost predicate Words7(w: seq<bv32>) {
    && |w| == 64
    && w[56] == 0xef57b9cd && w[57] == 0xebe6b238 && w[58] == 0x9fe3095e
    && w[59] == 0x78bc8d4b && w[60] == 0xa43fcf15 && w[61] == 0x668b2ff8
    && w[62] == 0xeeaba2cc && w[63] == 0x12b1edeb
  }

  lemma Words2Follow(w: seq<bv32>)
    requires Extended(w) && StartsAbc(w)
    ensures Words2(w)
  {
    assert FromEarlier(w, 16) && FromEarlier(w, 17);
    assert FromEarlier(w, 18) && FromEarlier(w, 19);
    assert FromEarlier(w, 20) && FromEarlier(w, 21);
    assert FromEarlier(w, 22) && FromEarlier(w, 23);
  }

  lemma Words3Follow(w: seq<bv32>)
    requires Extended(w) && StartsAbc(w) && Words2(w)
    ensures Words3(w)
  {
    assert FromEarlier(w, 24) && FromEarlier(w, 25);
    assert FromEarlier(w, 26) && FromEarlier(w, 27);
    assert FromEarlier(w, 28) && FromEarlier(w, 29);
    assert FromEarlier(w, 30) && FromEarlier(w, 31);
  }

  lemma Words4Follow(w: seq<bv32>)
    requires Extended(w) && Words2(w) && Words3(w)
    ensures Words4(w)
  {
    assert FromEarlier(w, 32) && FromEarlier(w, 33);
    assert FromEarlier(w, 34) && FromEarlier(w, 35);
    assert FromEarlier(w, 36) && FromEarlier(w, 37);
    assert FromEarlier(w, 38) && FromEarlier(w, 39);
  }

  lemma Words5Follow(w: seq<bv32>)
    requires Extended(w) && Words3(w) && Words4(w)
    ensures Words5(w)
  {
    assert FromEarlier(w, 40) && FromEarlier(w, 41);
    assert FromEarlier(w, 42) && FromEarlier(w, 43);
    assert FromEarlier(w, 44) && FromEarlier(w, 45);
    assert FromEarlier(w, 46) && FromEarlier(w, 47);
  }

  lemma Words6Follow(w: seq<bv32>)
    requires Extended(w) && Words4(w) && Words5(w)
    ensures Words6(w)
  {
    assert FromEarlier(w, 48) && FromEarlier(w, 49);
    assert FromEarlier(w, 50) && FromEarlier(w, 51);
    assert FromEarlier(w, 52) && FromEarlier(w, 53);
    assert FromEarlier(w, 54) && FromEarlier(w, 55);
  }

  lemma Words7Follow(w: seq<bv32>)
    requires Extended(w) && Words5(w) && Words6(w)
    ensures Words7(w)
  {
    assert FromEarlier(w, 56) && FromEarlier(w, 57);
    assert FromEarlier(w, 58) && FromEarlier(w, 59);
    assert FromEarlier(w, 60) && FromEarlier(w, 61);
    assert FromEarlier(w, 62) && FromEarlier(w, 63);
  }

  // The registers after n rounds of the words w are s.
  ghost predicate At(w: seq<bv32>, n: nat, s: Registers) {
    |w| == 64 && n <= 64 && Rounds(INITIAL, K(), w, n) == s
  }

  lemma OneRound(w: seq<bv32>, g: nat, j: nat, s: Registers, k: bv32, word: bv32)
    requires g < 8 && j < 8 && At(w, 8 * g + j, s) && KGroup(g)[j] == k && w[8 * g + j] == word
    ensures At(w, 8 * g + j + 1, Round(s, k, word))
  {
    Sha256.InGroup(g, j);
  }

  lemma Rounds0(w: seq<bv32>)
    requires StartsAbc(w)
    requires At(w, 0, Registers(0x6a09e667, 0xbb67ae85, 0x3c6ef372, 0xa54ff53a,
                        0x510e527f, 0x9b05688c, 0x1f83d9ab, 0x5be0cd19))
    ensures At(w, 4, Registers(0xd550f666, 0xc8c347a7, 0x5a6ad9ad, 0x5d6aebcd,
                       0x24e00850, 0xf92939eb, 0x78ce7989, 0xfa2a4622))
  {
    OneRound(w, 0, 0, Registers(0x6a09e667, 0xbb67ae85, 0x3c6ef372, 0xa54ff53a,
                              0x510e527f, 0x9b05688c, 0x1f83d9ab, 0x5be0cd19), 0x428a2f98, 0x61626380);
    OneRound(w, 0, 1, Registers(0x5d6aebcd, 0x6a09e667, 0xbb67ae85, 0x3c6ef372,
                              0xfa2a4622, 0x510e527f, 0x9b05688c, 0x1f83d9ab), 0x71374491, 0x00000000);
    OneRound(w, 0, 2, Registers(0x5a6ad9ad, 0x5d6aebcd, 0x6a09e667, 0xbb67ae85,
                              0x78ce7989, 0xfa2a4622, 0x510e527f, 0x9b05688c), 0xb5c0fbcf, 0x00000000);
    OneRound(w, 0, 3, Registers(0xc8c347a7, 0x5a6ad9ad, 0x5d6aebcd, 0x6a09e667,
                              0xf92939eb, 0x78ce7989, 0xfa2a4622, 0x510e527f), 0xe9b5dba5, 0x00000000);
  }

  lemma Rounds4(w: seq<bv32>)
    requires StartsAbc(w)
    requires At(w, 4, Registers(0xd550f666, 0xc8c347a7, 0x5a6ad9ad, 0x5d6aebcd,
                        0x24e00850, 0xf92939eb, 0x78ce7989, 0xfa2a4622))
    ensures At(w, 8, Registers(0x85a07b5f, 0xe5030380, 0x2b4209f5, 0x04409a6a,
                       0x0c657a79, 0x9b27a401, 0x714260ad, 0x43ada245))
  {
    OneRound(w, 0, 4, Registers(0xd550f666, 0xc8c347a7, 0x5a6ad9ad, 0x5d6aebcd,
                              0x24e00850, 0xf92939eb, 0x78ce7989, 0xfa2a4622), 0x3956c25b, 0x00000000);
    OneRound(w, 0, 5, Registers(0x04409a6a, 0xd550f666, 0xc8c347a7, 0x5a6ad9ad,
                              0x43ada245, 0x24e00850, 0xf92939eb, 0x78ce7989), 0x59f111f1, 0x00000000);
    OneRound(w, 0, 6, Registers(0x2b4209f5, 0x04409a6a, 0xd550f666, 0xc8c347a7,
                              0x714260ad, 0x43ada245, 0x24e00850, 0xf92939eb), 0x923f82a4, 0x00000000);
    OneRound(w, 0, 7, Registers(0xe5030380, 0x2b4209f5, 0x04409a6a, 0xd550f666,
                              0x9b27a401, 0x714260ad, 0x43ada245, 0x24e00850), 0xab1c5ed5, 0x00000000);
  }

  lemma Rounds8(w: seq<bv32>)
    requires StartsAbc(w)
    requires At(w, 8, Registers(0x85a07b5f, 0xe5030380, 0x2b4209f5, 0x04409a6a,
                        0x0c657a79, 0x9b27a401, 0x714260ad, 0x43ada245))
    ensures At(w, 12, Registers(0xf71fc5a9, 0x4798a3f4, 0x8c87346b, 0x8e04ecb9,
                        0x816fd6e9, 0x436b23e8, 0x1cc92596, 0x32ca2d8c))
  {
    OneRound(w, 1, 0, Registers(0x85a07b5f, 0xe5030380, 0x2b4209f5, 0x04409a6a,
                              0x0c657a79, 0x9b27a401, 0x714260ad, 0x43ada245), 0xd807aa98, 0x00000000);
    OneRound(w, 1, 1, Registers(0x8e04ecb9, 0x85a07b5f, 0xe5030380, 0x2b4209f5,
                              0x32ca2d8c, 0x0c657a79, 0x9b27a401, 0x714260ad), 0x12835b01, 0x00000000);
    OneRound(w, 1, 2, Registers(0x8c87346b, 0x8e04ecb9, 0x85a07b5f, 0xe5030380,
                              0x1cc92596, 0x32ca2d8c, 0x0c657a79, 0x9b27a401), 0x243185be, 0x00000000);
    OneRound(w, 1, 3, Registers(0x4798a3f4, 0x8c87346b, 0x8e04ecb9, 0x85a07b5f,
                              0x436b23e8, 0x1cc92596, 0x32ca2d8c, 0x0c657a79), 0x550c7dc3, 0x00000000);
  }

  lemma Rounds12(w: seq<bv32>)
    requires StartsAbc(w)
    requires At(w, 12, Registers(0xf71fc5a9, 0x4798a3f4, 0x8c87346b, 0x8e04ecb9,
                         0x816fd6e9, 0x436b23e8, 0x1cc92596, 0x32ca2d8c))
    ensures At(w, 16, Registers(0xb0fa238e, 0xc0645fde, 0xd932eb16, 0x87912990,
                        0x07590dcd, 0x0b92f20c, 0x745a48de, 0x1e578218))
  {
    OneRound(w, 1, 4, Registers(0xf71fc5a9, 0x4798a3f4, 0x8c87346b, 0x8e04ecb9,
                              0x816fd6e9, 0x436b23e8, 0x1cc92596, 0x32ca2d8c), 0x72be5d74, 0x00000000);
    OneRound(w, 1, 5, Registers(0x87912990, 0xf71fc5a9, 0x4798a3f4, 0x8c87346b,
                              0x1e578218, 0x816fd6e9, 0x436b23e8, 0x1cc92596), 0x80deb1fe, 0x00000000);
    OneRound(w, 1, 6, Registers(0xd932eb16, 0x87912990, 0xf71fc5a9, 0x4798a3f4,
                              0x745a48de, 0x1e578218, 0x816fd6e9, 0x436b23e8), 0x9bdc06a7, 0x00000000);
    OneRound(w, 1, 7, Registers(0xc0645fde, 0xd932eb16, 0x87912990, 0xf71fc5a9,
                              0x0b92f20c, 0x745a48de, 0x1e578218, 0x816fd6e9), 0xc19bf174, 0x00000018);
  }

  lemma Rounds16(w: seq<bv32>)
    requires Words2(w)
    requires At(w, 16, Registers(0xb0fa238e, 0xc0645fde, 0xd932eb16, 0x87912990,
                         0x07590dcd, 0x0b92f20c, 0x745a48de, 0x1e578218))
    ensures At(w, 20, Registers(0xe1f20c33, 0xfe777bbf, 0xc2fbd9d1, 0x21da9a9b,
                        0xb0638179, 0xcc899961, 0x846ee454, 0x8034229c))
  {
    OneRound(w, 2, 0, Registers(0xb0fa238e, 0xc0645fde, 0xd932eb16, 0x87912990,
                              0x07590dcd, 0x0b92f20c, 0x745a48de, 0x1e578218), 0xe49b69c1, 0x61626380);
    OneRound(w, 2, 1, Registers(0x21da9a9b, 0xb0fa238e, 0xc0645fde, 0xd932eb16,
                              0x8034229c, 0x07590dcd, 0x0b92f20c, 0x745a48de), 0xefbe4786, 0x000f0000);
    OneRound(w, 2, 2, Registers(0xc2fbd9d1, 0x21da9a9b, 0xb0fa238e, 0xc0645fde,
                              0x846ee454, 0x8034229c, 0x07590dcd, 0x0b92f20c), 0x0fc19dc6, 0x7da86405);
    OneRound(w, 2, 3, Registers(0xfe777bbf, 0xc2fbd9d1, 0x21da9a9b, 0xb0fa238e,
                              0xcc899961, 0x846ee454, 0x8034229c, 0x07590dcd), 0x240ca1cc, 0x600003c6);
  }

  lemma Rounds20(w: seq<bv32>)
    requires Words2(w)
    requires At(w, 20, Registers(0xe1f20c33, 0xfe777bbf, 0xc2fbd9d1, 0x21da9a9b,
                         0xb0638179, 0xcc899961, 0x846ee454, 0x8034229c))
    ensures At(w, 24, Registers(0xc5d53d8d, 0xa7a3623f, 0xc2606d6d, 0x9dc68b63,
                        0xaa47c347, 0x49f5114a, 0xe1257970, 0x8ada8930))
  {
    OneRound(w, 2, 4, Registers(0xe1f20c33, 0xfe777bbf, 0xc2fbd9d1, 0x21da9a9b,
                              0xb0638179, 0xcc899961, 0x846ee454, 0x8034229c), 0x2de92c6f, 0x3e9d7b78);
    OneRound(w, 2, 5, Registers(0x9dc68b63, 0xe1f20c33, 0xfe777bbf, 0xc2fbd9d1,
                              0x8ada8930, 0xb0638179, 0xcc899961, 0x846ee454), 0x4a7484aa, 0x0183fc00);
    OneRound(w, 2, 6, Registers(0xc2606d6d, 0x9dc68b63, 0xe1f20c33, 0xfe777bbf,
                              0xe1257970, 0x8ada8930, 0xb0638179, 0xcc899961), 0x5cb0a9dc, 0x12dcbfdb);
    OneRound(w, 2, 7, Registers(0xa7a3623f, 0xc2606d6d, 0x9dc68b63, 0xe1f20c33,
                              0x49f5114a, 0xe1257970, 0x8ada8930, 0xb0638179), 0x76f988da, 0xe2e2c38e);
  }

  lemma Rounds24(w: seq<bv32>)
    requires Words3(w)
    requires At(w, 24, Registers(0xc5d53d8d, 0xa7a3623f, 0xc2606d6d, 0x9dc68b63,
                         0xaa47c347, 0x49f5114a, 0xe1257970, 0x8ada8930))
    ensures At(w, 28, Registers(0x77d37528, 0xb62ec4bc, 0xcde8037d, 0x1c2c2838,
                        0xedffbff8, 0xc74c6516, 0x14383d8e, 0x2823ef91))
  {
    OneRound(w, 3, 0, Registers(0xc5d53d8d, 0xa7a3623f, 0xc2606d6d, 0x9dc68b63,
                              0xaa47c347, 0x49f5114a, 0xe1257970, 0x8ada8930), 0x983e5152, 0xc8215c1a);
    OneRound(w, 3, 1, Registers(0x1c2c2838, 0xc5d53d8d, 0xa7a3623f, 0xc2606d6d,
                              0x2823ef91, 0xaa47c347, 0x49f5114a, 0xe1257970), 0xa831c66d, 0xb73679a2);
    OneRound(w, 3, 2, Registers(0xcde8037d, 0x1c2c2838, 0xc5d53d8d, 0xa7a3623f,
                              0x14383d8e, 0x2823ef91, 0xaa47c347, 0x49f5114a), 0xb00327c8, 0xe5bc3909);
    OneRound(w, 3, 3, Registers(0xb62ec4bc, 0xcde8037d, 0x1c2c2838, 0xc5d53d8d,
                              0xc74c6516, 0x14383d8e, 0x2823ef91, 0xaa47c347), 0xbf597fc7, 0x32663c5b);
  }

  lemma Rounds28(w: seq<bv32>)
    requires Words3(w)
    requires At(w, 28, Registers(0x77d37528, 0xb62ec4bc, 0xcde8037d, 0x1c2c2838,
                         0xedffbff8, 0xc74c6516, 0x14383d8e, 0x2823ef91))
    ensures At(w, 32, Registers(0x73b33bf5, 0xea992a22, 0xa0060b30, 0x363482c9,
                        0xba591112, 0x0109ab3a, 0xade79437, 0x6112a3b7))
  {
    OneRound(w, 3, 4, Registers(0x77d37528, 0xb62ec4bc, 0xcde8037d, 0x1c2c2838,
                              0xedffbff8, 0xc74c6516, 0x14383d8e, 0x2823ef91), 0xc6e00bf3, 0x9d209d67);
    OneRound(w, 3, 5, Registers(0x363482c9, 0x77d37528, 0xb62ec4bc, 0xcde8037d,
                              0x6112a3b7, 0xedffbff8, 0xc74c6516, 0x14383d8e), 0xd5a79147, 0xec8726cb);
    OneRound(w, 3, 6, Registers(0xa0060b30, 0x363482c9, 0x77d37528, 0xb62ec4bc,
                              0xade79437, 0x6112a3b7, 0xedffbff8, 0xc74c6516), 0x06ca6351, 0x702138a4);
    OneRound(w, 3, 7, Registers(0xea992a22, 0xa0060b30, 0x363482c9, 0x77d37528,
                              0x0109ab3a, 0xade79437, 0x6112a3b7, 0xedffbff8), 0x14292967, 0xd3b7973b);
  }

  lemma Rounds32(w: seq<bv32>)
    requires Words4(w)
    requires At(w, 32, Registers(0x73b33bf5, 0xea992a22, 0xa0060b30, 0x363482c9,
                         0xba591112, 0x0109ab3a, 0xade79437, 0x6112a3b7))
    ensures At(w, 36, Registers(0x65a0cfe4, 0xa9a7738c, 0xfe604df5, 0x98e12507,
                        0xf4b002d6, 0x085f3833, 0x59249dd3, 0x9cd9f5f6))
  {
    OneRound(w, 4, 0, Registers(0x73b33bf5, 0xea992a22, 0xa0060b30, 0x363482c9,
                              0xba591112, 0x0109ab3a, 0xade79437, 0x6112a3b7), 0x27b70a85, 0x93f5997f);
    OneRound(w, 4, 1, Registers(0x98e12507, 0x73b33bf5, 0xea992a22, 0xa0060b30,
                              0x9cd9f5f6, 0xba591112, 0x0109ab3a, 0xade79437), 0x2e1b2138, 0x3b68ba73);
    OneRound(w, 4, 2, Registers(0xfe604df5, 0x98e12507, 0x73b33bf5, 0xea992a22,
                              0x59249dd3, 0x9cd9f5f6, 0xba591112, 0x0109ab3a), 0x4d2c6dfc, 0xaff4ffc1);
    OneRound(w, 4, 3, Registers(0xa9a7738c, 0xfe604df5, 0x98e12507, 0x73b33bf5,
                              0x085f3833, 0x59249dd3, 0x9cd9f5f6, 0xba591112), 0x53380d13, 0xf10a5c62);
  }

  lemma Rounds36(w: seq<bv32>)
    requires Words4(w)
    requires At(w, 36, Registers(0x65a0cfe4, 0xa9a7738c, 0xfe604df5, 0x98e12507,
                         0xf4b002d6, 0x085f3833, 0x59249dd3, 0x9cd9f5f6))
    ensures At(w, 40, Registers(0x79ea687a, 0x6dc57a8a, 0x34df1604, 0x41a65cb1,
                        0x1efbc0a0, 0xf0781bc8, 0xa507a53d, 0x0772a26b))
  {
    OneRound(w, 4, 4, Registers(0x65a0cfe4, 0xa9a7738c, 0xfe604df5, 0x98e12507,
                              0xf4b002d6, 0x085f3833, 0x59249dd3, 0x9cd9f5f6), 0x650a7354, 0x0a8b3996);
    OneRound(w, 4, 5, Registers(0x41a65cb1, 0x65a0cfe4, 0xa9a7738c, 0xfe604df5,
                              0x0772a26b, 0xf4b002d6, 0x085f3833, 0x59249dd3), 0x766a0abb, 0x72af830a);
    OneRound(w, 4, 6, Registers(0x34df1604, 0x41a65cb1, 0x65a0cfe4, 0xa9a7738c,
                              0xa507a53d, 0x0772a26b, 0xf4b002d6, 0x085f3833), 0x81c2c92e, 0x9409e33e);
    OneRound(w, 4, 7, Registers(0x6dc57a8a, 0x34df1604, 0x41a65cb1, 0x65a0cfe4,
                              0xf0781bc8, 0xa507a53d, 0x0772a26b, 0xf4b002d6), 0x92722c85, 0x24641522);
  }

  lemma Rounds40(w: seq<bv32>)
    requires Words5(w)
    requires At(w, 40, Registers(0x79ea687a, 0x6dc57a8a, 0x34df1604, 0x41a65cb1,
                         0x1efbc0a0, 0xf0781bc8, 0xa507a53d, 0x0772a26b))
    ensures At(w, 44, Registers(0x9d4baf93, 0x17aa0dfe, 0xdf46652f, 0xd6670766,
                        0xfda24c2e, 0xdecd4715, 0x838b2711, 0x26352d63))
  {
    OneRound(w, 5, 0, Registers(0x79ea687a, 0x6dc57a8a, 0x34df1604, 0x41a65cb1,
                              0x1efbc0a0, 0xf0781bc8, 0xa507a53d, 0x0772a26b), 0xa2bfe8a1, 0x9f47bf94);
    OneRound(w, 5, 1, Registers(0xd6670766, 0x79ea687a, 0x6dc57a8a, 0x34df1604,
                              0x26352d63, 0x1efbc0a0, 0xf0781bc8, 0xa507a53d), 0xa81a664b, 0xf0a64f5a);
    OneRound(w, 5, 2, Registers(0xdf46652f, 0xd6670766, 0x79ea687a, 0x6dc57a8a,
                              0x838b2711, 0x26352d63, 0x1efbc0a0, 0xf0781bc8), 0xc24b8b70, 0x3e246a79);
    OneRound(w, 5, 3, Registers(0x17aa0dfe, 0xdf46652f, 0xd6670766, 0x79ea687a,
                              0xdecd4715, 0x838b2711, 0x26352d63, 0x1efbc0a0), 0xc76c51a3, 0x27333ba3);
  }

  lemma Rounds44(w: seq<bv32>)
    requires Words5(w)
    requires At(w, 44, Registers(0x9d4baf93, 0x17aa0dfe, 0xdf46652f, 0xd6670766,
                         0xfda24c2e, 0xdecd4715, 0x838b2711, 0x26352d63))
    ensures At(w, 48, Registers(0x4172328d, 0xa14c14b0, 0x72ab4b91, 0x26628815,
                        0xfecf0bc6, 0xd57b94a9, 0xb7755da1, 0xa80f11f0))
  {
    OneRound(w, 5, 4, Registers(0x9d4baf93, 0x17aa0dfe, 0xdf46652f, 0xd6670766,
                              0xfda24c2e, 0xdecd4715, 0x838b2711, 0x26352d63), 0xd192e819, 0x0c4763f2);
    OneRound(w, 5, 5, Registers(0x26628815, 0x9d4baf93, 0x17aa0dfe, 0xdf46652f,
                              0xa80f11f0, 0xfda24c2e, 0xdecd4715, 0x838b2711), 0xd6990624, 0x840abf27);
    OneRound(w, 5, 6, Registers(0x72ab4b91, 0x26628815, 0x9d4baf93, 0x17aa0dfe,
                              0xb7755da1, 0xa80f11f0, 0xfda24c2e, 0xdecd4715), 0xf40e3585, 0x7a290d5d);
    OneRound(w, 5, 7, Registers(0xa14c14b0, 0x72ab4b91, 0x26628815, 0x9d4baf93,
                              0xd57b94a9, 0xb7755da1, 0xa80f11f0, 0xfda24c2e), 0x106aa070, 0x065c43da);
  }

  lemma Rounds48(w: seq<bv32>)
    requires Words6(w)
    requires At(w, 48, Registers(0x4172328d, 0xa14c14b0, 0x72ab4b91, 0x26628815,
                         0xfecf0bc6, 0xd57b94a9, 0xb7755da1, 0xa80f11f0))
    ensures At(w, 52, Registers(0x886e7a22, 0x7a0508a1, 0xf11bfaa8, 0x05757ceb,
                        0x49231c1e, 0x52f1ccf7, 0x6e5c390c, 0xbd714038))
  {
    OneRound(w, 6, 0, Registers(0x4172328d, 0xa14c14b0, 0x72ab4b91, 0x26628815,
                              0xfecf0bc6, 0xd57b94a9, 0xb7755da1, 0xa80f11f0), 0x19a4c116, 0xfb3e89cb);
    OneRound(w, 6, 1, Registers(0x05757ceb, 0x4172328d, 0xa14c14b0, 0x72ab4b91,
                              0xbd714038, 0xfecf0bc6, 0xd57b94a9, 0xb7755da1), 0x1e376c08, 0xcc7617db);
    OneRound(w, 6, 2, Registers(0xf11bfaa8, 0x05757ceb, 0x4172328d, 0xa14c14b0,
                              0x6e5c390c, 0xbd714038, 0xfecf0bc6, 0xd57b94a9), 0x2748774c, 0xb9e66c34);
    OneRound(w, 6, 3, Registers(0x7a0508a1, 0xf11bfaa8, 0x05757ceb, 0x4172328d,
                              0x52f1ccf7, 0x6e5c390c, 0xbd714038, 0xfecf0bc6), 0x34b0bcb5, 0xa9993667);
  }

  lemma Rounds52(w: seq<bv32>)
    requires Words6(w)
    requires At(w, 52, Registers(0x886e7a22, 0x7a0508a1, 0xf11bfaa8, 0x05757ceb,
                         0x49231c1e, 0x52f1ccf7, 0x6e5c390c, 0xbd714038))
    ensures At(w, 56, Registers(0x38cc9913, 0x3ec45cdb, 0xf5702fdb, 0x101fd28f,
                        0x54cb266b, 0xe50e1b4f, 0x9f4787c3, 0x529e7d00))
  {
    OneRound(w, 6, 4, Registers(0x886e7a22, 0x7a0508a1, 0xf11bfaa8, 0x05757ceb,
                              0x49231c1e, 0x52f1ccf7, 0x6e5c390c, 0xbd714038), 0x391c0cb3, 0x84badedd);
    OneRound(w, 6, 5, Registers(0x101fd28f, 0x886e7a22, 0x7a0508a1, 0xf11bfaa8,
                              0x529e7d00, 0x49231c1e, 0x52f1ccf7, 0x6e5c390c), 0x4ed8aa4a, 0xc21462bc);
    OneRound(w, 6, 6, Registers(0xf5702fdb, 0x101fd28f, 0x886e7a22, 0x7a0508a1,
                              0x9f4787c3, 0x529e7d00, 0x49231c1e, 0x52f1ccf7), 0x5b9cca4f, 0x1487472c);
    OneRound(w, 6, 7, Registers(0x3ec45cdb, 0xf5702fdb, 0x101fd28f, 0x886e7a22,
                              0xe50e1b4f, 0x9f4787c3, 0x529e7d00, 0x49231c1e), 0x682e6ff3, 0xb20f7a99);
  }

  lemma Rounds56(w: seq<bv32>)
    requires Words7(w)
    requires At(w, 56, Registers(0x38cc9913, 0x3ec45cdb, 0xf5702fdb, 0x101fd28f,
                         0x54cb266b, 0xe50e1b4f, 0x9f4787c3, 0x529e7d00))
    ensures At(w, 60, Registers(0xb6ae8fff, 0xffb70472, 0xc062d46f, 0xfcd1887b,
                        0xb21bad3d, 0x6d83bfc6, 0x7e44008e, 0x9b5e906c))
  {
    OneRound(w, 7, 0, Registers(0x38cc9913, 0x3ec45cdb, 0xf5702fdb, 0x101fd28f,
                              0x54cb266b, 0xe50e1b4f, 0x9f4787c3, 0x529e7d00), 0x748f82ee, 0xef57b9cd);
    OneRound(w, 7, 1, Registers(0xfcd1887b, 0x38cc9913, 0x3ec45cdb, 0xf5702fdb,
                              0x9b5e906c, 0x54cb266b, 0xe50e1b4f, 0x9f4787c3), 0x78a5636f, 0xebe6b238);
    OneRound(w, 7, 2, Registers(0xc062d46f, 0xfcd1887b, 0x38cc9913, 0x3ec45cdb,
                              0x7e44008e, 0x9b5e906c, 0x54cb266b, 0xe50e1b4f), 0x84c87814, 0x9fe3095e);
    OneRound(w, 7, 3, Registers(0xffb70472, 0xc062d46f, 0xfcd1887b, 0x38cc9913,
                              0x6d83bfc6, 0x7e44008e, 0x9b5e906c, 0x54cb266b), 0x8cc70208, 0x78bc8d4b);
  }

  lemma Rounds60(w: seq<bv32>)
    requires Words7(w)
    requires At(w, 60, Registers(0xb6ae8fff, 0xffb70472, 0xc062d46f, 0xfcd1887b,
                         0xb21bad3d, 0x6d83bfc6, 0x7e44008e, 0x9b5e906c))
    ensures At(w, 64, Registers(0x506e3058, 0xd39a2165, 0x04d24d6c, 0xb85e2ce9,
                        0x5ef50f24, 0xfb121210, 0x948d25b6, 0x961f4894))
  {
    OneRound(w, 7, 4, Registers(0xb6ae8fff, 0xffb70472, 0xc062d46f, 0xfcd1887b,
                              0xb21bad3d, 0x6d83bfc6, 0x7e44008e, 0x9b5e906c), 0x90befffa, 0xa43fcf15);
    OneRound(w, 7, 5, Registers(0xb85e2ce9, 0xb6ae8fff, 0xffb70472, 0xc062d46f,
                              0x961f4894, 0xb21bad3d, 0x6d83bfc6, 0x7e44008e), 0xa4506ceb, 0x668b2ff8);
    OneRound(w, 7, 6, Registers(0x04d24d6c, 0xb85e2ce9, 0xb6ae8fff, 0xffb70472,
                              0x948d25b6, 0x961f4894, 0xb21bad3d, 0x6d83bfc6), 0xbef9a3f7, 0xeeaba2cc);
    OneRound(w, 7, 7, Registers(0xd39a2165, 0x04d24d6c, 0xb85e2ce9, 0xb6ae8fff,
                              0xfb121210, 0x948d25b6, 0x961f4894, 0xb21bad3d), 0xc67178f2, 0x12b1edeb);
  }

  lemma AbcBlock()
    ensures |Pad(ABC)| == 64 && StartsAbc(Schedule(Parse(Pad(ABC)), 64))
  {
    LengthOf24();
    var p := Pad(ABC);
    assert p == ABC + ([0x80] + Zeros(52) + [0, 0, 0, 0, 0, 0, 0, 24]);
    assert p[0] == 0x61 && p[1] == 0x62 && p[2] == 0x63 && p[3] == 0x80 && p[63] == 24;
    assert forall i :: 4 <= i < 63 ==> p[i] == 0;
    AbcWords(p);
  }

  lemma AbcWords(p: seq<bv8>)
    requires |p| == 64 && p[0] == 0x61 && p[1] == 0x62 && p[2] == 0x63 && p[3] == 0x80 && p[63] == 24
    requires forall i :: 4 <= i < 63 ==> p[i] == 0
    ensures StartsAbc(Schedule(Parse(p), 64))
  {
    var m := Parse(p);
    SchedulePrefix(m, 16, 64);
    var w := Schedule(m, 64);
    assert w[..16] == m;
    forall t | 0 <= t < 16
      ensures w[t] == m[t]
    {
      assert w[..16][t] == m[t];
    }
  }

  lemma LengthOf24()
    ensures LengthField(Low64(24)) == [0, 0, 0, 0, 0, 0, 0, 24]
  {
    ZeroDigits(7);
    assert Digits(24, 8) == Digits(0, 7) + [24];
    assert ByteFrom(0) == 0;
    ByteFromIsMod(24);
    ByteOf24(ByteFrom(24));
  }

  lemma ByteOf24(b: bv8)
    requires b as nat == 24
    ensures b == 24
  {
  }

  lemma {:induction false} ZeroDigits(k: nat)
    ensures Digits(0, k) == seq(k, _ => 0)
  {
    if k > 0 {
      ZeroDigits(k - 1);
    }
  }

  lemma RoundsOfAbc(w: seq<bv32>)
    requires StartsAbc(w) && Extended(w)
    ensures At(w, 64, Registers(0x506e3058, 0xd39a2165, 0x04d24d6c, 0xb85e2ce9,
                      0x5ef50f24, 0xfb121210, 0x948d25b6, 0x961f4894))
  {
    Words2Follow(w);
    Words3Follow(w);
    Words4Follow(w);
    Words5Follow(w);
    Words6Follow(w);
    Words7Follow(w);
    Rounds0(w);
    Rounds4(w);
    Rounds8(w);
    Rounds12(w);
    Rounds16(w);
    Rounds20(w);
    Rounds24(w);
    Rounds28(w);
    Rounds32(w);
    Rounds36(w);
    Rounds40(w);
    Rounds44(w);
    Rounds48(w);
    Rounds52(w);
    Rounds56(w);
    Rounds60(w);
  }

  lemma DigestOfAbc()
    ensures Sha256Spec.Sha256(ABC) == Registers(0xba7816bf, 0x8f01cfea, 0x414140de, 0x5dae2223,
                                                0xb00361a3, 0x96177a9c, 0xb410ff61, 0xf20015ad)
  {
    AbcBlock();
    var p := Pad(ABC);
    var m := Parse(p);
    var w := Schedule(m, 64);
    forall t | 16 <= t < 64
      ensures FromEarlier(w, t)
    {
      ScheduledWord(m, t);
    }
    RoundsOfAbc(w);
    assert p[..64] == p && p[64..] == [];
    assert HashBlocks(INITIAL, p) == HashFrom(INITIAL, p);
  }
}
