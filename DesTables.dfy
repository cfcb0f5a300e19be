// The constant tables of des.c in the FIPS bit layout that the file's
// `layout` macro selects: bit 1 of FIPS PUB 46-3 is the least significant
// bit of a word.  Entries of a permutation table are 1-based bit numbers.

module DesTables {
  import opened DesBits
  import opened DesRev

  /** A 1-based bit number of a 64-bit word. */
  type Pos = x: nat | 1 <= x <= 64 witness 1
  /** A 1-based bit number of the 56-bit key that PC1 selects. */
  type Pos56 = x: Pos | x <= 56 witness 1
  /** An S-box entry. */
  type Nibble = x: nat | x < 16
  /** An index into the 64 entries of an S-box. */
  type BoxIndex = x: nat | x < 64

  /** Initial permutation. */
  const IP: seq<Pos> :=
    [58, 50, 42, 34, 26, 18, 10, 2] +
    [60, 52, 44, 36, 28, 20, 12, 4] +
    [62, 54, 46, 38, 30, 22, 14, 6] +
    [64, 56, 48, 40, 32, 24, 16, 8] +
    [57, 49, 41, 33, 25, 17, 9, 1] +
    [59, 51, 43, 35, 27, 19, 11, 3] +
    [61, 53, 45, 37, 29, 21, 13, 5] +
    [63, 55, 47, 39, 31, 23, 15, 7]

  /** Inverse initial permutation. */
  const IIP: seq<Pos> :=
    [40, 8, 48, 16, 56, 24, 64, 32] +
    [39, 7, 47, 15, 55, 23, 63, 31] +
    [38, 6, 46, 14, 54, 22, 62, 30] +
    [37, 5, 45, 13, 53, 21, 61, 29] +
    [36, 4, 44, 12, 52, 20, 60, 28] +
    [35, 3, 43, 11, 51, 19, 59, 27] +
    [34, 2, 42, 10, 50, 18, 58, 26] +
    [33, 1, 41, 9, 49, 17, 57, 25]

  /** Permutation P applied to the S-box outputs. */
  const P: seq<Pos> :=
    [16, 7, 20, 21, 29, 12, 28, 17] +
    [1, 15, 23, 26, 5, 18, 31, 10] +
    [2, 8, 24, 14, 32, 27, 3, 9] +
    [19, 13, 30, 6, 22, 11, 4, 25]

  /** Permuted choice 1: the 56 key bits out of 64. */
  const PC1: seq<Pos> :=
    [57, 49, 41, 33, 25, 17, 9] +
    [1, 58, 50, 42, 34, 26, 18] +
    [10, 2, 59, 51, 43, 35, 27] +
    [19, 11, 3, 60, 52, 44, 36] +
    [63, 55, 47, 39, 31, 23, 15] +
    [7, 62, 54, 46, 38, 30, 22] +
    [14, 6, 61, 53, 45, 37, 29] +
    [21, 13, 5, 28, 20, 12, 4]

  /** Permuted choice 2: the 48 subkey bits out of the 56-bit key. */
  const PC2: seq<Pos56> :=
    [14, 17, 11, 24, 1, 5] +
    [3, 28, 15, 6, 21, 10] +
    [23, 19, 12, 4, 26, 8] +
    [16, 7, 27, 20, 13, 2] +
    [41, 52, 31, 37, 47, 55] +
    [30, 40, 51, 45, 33, 48] +
    [44, 49, 39, 56, 34, 53] +
    [46, 42, 50, 36, 29, 32]

  /** The eight S-boxes as FIPS PUB 46-3 prints them: row-major, four rows
      of sixteen, the row chosen by the outer input bits. */
  const SBoxes: seq<seq<Nibble>> := [
      [14, 4, 13, 1, 2, 15, 11, 8, 3, 10, 6, 12, 5, 9, 0, 7] +
      [0, 15, 7, 4, 14, 2, 13, 1, 10, 6, 12, 11, 9, 5, 3, 8] +
      [4, 1, 14, 8, 13, 6, 2, 11, 15, 12, 9, 7, 3, 10, 5, 0] +
      [15, 12, 8, 2, 4, 9, 1, 7, 5, 11, 3, 14, 10, 0, 6, 13],

      [15, 1, 8, 14, 6, 11, 3, 4, 9, 7, 2, 13, 12, 0, 5, 10] +
      [3, 13, 4, 7, 15, 2, 8, 14, 12, 0, 1, 10, 6, 9, 11, 5] +
      [0, 14, 7, 11, 10, 4, 13, 1, 5, 8, 12, 6, 9, 3, 2, 15] +
      [13, 8, 10, 1, 3, 15, 4, 2, 11, 6, 7, 12, 0, 5, 14, 9],

      [10, 0, 9, 14, 6, 3, 15, 5, 1, 13, 12, 7, 11, 4, 2, 8] +
      [13, 7, 0, 9, 3, 4, 6, 10, 2, 8, 5, 14, 12, 11, 15, 1] +
      [13, 6, 4, 9, 8, 15, 3, 0, 11, 1, 2, 12, 5, 10, 14, 7] +
      [1, 10, 13, 0, 6, 9, 8, 7, 4, 15, 14, 3, 11, 5, 2, 12],

      [7, 13, 14, 3, 0, 6, 9, 10, 1, 2, 8, 5, 11, 12, 4, 15] +
      [13, 8, 11, 5, 6, 15, 0, 3, 4, 7, 2, 12, 1, 10, 14, 9] +
      [10, 6, 9, 0, 12, 11, 7, 13, 15, 1, 3, 14, 5, 2, 8, 4] +
      [3, 15, 0, 6, 10, 1, 13, 8, 9, 4, 5, 11, 12, 7, 2, 14],

      [2, 12, 4, 1, 7, 10, 11, 6, 8, 5, 3, 15, 13, 0, 14, 9] +
      [14, 11, 2, 12, 4, 7, 13, 1, 5, 0, 15, 10, 3, 9, 8, 6] +
      [4, 2, 1, 11, 10, 13, 7, 8, 15, 9, 12, 5, 6, 3, 0, 14] +
      [11, 8, 12, 7, 1, 14, 2, 13, 6, 15, 0, 9, 10, 4, 5, 3],

      [12, 1, 10, 15, 9, 2, 6, 8, 0, 13, 3, 4, 14, 7, 5, 11] +
      [10, 15, 4, 2, 7, 12, 9, 5, 6, 1, 13, 14, 0, 11, 3, 8] +
      [9, 14, 15, 5, 2, 8, 12, 3, 7, 0, 4, 10, 1, 13, 11, 6] +
      [4, 3, 2, 12, 9, 5, 15, 10, 11, 14, 1, 7, 6, 0, 8, 13],

      [4, 11, 2, 14, 15, 0, 8, 13, 3, 12, 9, 7, 5, 10, 6, 1] +
      [13, 0, 11, 7, 4, 9, 1, 10, 14, 3, 5, 12, 2, 15, 8, 6] +
      [1, 4, 11, 13, 12, 3, 7, 14, 10, 15, 6, 8, 0, 5, 9, 2] +
      [6, 11, 13, 8, 1, 4, 10, 7, 9, 5, 0, 15, 14, 2, 3, 12],

      [13, 2, 8, 4, 6, 15, 11, 1, 10, 9, 3, 14, 5, 0, 12, 7] +
      [1, 15, 13, 8, 10, 3, 7, 4, 12, 5, 6, 11, 0, 14, 9, 2] +
      [7, 11, 4, 1, 9, 12, 14, 2, 0, 6, 10, 13, 15, 3, 5, 8] +
      [2, 1, 14, 7, 4, 10, 8, 13, 15, 12, 9, 0, 3, 5, 6, 11]
  ]

  /** The order in which `boxdef` lists a box's FIPS entries: entry k of the
      stored box is FIPS entry BoxOrder[k]. */
  const BoxOrder: seq<BoxIndex> :=
    [0, 32, 8, 40, 4, 36, 12, 44] +
    [2, 34, 10, 42, 6, 38, 14, 46] +
    [1, 33, 9, 41, 5, 37, 13, 45] +
    [3, 35, 11, 43, 7, 39, 15, 47] +
    [16, 48, 24, 56, 20, 52, 28, 60] +
    [18, 50, 26, 58, 22, 54, 30, 62] +
    [17, 49, 25, 57, 21, 53, 29, 61] +
    [19, 51, 27, 59, 23, 55, 31, 63]

  /** `flip`: moves bit 3 to bit 0, bit 2 to bit 1, bit 1 to bit 2 and bit 0
      to bit 3; the four terms have no bit in common, so `|` is `+`. */
  function Flip(x: Nibble): Nibble {
    Bit(x, 3) + 2 * Bit(x, 2) + 4 * Bit(x, 1) + 8 * Bit(x, 0)
  }

  /** `S[i][k]`: the stored S-box entry, with its FIPS entry bit-mirrored. */
  function S(i: nat, k: BoxIndex): Nibble
    requires i < 8
  {
    Flip(SBoxes[i][BoxOrder[k]])
  }

  /** The `S[8][64]` array: stored entry k of box i at [i][k]. */
  function STable(): (t: seq<seq<Nibble>>)
    ensures |t| == 8 && forall i | 0 <= i < 8 :: |t[i]| == 64
  {
    seq(8, i requires 0 <= i < 8 => seq(64, k requires 0 <= k < 64 => S(i, k)))
  }

  /** `flip` reverses the four bits of an S-box entry: it is `revbit(x, 4)`. */
  lemma FlipReverses(x: Nibble)
    ensures Flip(x) == RevBits(x, 4)
  {
    var b0, b1, b2, b3 := x % 2, x / 2 % 2, x / 2 / 2 % 2, x / 2 / 2 / 2 % 2;
    assert Shr(x, 1) == x / 2;
    assert Shr(x, 2) == Shr(x / 2, 1) == x / 2 / 2;
    assert Shr(x, 3) == Shr(x / 2, 2) == Shr(x / 2 / 2, 1) == x / 2 / 2 / 2;
    calc {
      RevBits(x, 4);
      RevBitsFrom(x / 2, 3, b0);
      RevBitsFrom(x / 2 / 2, 2, 2 * b0 + b1);
      RevBitsFrom(x / 2 / 2 / 2, 1, 4 * b0 + 2 * b1 + b2);
      8 * b0 + 4 * b1 + 2 * b2 + b3;
    }
  }

  // IpIipInverse four entries at a time: IP undoes IIP, then IIP undoes IP.

  lemma IpAfterIipFrom0()
    ensures forall j | 0 <= j < 4 :: IP[IIP[j] - 1] == j + 1
  {
    assert IIP[0] == 40 && IP[39] == 1;
    assert IIP[1] == 8 && IP[7] == 2;
    assert IIP[2] == 48 && IP[47] == 3;
    assert IIP[3] == 16 && IP[15] == 4;
  }

  lemma IpAfterIipFrom4()
    ensures forall j | 4 <= j < 8 :: IP[IIP[j] - 1] == j + 1
  {
    assert IIP[4] == 56 && IP[55] == 5;
    assert IIP[5] == 24 && IP[23] == 6;
    assert IIP[6] == 64 && IP[63] == 7;
    assert IIP[7] == 32 && IP[31] == 8;
  }

  lemma IpAfterIipFrom8()
    ensures forall j | 8 <= j < 12 :: IP[IIP[j] - 1] == j + 1
  {
    assert IIP[8] == 39 && IP[38] == 9;
    assert IIP[9] == 7 && IP[6] == 10;
    assert IIP[10] == 47 && IP[46] == 11;
    assert IIP[11] == 15 && IP[14] == 12;
  }

  lemma IpAfterIipFrom12()
    ensures forall j | 12 <= j < 16 :: IP[IIP[j] - 1] == j + 1
  {
    assert IIP[12] == 55 && IP[54] == 13;
    assert IIP[13] == 23 && IP[22] == 14;
    assert IIP[14] == 63 && IP[62] == 15;
    assert IIP[15] == 31 && IP[30] == 16;
  }

  lemma IpAfterIipFrom16()
    ensures forall j | 16 <= j < 20 :: IP[IIP[j] - 1] == j + 1
  {
    assert IIP[16] == 38 && IP[37] == 17;
    assert IIP[17] == 6 && IP[5] == 18;
    assert IIP[18] == 46 && IP[45] == 19;
    assert IIP[19] == 14 && IP[13] == 20;
  }

  lemma IpAfterIipFrom20()
    ensures forall j | 20 <= j < 24 :: IP[IIP[j] - 1] == j + 1
  {
    assert IIP[20] == 54 && IP[53] == 21;
    assert IIP[21] == 22 && IP[21] == 22;
    assert IIP[22] == 62 && IP[61] == 23;
    assert IIP[23] == 30 && IP[29] == 24;
  }

  lemma IpAfterIipFrom24()
    ensures forall j | 24 <= j < 28 :: IP[IIP[j] - 1] == j + 1
  {
    assert IIP[24] == 37 && IP[36] == 25;
    assert IIP[25] == 5 && IP[4] == 26;
    assert IIP[26] == 45 && IP[44] == 27;
    assert IIP[27] == 13 && IP[12] == 28;
  }

  lemma IpAfterIipFrom28()
    ensures forall j | 28 <= j < 32 :: IP[IIP[j] - 1] == j + 1
  {
    assert IIP[28] == 53 && IP[52] == 29;
    assert IIP[29] == 21 && IP[20] == 30;
    assert IIP[30] == 61 && IP[60] == 31;
    assert IIP[31] == 29 && IP[28] == 32;
  }

  lemma IpAfterIipFrom32()
    ensures forall j | 32 <= j < 36 :: IP[IIP[j] - 1] == j + 1
  {
    assert IIP[32] == 36 && IP[35] == 33;
    assert IIP[33] == 4 && IP[3] == 34;
    assert IIP[34] == 44 && IP[43] == 35;
    assert IIP[35] == 12 && IP[11] == 36;
  }

  lemma IpAfterIipFrom36()
    ensures forall j | 36 <= j < 40 :: IP[IIP[j] - 1] == j + 1
  {
    assert IIP[36] == 52 && IP[51] == 37;
    assert IIP[37] == 20 && IP[19] == 38;
    assert IIP[38] == 60 && IP[59] == 39;
    assert IIP[39] == 28 && IP[27] == 40;
  }

  lemma IpAfterIipFrom40()
    ensures forall j | 40 <= j < 44 :: IP[IIP[j] - 1] == j + 1
  {
    assert IIP[40] == 35 && IP[34] == 41;
    assert IIP[41] == 3 && IP[2] == 42;
    assert IIP[42] == 43 && IP[42] == 43;
    assert IIP[43] == 11 && IP[10] == 44;
  }

  lemma IpAfterIipFrom44()
    ensures forall j | 44 <= j < 48 :: IP[IIP[j] - 1] == j + 1
  {
    assert IIP[44] == 51 && IP[50] == 45;
    assert IIP[45] == 19 && IP[18] == 46;
    assert IIP[46] == 59 && IP[58] == 47;
    assert IIP[47] == 27 && IP[26] == 48;
  }

  lemma IpAfterIipFrom48()
    ensures forall j | 48 <= j < 52 :: IP[IIP[j] - 1] == j + 1
  {
    assert IIP[48] == 34 && IP[33] == 49;
    assert IIP[49] == 2 && IP[1] == 50;
    assert IIP[50] == 42 && IP[41] == 51;
    assert IIP[51] == 10 && IP[9] == 52;
  }

  lemma IpAfterIipFrom52()
    ensures forall j | 52 <= j < 56 :: IP[IIP[j] - 1] == j + 1
  {
    assert IIP[52] == 50 && IP[49] == 53;
    assert IIP[53] == 18 && IP[17] == 54;
    assert IIP[54] == 58 && IP[57] == 55;
    assert IIP[55] == 26 && IP[25] == 56;
  }

  lemma IpAfterIipFrom56()
    ensures forall j | 56 <= j < 60 :: IP[IIP[j] - 1] == j + 1
  {
    assert IIP[56] == 33 && IP[32] == 57;
    assert IIP[57] == 1 && IP[0] == 58;
    assert IIP[58] == 41 && IP[40] == 59;
    assert IIP[59] == 9 && IP[8] == 60;
  }

  lemma IpAfterIipFrom60()
    ensures forall j | 60 <= j < 64 :: IP[IIP[j] - 1] == j + 1
  {
    assert IIP[60] == 49 && IP[48] == 61;
    assert IIP[61] == 17 && IP[16] == 62;
    assert IIP[62] == 57 && IP[56] == 63;
    assert IIP[63] == 25 && IP[24] == 64;
  }

  lemma IipAfterIpFrom0()
    ensures forall j | 0 <= j < 4 :: IIP[IP[j] - 1] == j + 1
  {
    assert IP[0] == 58 && IIP[57] == 1;
    assert IP[1] == 50 && IIP[49] == 2;
    assert IP[2] == 42 && IIP[41] == 3;
    assert IP[3] == 34 && IIP[33] == 4;
  }

  lemma IipAfterIpFrom4()
    ensures forall j | 4 <= j < 8 :: IIP[IP[j] - 1] == j + 1
  {
    assert IP[4] == 26 && IIP[25] == 5;
    assert IP[5] == 18 && IIP[17] == 6;
    assert IP[6] == 10 && IIP[9] == 7;
    assert IP[7] == 2 && IIP[1] == 8;
  }

  lemma IipAfterIpFrom8()
    ensures forall j | 8 <= j < 12 :: IIP[IP[j] - 1] == j + 1
  {
    assert IP[8] == 60 && IIP[59] == 9;
    assert IP[9] == 52 && IIP[51] == 10;
    assert IP[10] == 44 && IIP[43] == 11;
    assert IP[11] == 36 && IIP[35] == 12;
  }

  lemma IipAfterIpFrom12()
    ensures forall j | 12 <= j < 16 :: IIP[IP[j] - 1] == j + 1
  {
    assert IP[12] == 28 && IIP[27] == 13;
    assert IP[13] == 20 && IIP[19] == 14;
    assert IP[14] == 12 && IIP[11] == 15;
    assert IP[15] == 4 && IIP[3] == 16;
  }

  lemma IipAfterIpFrom16()
    ensures forall j | 16 <= j < 20 :: IIP[IP[j] - 1] == j + 1
  {
    assert IP[16] == 62 && IIP[61] == 17;
    assert IP[17] == 54 && IIP[53] == 18;
    assert IP[18] == 46 && IIP[45] == 19;
    assert IP[19] == 38 && IIP[37] == 20;
  }

  lemma IipAfterIpFrom20()
    ensures forall j | 20 <= j < 24 :: IIP[IP[j] - 1] == j + 1
  {
    assert IP[20] == 30 && IIP[29] == 21;
    assert IP[21] == 22 && IIP[21] == 22;
    assert IP[22] == 14 && IIP[13] == 23;
    assert IP[23] == 6 && IIP[5] == 24;
  }

  lemma IipAfterIpFrom24()
    ensures forall j | 24 <= j < 28 :: IIP[IP[j] - 1] == j + 1
  {
    assert IP[24] == 64 && IIP[63] == 25;
    assert IP[25] == 56 && IIP[55] == 26;
    assert IP[26] == 48 && IIP[47] == 27;
    assert IP[27] == 40 && IIP[39] == 28;
  }

  lemma IipAfterIpFrom28()
    ensures forall j | 28 <= j < 32 :: IIP[IP[j] - 1] == j + 1
  {
    assert IP[28] == 32 && IIP[31] == 29;
    assert IP[29] == 24 && IIP[23] == 30;
    assert IP[30] == 16 && IIP[15] == 31;
    assert IP[31] == 8 && IIP[7] == 32;
  }

  lemma IipAfterIpFrom32()
    ensures forall j | 32 <= j < 36 :: IIP[IP[j] - 1] == j + 1
  {
    assert IP[32] == 57 && IIP[56] == 33;
    assert IP[33] == 49 && IIP[48] == 34;
    assert IP[34] == 41 && IIP[40] == 35;
    assert IP[35] == 33 && IIP[32] == 36;
  }

  lemma IipAfterIpFrom36()
    ensures forall j | 36 <= j < 40 :: IIP[IP[j] - 1] == j + 1
  {
    assert IP[36] == 25 && IIP[24] == 37;
    assert IP[37] == 17 && IIP[16] == 38;
    assert IP[38] == 9 && IIP[8] == 39;
    assert IP[39] == 1 && IIP[0] == 40;
  }

  lemma IipAfterIpFrom40()
    ensures forall j | 40 <= j < 44 :: IIP[IP[j] - 1] == j + 1
  {
    assert IP[40] == 59 && IIP[58] == 41;
    assert IP[41] == 51 && IIP[50] == 42;
    assert IP[42] == 43 && IIP[42] == 43;
    assert IP[43] == 35 && IIP[34] == 44;
  }

  lemma IipAfterIpFrom44()
    ensures forall j | 44 <= j < 48 :: IIP[IP[j] - 1] == j + 1
  {
    assert IP[44] == 27 && IIP[26] == 45;
    assert IP[45] == 19 && IIP[18] == 46;
    assert IP[46] == 11 && IIP[10] == 47;
    assert IP[47] == 3 && IIP[2] == 48;
  }

  lemma IipAfterIpFrom48()
    ensures forall j | 48 <= j < 52 :: IIP[IP[j] - 1] == j + 1
  {
    assert IP[48] == 61 && IIP[60] == 49;
    assert IP[49] == 53 && IIP[52] == 50;
    assert IP[50] == 45 && IIP[44] == 51;
    assert IP[51] == 37 && IIP[36] == 52;
  }

  lemma IipAfterIpFrom52()
    ensures forall j | 52 <= j < 56 :: IIP[IP[j] - 1] == j + 1
  {
    assert IP[52] == 29 && IIP[28] == 53;
    assert IP[53] == 21 && IIP[20] == 54;
    assert IP[54] == 13 && IIP[12] == 55;
    assert IP[55] == 5 && IIP[4] == 56;
  }

  lemma IipAfterIpFrom56()
    ensures forall j | 56 <= j < 60 :: IIP[IP[j] - 1] == j + 1
  {
    assert IP[56] == 63 && IIP[62] == 57;
    assert IP[57] == 55 && IIP[54] == 58;
    assert IP[58] == 47 && IIP[46] == 59;
    assert IP[59] == 39 && IIP[38] == 60;
  }

  lemma IipAfterIpFrom60()
    ensures forall j | 60 <= j < 64 :: IIP[IP[j] - 1] == j + 1
  {
    assert IP[60] == 31 && IIP[30] == 61;
    assert IP[61] == 23 && IIP[22] == 62;
    assert IP[62] == 15 && IIP[14] == 63;
    assert IP[63] == 7 && IIP[6] == 64;
  }

  /** IP and IIP are inverse permutations: the bit that IIP puts at j is the
      one that IP moves away from j, and the other way round. */
  lemma IpIipInverse()
    ensures forall j | 0 <= j < 64 :: IP[IIP[j] - 1] == j + 1
    ensures forall j | 0 <= j < 64 :: IIP[IP[j] - 1] == j + 1
  {
    IpAfterIipFrom0();
    IpAfterIipFrom4();
    IpAfterIipFrom8();
    IpAfterIipFrom12();
    IpAfterIipFrom16();
    IpAfterIipFrom20();
    IpAfterIipFrom24();
    IpAfterIipFrom28();
    IpAfterIipFrom32();
    IpAfterIipFrom36();
    IpAfterIipFrom40();
    IpAfterIipFrom44();
    IpAfterIipFrom48();
    IpAfterIipFrom52();
    IpAfterIipFrom56();
    IpAfterIipFrom60();
    IipAfterIpFrom0();
    IipAfterIpFrom4();
    IipAfterIpFrom8();
    IipAfterIpFrom12();
    IipAfterIpFrom16();
    IipAfterIpFrom20();
    IipAfterIpFrom24();
    IipAfterIpFrom28();
    IipAfterIpFrom32();
    IipAfterIpFrom36();
    IipAfterIpFrom40();
    IipAfterIpFrom44();
    IipAfterIpFrom48();
    IipAfterIpFrom52();
    IipAfterIpFrom56();
    IipAfterIpFrom60();
  }
}
