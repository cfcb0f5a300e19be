// des.c cipher: the key schedule `ks`, the round function `f`, one round
// `des_round`, the 16-round `des_encrypt` and `des_decrypt`, the Feistel
// form `des_fast_encrypt`, the precomputed schedule `des_sched` and
// `des_fast_encrypt_sched`, all in the configuration where `bit_select`
// is `bit_select_fast` over the tables `des_init` builds.  Words are the
// 64-bit `unsigned long long` and, on the LP64 hosts the tester targets,
// the equally wide `unsigned long`.

module DesCipher {
  import opened HostWords
  import opened DesBits
  import opened DesTables
  import opened DesSelect
  import opened DesInit

  /** The tables have the sizes their C declarations give them. */
  predicate Sized(l: Luts) {
    |l.sp| == 8 * 64 && |l.pc1f| == 8 * Pow2(8) && |l.pc2f| == 8 * Pow2(7) &&
    |l.ipf| == 8 * Pow2(8) && |l.iipf| == 8 * Pow2(8)
  }

  /** `bit_select(x, T, 64)` for T = PC1, IP or IIP: 8 chunks of 8 bits. */
  function Sel64(x: nat, table: seq<nat>): (r: nat)
    requires |table| == 8 * Pow2(8)
    ensures r < 0x1_0000_0000_0000_0000
  {
    FastFromBound(x, table, 8, 8, 0, 0);
    Pow2Values();
    FastSelect(x, table, 8, 64)
  }

  /** `bit_select(x, PC2, 56)`: 8 chunks of 7 bits. */
  function Sel56(x: nat, table: seq<nat>): (r: nat)
    requires |table| == 8 * Pow2(7)
    ensures r < 0x1_0000_0000_0000_0000
  {
    FastFromBound(x, table, 8, 7, 0, 0);
    Pow2Values();
    FastSelect(x, table, 8, 56)
  }

  /** `rot(x, n, bits)`: `x>>n | (x&mask(n))<<bits-n`, in 64 bits. */
  function Rot(x: nat, n: nat, bits: nat): (r: nat)
    requires n <= bits
    ensures r < 0x1_0000_0000_0000_0000
  {
    Pow2Values();
    Or(Shr(x, n), Shl(Low(x, n), bits - n), 64)
  }

  // ---- Key schedule --------------------------------------------------

  /** The left shifts of the DES key schedule, round by round, as FIPS
      PUB 46-3 lists them. */
  const FipsShifts: seq<nat> := [1, 1, 2, 2, 2, 2, 2, 2, 1, 2, 2, 2, 2, 2, 2, 1]

  function Sum(s: seq<nat>): nat {
    if s == [] then 0 else Sum(s[..|s| - 1]) + s[|s| - 1]
  }

  /** `2*n - n/8 ^ (n==0 | n==15)`: how far `ks` rotates the key halves in
      round n.  Both operands are below 32, so 8-bit XOR is exact. */
  function Shift(n: nat): nat
    requires n < 16
  {
    Xor(2 * n - n / 8, if n == 0 || n == 15 then 1 else 0, 8)
  }

  /** The rotation of round n is the total of the FIPS shifts of rounds 0
      to n, so every round's subkey is computed from the PC1 key directly;
      it never exceeds the 28 bits of a key half. */
  lemma ShiftSchedule(n: nat)
    requires n < 16
    ensures Shift(n) == Sum(FipsShifts[..n + 1])
    ensures 1 <= Shift(n) <= 28
  {
    ShiftValue(n);
    ShiftSums(n);
  }

  /** The totals of the FIPS shifts: 1, then 2 per round, less one from
      round 8 on and two in round 15. */
  lemma {:induction false} ShiftSums(n: nat)
    requires n < 16
    ensures Sum(FipsShifts[..n + 1]) == if n == 0 then 1 else if n == 15 then 28 else 2 * n - n / 8
  {
    if n == 0 {
      assert FipsShifts[..1] == [1];
    } else {
      ShiftSums(n - 1);
      assert FipsShifts[..n + 1][..n] == FipsShifts[..n];
      assert FipsShifts[n] == if n == 1 || n == 8 || n == 15 then 1 else 2;
    }
  }

  /** The XOR in `Shift` flips bit 0 of 0 and of 29 and leaves the other
      rounds' amounts alone. */
  lemma ShiftValue(n: nat)
    requires n < 16
    ensures Shift(n) == if n == 0 then 1 else if n == 15 then 28 else 2 * n - n / 8
  {
    Pow2At8();
    if n == 0 {
      XorOne(0, 8);
    } else if n == 15 {
      XorOne(29, 8);
    } else {
      XorZero(2 * n - n / 8, 8);
    }
  }

  lemma {:induction false} XorZero(a: nat, n: nat)
    requires a < Pow2(n)
    ensures Xor(a, 0, n) == a
    decreases n
  {
    if n > 0 {
      XorZero(a / 2, n - 1);
    }
  }

  lemma XorOne(a: nat, n: nat)
    requires 0 < n && a < Pow2(n)
    ensures Xor(a, 1, n) == if a % 2 == 0 then a + 1 else a - 1
  {
    XorZero(a / 2, n - 1);
  }

  /** `ks(n, key)`: the subkey of round n, from the PC1-selected key. */
  function Ks(n: nat, key: nat, pc2f: seq<nat>): (r: nat)
    requires n < 16 && |pc2f| == 8 * Pow2(7)
    ensures r < 0x1_0000_0000_0000_0000
  {
    ShiftSchedule(n);
    var lo := Rot(Low(key, 28), Shift(n), 28);
    var hi := Rot(Shr(key, 28), Shift(n), 28);
    Sel56(Or(lo, Shl(hi, 28), 64), pc2f)
  }

  // ---- The round function --------------------------------------------

  /** `half>>31 | half<<1 | half<<33`, in 64 bits: the expansion E read
      six bits at a time, four bits apart. */
  function Expand(half: nat): nat {
    Or(Or(Shr(half, 31), Shl(half, 1), 64), Shl(half, 33), 64)
  }

  /** What `f` returns once boxes i and on are still to do, with x and
      subkey already shifted down to box i and y ORed so far. */
  function FFrom(x: nat, subkey: nat, i: nat, y: nat, sp: seq<nat>): nat
    requires |sp| == 8 * 64 && i <= 8
    decreases 8 - i
  {
    if i == 8 then y
    else FFrom(Shr(x, 4), Shr(subkey, 6), i + 1, Or(y, sp[SpIndex(x, subkey, i)], 64), sp)
  }

  /** `i*64 + ((x ^ subkey) & 0x3F)`: where `SP[i][(x ^ subkey) & 0x3F]`
      lies in the table stored row after row. */
  function SpIndex(x: nat, subkey: nat, i: nat): (k: nat)
    requires i < 8
    ensures 64 * i <= k < 64 * i + 64
  {
    assert Pow2(6) == 64;
    64 * i + Low(Xor(x, subkey, 64), 6)
  }

  /** `f(half, subkey)`. */
  function F(half: nat, subkey: nat, sp: seq<nat>): nat
    requires |sp| == 8 * 64
  {
    FFrom(Expand(half), subkey, 0, 0, sp)
  }

  // ---- Rounds --------------------------------------------------------

  /** The width of a block and of each of its halves.  Named, so that the
      solver does not expand the bit recursions 32 or 64 levels deep
      whenever it unfolds a round. */
  const WordBits: nat := 64
  const HalfBits: nat := 32

  /** `block ^= f(block>>32, subkey)`: the high half through `f`, XORed
      into the block. */
  function Mix(c: nat, subkey: nat, sp: seq<nat>): (d: nat)
    requires |sp| == 8 * 64
    ensures d < 0x1_0000_0000_0000_0000
  {
    Pow2Values();
    Xor(c, F(Shr(c, HalfBits), subkey, sp), WordBits)
  }

  /** The middle of `des_round`: `Mix`, then `if(swap) block =
      rot(block,32,64)`. */
  function Step(c: nat, subkey: nat, swap: bool, sp: seq<nat>): (r: nat)
    requires |sp| == 8 * 64
    ensures r < 0x1_0000_0000_0000_0000
  {
    var d := Mix(c, subkey, sp);
    if swap then Rot(d, HalfBits, WordBits) else d
  }

  /** `des_round(block, key, round, swap)`: PC1 on the key, IP on the
      block, the step with subkey `ks(round, key)`, IIP. */
  function Round(block: nat, key: nat, round: nat, swap: bool, l: Luts): (r: nat)
    requires Sized(l) && round < 16
    ensures r < 0x1_0000_0000_0000_0000
  {
    var k := Sel64(key, l.pc1f);
    var b := Sel64(block, l.ipf);
    Sel64(Step(b, Ks(round, k, l.pc2f), swap, l.sp), l.iipf)
  }

  /** The block after the first n rounds of `des_encrypt`; round i swaps
      the halves unless i is 15. */
  function EncryptTo(block: nat, key: nat, n: nat, l: Luts): nat
    requires Sized(l) && n <= 16
  {
    if n == 0 then block else Round(EncryptTo(block, key, n - 1, l), key, n - 1, n - 1 != 15, l)
  }

  /** `des_encrypt(block, key)`. */
  function Encrypt(block: nat, key: nat, l: Luts): nat
    requires Sized(l)
  {
    EncryptTo(block, key, 16, l)
  }

  /** What `des_decrypt` returns when rounds n - 1 down to 0 remain; round
      i swaps the halves unless i is 0. */
  function DecryptFrom(block: nat, key: nat, n: nat, l: Luts): nat
    requires Sized(l) && n <= 16
    decreases n
  {
    if n == 0 then block else DecryptFrom(Round(block, key, n - 1, n - 1 != 0, l), key, n - 1, l)
  }

  /** `des_decrypt(block, key)`. */
  function Decrypt(block: nat, key: nat, l: Luts): nat
    requires Sized(l)
  {
    DecryptFrom(block, key, 16, l)
  }

  // ---- The Feistel form ----------------------------------------------

  /** The halves `l` (low) and `r` (high) of a block after IP. */
  datatype Halves = Halves(lo: nat, hi: nat)

  /** One pass of `des_fast_encrypt`'s loop with subkeys k0 and k1:
      `l ^= f(r, k0); r ^= f(l, k1);`. */
  function FastPass(h: Halves, k0: nat, k1: nat, sp: seq<nat>): Halves
    requires |sp| == 8 * 64
  {
    var lo := Xor(h.lo, F(h.hi, k0, sp), WordBits);
    Halves(lo, Xor(h.hi, F(lo, k1, sp), WordBits))
  }

  /** The halves after j passes of `des_fast_encrypt`, subkeys from `ks`. */
  function FastTo(h: Halves, key: nat, j: nat, pc2f: seq<nat>, sp: seq<nat>): Halves
    requires |pc2f| == 8 * Pow2(7) && |sp| == 8 * 64 && j <= 8
  {
    if j == 0 then h
    else
      var n := 2 * (j - 1);
      FastPass(FastTo(h, key, j - 1, pc2f, sp), Ks(n, key, pc2f), Ks(n + 1, key, pc2f), sp)
  }

  /** The halves after j passes of `des_fast_encrypt_sched`. */
  function SchedTo(h: Halves, sched: seq<nat>, j: nat, sp: seq<nat>): Halves
    requires |sched| == 16 && |sp| == 8 * 64 && j <= 8
  {
    if j == 0 then h
    else
      var n := 2 * (j - 1);
      FastPass(SchedTo(h, sched, j - 1, sp), sched[n], sched[n + 1], sp)
  }

  /** `l = block&mask(32), r = block>>32`. */
  function ToHalves(b: nat): Halves {
    Halves(Low(b, HalfBits), Shr(b, HalfBits))
  }

  /** `l << 32 | r`, in 64 bits. */
  function FromHalves(h: Halves): nat {
    Or(Shl(h.lo, HalfBits), h.hi, WordBits)
  }

  /** `des_fast_encrypt(block, key)`. */
  function FastEncrypt(block: nat, key: nat, l: Luts): nat
    requires Sized(l)
  {
    var k := Sel64(key, l.pc1f);
    var b := Sel64(block, l.ipf);
    Sel64(FromHalves(FastTo(ToHalves(b), k, 8, l.pc2f, l.sp)), l.iipf)
  }

  /** The 16 subkeys `des_sched` stores. */
  function Schedule(key: nat, l: Luts): (s: seq<nat>)
    requires Sized(l)
    ensures |s| == 16
  {
    var k := Sel64(key, l.pc1f);
    seq(16, i requires 0 <= i < 16 => Ks(i, k, l.pc2f))
  }

  /** `des_fast_encrypt_sched(block, sched)`. */
  function FastEncryptSched(block: nat, sched: seq<nat>, l: Luts): nat
    requires Sized(l) && |sched| == 16
  {
    var b := Sel64(block, l.ipf);
    Sel64(FromHalves(SchedTo(ToHalves(b), sched, 8, l.sp)), l.iipf)
  }

  /** One more pass of `des_fast_encrypt`'s loop. */
  lemma FastToStep(h: Halves, key: nat, i: nat, pc2f: seq<nat>, sp: seq<nat>)
    requires |pc2f| == 8 * Pow2(7) && |sp| == 8 * 64 && i < 8
    ensures FastTo(h, key, i + 1, pc2f, sp) ==
      FastPass(FastTo(h, key, i, pc2f, sp), Ks(2 * i, key, pc2f), Ks(2 * i + 1, key, pc2f), sp)
  {
    assert 2 * (i + 1 - 1) == 2 * i;
  }

  /** One more pass of `des_fast_encrypt_sched`'s loop. */
  lemma SchedToStep(h: Halves, sched: seq<nat>, i: nat, sp: seq<nat>)
    requires |sched| == 16 && |sp| == 8 * 64 && i < 8
    ensures SchedTo(h, sched, i + 1, sp) == FastPass(SchedTo(h, sched, i, sp), sched[2 * i], sched[2 * i + 1], sp)
  {
  }
}
