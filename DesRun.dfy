// des.c's routines as code over the tables a `DesLuts` object holds, each
// proved to compute its specification in DesCipher.

module DesRun {
  import opened HostWords
  import opened DesBits
  import opened DesTables
  import opened DesSelect
  import opened DesInit
  import opened DesCipher
  import opened DesLaws

  /** `bit_select(x, T, 64)` for T = PC1, IP or IIP. */
  method BitSelect64(x: u64, table: array<nat>) returns (r: u64)
    requires table.Length == 8 * Pow2(8)
    ensures r == Sel64(x, table[..])
  {
    Pow2At8();
    var v := BitSelectFast(x, table, 8, 64);
    assert v == Sel64(x, table[..]);
    r := v;
  }

  /** `bit_select(x, PC2, 56)`. */
  method BitSelect56(x: u64, table: array<nat>) returns (r: u64)
    requires table.Length == 8 * Pow2(7)
    ensures r == Sel56(x, table[..])
  {
    var v := BitSelectFast(x, table, 8, 56);
    assert v == Sel56(x, table[..]);
    r := v;
  }

  /** `ks(n, key)`. */
  method DesKs(n: nat, key: u64, pc2f: array<nat>) returns (k: u64)
    requires n < 16 && pc2f.Length == 8 * Pow2(7)
    ensures k == Ks(n, key, pc2f[..])
  {
    ShiftSchedule(n);
    var amount := Shift(n);
    var lo := Rot(Low(key, 28), amount, 28);
    var hi := Rot(Shr(key, 28), amount, 28);
    Pow2Values();
    k := BitSelect56(Or(lo, Shl(hi, 28), 64), pc2f);
  }

  /** `f(half, subkey)`: eight S-box lookups through SP, one per six-bit
      group of the expanded half XOR the subkey. */
  method DesF(half: u64, subkey: u64, sp: array<nat>) returns (y: nat)
    requires sp.Length == 8 * 64
    ensures y == F(half, subkey, sp[..])
  {
    var x := Expand(half);
    var k: nat := subkey;
    var i := 0;
    y := 0;
    while i < 8
      invariant i <= 8
      invariant FFrom(x, k, i, y, sp[..]) == F(half, subkey, sp[..])
      decreases 8 - i
    {
      y := Or(y, sp[SpIndex(x, k, i)], 64);
      i := i + 1;
      x := Shr(x, 4);
      k := Shr(k, 6);
    }
  }

  /** `x == q * 2^32 + r` with `r < 2^32` fixes the quotient and the
      remainder by 2^32. */
  lemma DivModOf(x: nat, q: nat, r: nat)
    requires r < 0x1_0000_0000 && x == q * 0x1_0000_0000 + r
    ensures x / 0x1_0000_0000 == q && x % 0x1_0000_0000 == r
  {
  }

  /** `block & mask(32)`: the low 32 bits of the block. */
  function LowHalf(x: u64): (r: u64)
    ensures r < 0x1_0000_0000 && r == x % 0x1_0000_0000
    ensures r == Low(x, 32)
  {
    Pow2Values();
    Halved(x);
    DivModOf(x, Shr(x, 32), Low(x, 32));
    Low(x, 32)
  }

  /** `block >> 32`: the high 32 bits of the block. */
  function HighHalf(x: u64): (r: u64)
    ensures r < 0x1_0000_0000 && r == x / 0x1_0000_0000
    ensures r == Shr(x, 32)
  {
    Pow2Values();
    Halved(x);
    DivModOf(x, Shr(x, 32), Low(x, 32));
    Shr(x, 32)
  }

  /** `a ^ b` on 64-bit words. */
  function Xor64(a: u64, b: nat): (r: u64)
    ensures r == Xor(a, b, 64)
  {
    Pow2Values();
    Xor(a, b, 64)
  }

  /** `l << 32 | r` on 64-bit words: for 32-bit halves, the block whose
      high half is `lo` and whose low half is `hi`. */
  function Join(lo: u64, hi: u64): (r: u64)
    ensures lo < 0x1_0000_0000 && hi < 0x1_0000_0000 ==>
      r == hi + lo * 0x1_0000_0000 && LowHalf(r) == hi && HighHalf(r) == lo
    ensures r == FromHalves(Halves(lo, hi))
  {
    Pow2Values();
    var r := FromHalves(Halves(lo, hi));
    if lo < 0x1_0000_0000 && hi < 0x1_0000_0000 then
      JoinValue(lo, hi, 32, 64);
      DivModOf(r, lo, hi);
      r
    else
      r
  }

  /** `des_round(block, key, round, swap)`. */
  method DesRound(block: u64, key: u64, round: nat, swap: bool, t: DesLuts) returns (b: u64)
    requires t.Valid() && round < 16
    ensures b == Round(block, key, round, swap, t.Contents())
  {
    var k := BitSelect64(key, t.pc1f);
    var x := BitSelect64(block, t.ipf);
    var sk := DesKs(round, k, t.pc2f);
    var fx := DesF(HighHalf(x), sk, t.sp);
    Pow2Values();
    var x1: u64 := Xor(x, fx, 64);
    var x2 := if swap then Rot(x1, 32, 64) else x1;
    b := BitSelect64(x2, t.iipf);
  }

  /** `des_encrypt(block, key)`: rounds 0 to 15, all but the last swapping
      the halves. */
  method DesEncrypt(block: u64, key: u64, t: DesLuts) returns (b: u64)
    requires t.Valid()
    ensures b == Encrypt(block, key, t.Contents())
  {
    Pow2At8();
    b := block;
    var i := 0;
    while i < 16
      invariant i <= 16 && b == EncryptTo(block, key, i, t.Contents())
    {
      b := DesRound(b, key, i, 15 - i != 0, t);
      i := i + 1;
    }
  }

  /** `des_decrypt(block, key)`: rounds 15 down to 0, all but the last
      swapping the halves. */
  method DesDecrypt(block: u64, key: u64, t: DesLuts) returns (b: u64)
    requires t.Valid()
    ensures b == Decrypt(block, key, t.Contents())
  {
    Pow2At8();
    b := block;
    var i := 16;
    while i > 0
      invariant i <= 16 && DecryptFrom(b, key, i, t.Contents()) == Decrypt(block, key, t.Contents())
    {
      i := i - 1;
      b := DesRound(b, key, i, i != 0, t);
    }
  }

  /** The body of the loops of `des_fast_encrypt` and
      `des_fast_encrypt_sched`: `l ^= f(r, k0); r ^= f(l, k1);`. */
  method DesPass(lo0: u64, hi0: u64, k0: u64, k1: u64, sp: array<nat>) returns (lo: u64, hi: u64)
    requires sp.Length == 8 * 64
    ensures Halves(lo, hi) == FastPass(Halves(lo0, hi0), k0, k1, sp[..])
  {
    var f0 := DesF(hi0, k0, sp);
    lo := Xor64(lo0, f0);
    var f1 := DesF(lo, k1, sp);
    hi := Xor64(hi0, f1);
  }

  /** The loop of `des_fast_encrypt`: eight passes with the subkeys `ks`
      computes from the PC1-selected key k. */
  method FastPasses(lo0: u64, hi0: u64, k: u64, t: DesLuts) returns (lo: u64, hi: u64)
    requires t.Valid()
    ensures Halves(lo, hi) == FastTo(Halves(lo0, hi0), k, 8, t.Contents().pc2f, t.Contents().sp)
  {
    lo, hi := lo0, hi0;
    var i := 0;
    while i < 8
      invariant i <= 8 && Halves(lo, hi) == FastTo(Halves(lo0, hi0), k, i, t.Contents().pc2f, t.Contents().sp)
    {
      lo, hi := FastStep(Halves(lo0, hi0), lo, hi, k, i, t);
      i := i + 1;
    }
  }

  /** Pass i of `des_fast_encrypt`'s loop, subkeys 2i and 2i + 1. */
  method FastStep(ghost h0: Halves, lo0: u64, hi0: u64, k: u64, i: nat, t: DesLuts) returns (lo: u64, hi: u64)
    requires t.Valid() && i < 8
    requires Halves(lo0, hi0) == FastTo(h0, k, i, t.Contents().pc2f, t.Contents().sp)
    ensures Halves(lo, hi) == FastTo(h0, k, i + 1, t.Contents().pc2f, t.Contents().sp)
  {
    var k0 := DesKs(2 * i, k, t.pc2f);
    var k1 := DesKs(2 * i + 1, k, t.pc2f);
    FastToStep(h0, k, i, t.Contents().pc2f, t.Contents().sp);
    lo, hi := DesPass(lo0, hi0, k0, k1, t.sp);
  }

  /** `des_fast_encrypt(block, key)`: IP once, eight passes of two Feistel
      rounds on the halves, IIP once. */
  method DesFastEncrypt(block: u64, key: u64, t: DesLuts) returns (b: u64)
    requires t.Valid()
    ensures b == FastEncrypt(block, key, t.Contents())
  {
    var k := BitSelect64(key, t.pc1f);
    var x := BitSelect64(block, t.ipf);
    var lo, hi := FastPasses(LowHalf(x), HighHalf(x), k, t);
    b := BitSelect64(Join(lo, hi), t.iipf);
  }

  /** `des_sched(key, sched)`: the 16 subkeys of the key. */
  method DesSched(key: u64, sched: array<u64>, t: DesLuts)
    requires t.Valid() && sched.Length == 16
    modifies sched
    ensures sched[..] == Schedule(key, t.Contents())
  {
    var k := BitSelect64(key, t.pc1f);
    var i := 0;
    while i < 16
      invariant i <= 16
      invariant forall j | 0 <= j < i :: sched[j] == Ks(j, k, t.pc2f[..])
    {
      SchedEntry(k, sched, i, t);
      i := i + 1;
    }
    ScheduleIs(sched[..], key, k, t.Contents());
  }

  lemma ScheduleIs(s: seq<nat>, key: nat, k: nat, l: Luts)
    requires Sized(l) && k == Sel64(key, l.pc1f)
    requires |s| == 16 && forall j | 0 <= j < 16 :: s[j] == Ks(j, k, l.pc2f)
    ensures s == Schedule(key, l)
  {
  }

  /** `sched[i] = ks(i, key)`, the entries before i left as they are. */
  method SchedEntry(k: u64, sched: array<u64>, i: nat, t: DesLuts)
    requires t.Valid() && sched.Length == 16 && i < 16
    requires forall j | 0 <= j < i :: sched[j] == Ks(j, k, t.pc2f[..])
    modifies sched
    ensures forall j | 0 <= j < i + 1 :: sched[j] == Ks(j, k, t.pc2f[..])
  {
    var v := DesKs(i, k, t.pc2f);
    sched[i] := v;
  }

  /** The loop of `des_fast_encrypt_sched`: eight passes with the subkeys
      read from sched. */
  method SchedPasses(lo0: u64, hi0: u64, sched: array<u64>, t: DesLuts) returns (lo: u64, hi: u64)
    requires t.Valid() && sched.Length == 16
    ensures Halves(lo, hi) == SchedTo(Halves(lo0, hi0), sched[..], 8, t.Contents().sp)
  {
    lo, hi := lo0, hi0;
    var i := 0;
    while i < 8
      invariant i <= 8 && Halves(lo, hi) == SchedTo(Halves(lo0, hi0), sched[..], i, t.Contents().sp)
    {
      lo, hi := SchedStep(Halves(lo0, hi0), lo, hi, sched, i, t);
      i := i + 1;
    }
  }

  /** Pass i of `des_fast_encrypt_sched`'s loop, subkeys sched[2i] and
      sched[2i + 1]. */
  method SchedStep(ghost h0: Halves, lo0: u64, hi0: u64, sched: array<u64>, i: nat, t: DesLuts) returns (lo: u64, hi: u64)
    requires t.Valid() && sched.Length == 16 && i < 8
    requires Halves(lo0, hi0) == SchedTo(h0, sched[..], i, t.Contents().sp)
    ensures Halves(lo, hi) == SchedTo(h0, sched[..], i + 1, t.Contents().sp)
  {
    ghost var keys: seq<nat> := sched[..];
    var k0, k1 := sched[2 * i], sched[2 * i + 1];
    assert k0 == keys[2 * i] && k1 == keys[2 * i + 1];
    SchedToStep(h0, keys, i, t.Contents().sp);
    lo, hi := DesPass(lo0, hi0, k0, k1, t.sp);
  }

  /** `des_fast_encrypt_sched(block, sched)`: `des_fast_encrypt` with the
      subkeys read from sched. */
  method DesFastEncryptSched(block: u64, sched: array<u64>, t: DesLuts) returns (b: u64)
    requires t.Valid() && sched.Length == 16
    ensures b == FastEncryptSched(block, sched[..], t.Contents())
  {
    var x := BitSelect64(block, t.ipf);
    var lo, hi := SchedPasses(LowHalf(x), HighHalf(x), sched, t);
    b := BitSelect64(Join(lo, hi), t.iipf);
  }
}
