// des.c's two fast ciphers against `des_encrypt`: `des_fast_encrypt`
// keeps the block as two 32-bit halves and does two rounds per pass
// without the swaps, and `des_fast_encrypt_sched` does the same with
// the subkeys `des_sched` stored. Both return `des_encrypt`'s block.

module DesFast {
  import opened HostWords
  import opened DesBits
  import opened DesTables
  import opened DesSelect
  import opened DesInit
  import opened DesCipher
  import opened DesLaws
  import opened DesFeistel

  /** The 64-bit block whose low half is h.lo and whose high half is
      h.hi. */
  function Word(h: Halves): nat {
    h.lo + Shl(h.hi, HalfBits)
  }

  /** Both halves fit in 32 bits. */
  predicate Fit(h: Halves) {
    h.lo < Pow2(HalfBits) && h.hi < Pow2(HalfBits)
  }

  /** `l = block&mask(32), r = block>>32` splits a 64-bit block into
      halves that make it up again. */
  lemma WordHalves(c: nat)
    requires c < 0x1_0000_0000_0000_0000
    ensures Fit(ToHalves(c)) && Word(ToHalves(c)) == c
  {
    Pow2Values();
    Halved(c);
  }

  /** The step's XOR on a block made of halves is the fast loop's
      `l ^= f(r, k)`. */
  lemma MixWord(h: Halves, sk: nat, sp: seq<nat>)
    requires |sp| == 8 * 64 && Fits(sp, HalfBits) && Fit(h)
    ensures Xor(h.lo, F(h.hi, sk, sp), WordBits) < Pow2(HalfBits)
    ensures Mix(Word(h), sk, sp) == Word(Halves(Xor(h.lo, F(h.hi, sk, sp), WordBits), h.hi))
  {
    Pow2Values();
    FBound(h.hi, sk, sp, HalfBits);
    Below(h.lo, h.hi, HalfBits, HalfBits);
    Pow2Add(HalfBits, HalfBits);
    PlaceShl(Word(h), h.lo, h.hi, HalfBits);
    var c, f := Word(h), F(h.hi, sk, sp);
    assert c == h.lo + Shl(h.hi, HalfBits);
    assert Shr(c, HalfBits) == h.hi;
    assert Mix(c, sk, sp) == Xor(c, f, WordBits);
    XorLow(c, h.lo, h.hi, f, HalfBits, WordBits);
    var x := Xor(h.lo, f, WordBits);
    assert Word(Halves(x, h.hi)) == x + Shl(h.hi, HalfBits);
  }

  /** `rot(block, 32, 64)` swaps the halves. */
  lemma SwapWord(lo: nat, hi: nat)
    requires lo < Pow2(HalfBits) && hi < Pow2(HalfBits)
    ensures Rot(Word(Halves(lo, hi)), HalfBits, WordBits) == Word(Halves(hi, lo))
  {
    RotSwap(Word(Halves(lo, hi)), lo, hi, HalfBits, WordBits);
  }

  /** Two swapped steps of `des_encrypt` are one pass of the fast loop. */
  lemma PassWord(h: Halves, k0: nat, k1: nat, sp: seq<nat>)
    requires |sp| == 8 * 64 && Fits(sp, HalfBits) && Fit(h)
    ensures Fit(FastPass(h, k0, k1, sp))
    ensures Step(Step(Word(h), k0, true, sp), k1, true, sp) == Word(FastPass(h, k0, k1, sp))
  {
    var l1 := Xor(h.lo, F(h.hi, k0, sp), WordBits);
    MixWord(h, k0, sp);
    SwapWord(l1, h.hi);
    MixWord(Halves(h.hi, l1), k1, sp);
    var r1 := Xor(h.hi, F(l1, k1, sp), WordBits);
    SwapWord(r1, l1);
  }

  /** `des_encrypt`'s last two steps, the second without the swap, are the
      last pass of the fast loop followed by `l << 32 | r`. */
  lemma LastPassWord(h: Halves, k0: nat, k1: nat, sp: seq<nat>)
    requires |sp| == 8 * 64 && Fits(sp, HalfBits) && Fit(h)
    ensures Step(Step(Word(h), k0, true, sp), k1, false, sp) == FromHalves(FastPass(h, k0, k1, sp))
  {
    var l1 := Xor(h.lo, F(h.hi, k0, sp), WordBits);
    MixWord(h, k0, sp);
    SwapWord(l1, h.hi);
    MixWord(Halves(h.hi, l1), k1, sp);
    var r1 := Xor(h.hi, F(l1, k1, sp), WordBits);
    JoinValue(l1, r1, HalfBits, WordBits);
  }

  /** Steps n and n + 1 of `des_encrypt`, n + 2 < 16, both swap. */
  lemma TwoSteps(c: nat, keys: seq<nat>, n: nat, m: nat, sp: seq<nat>)
    requires |keys| == 16 && |sp| == 8 * 64 && m == n + 2 <= 14
    ensures EncSteps(c, keys, m, sp) == Step(Step(EncSteps(c, keys, n, sp), keys[n], true, sp), keys[n + 1], true, sp)
  {
    assert EncSteps(c, keys, n + 1, sp) == Step(EncSteps(c, keys, n, sp), keys[n], true, sp);
  }

  /** The first 2j steps of `des_encrypt` (j < 8) are the first j passes of
      `des_fast_encrypt_sched`'s loop with the same subkeys. */
  lemma {:induction false} SchedSteps(h: Halves, keys: seq<nat>, j: nat, sp: seq<nat>)
    requires |keys| == 16 && |sp| == 8 * 64 && Fits(sp, HalfBits) && Fit(h) && j <= 7
    ensures Fit(SchedTo(h, keys, j, sp))
    ensures EncSteps(Word(h), keys, 2 * j, sp) == Word(SchedTo(h, keys, j, sp))
  {
    if j > 0 {
      var i := j - 1;
      SchedSteps(h, keys, i, sp);
      SchedToStep(h, keys, i, sp);
      PassSteps(Word(h), SchedTo(h, keys, i, sp), keys, 2 * i, 2 * j, sp);
    }
  }

  /** Once the first n steps of `des_encrypt` have reached the block made
      of g, the next two reach the block made of the loop's next pass
      from g. */
  lemma PassSteps(c: nat, g: Halves, keys: seq<nat>, n: nat, m: nat, sp: seq<nat>)
    requires |keys| == 16 && |sp| == 8 * 64 && Fits(sp, HalfBits) && Fit(g)
    requires m == n + 2 <= 14 && EncSteps(c, keys, n, sp) == Word(g)
    ensures Fit(FastPass(g, keys[n], keys[n + 1], sp))
    ensures EncSteps(c, keys, m, sp) == Word(FastPass(g, keys[n], keys[n + 1], sp))
  {
    PassWord(g, keys[n], keys[n + 1], sp);
    TwoSteps(c, keys, n, m, sp);
  }

  /** All sixteen steps of `des_encrypt` are the eight passes of the loop
      followed by `l << 32 | r`. */
  lemma SchedAllSteps(h: Halves, keys: seq<nat>, sp: seq<nat>)
    requires |keys| == 16 && |sp| == 8 * 64 && Fits(sp, HalfBits) && Fit(h)
    ensures EncSteps(Word(h), keys, 16, sp) == FromHalves(SchedTo(h, keys, 8, sp))
  {
    SchedSteps(h, keys, 7, sp);
    SchedToStep(h, keys, 7, sp);
    LastSteps(Word(h), SchedTo(h, keys, 7, sp), keys, sp);
  }

  /** Once the first 14 steps of `des_encrypt` have reached the block made
      of g, the last two reach `l << 32 | r` of the loop's last pass. */
  lemma LastSteps(c: nat, g: Halves, keys: seq<nat>, sp: seq<nat>)
    requires |keys| == 16 && |sp| == 8 * 64 && Fits(sp, HalfBits) && Fit(g)
    requires EncSteps(c, keys, 14, sp) == Word(g)
    ensures EncSteps(c, keys, 16, sp) == FromHalves(FastPass(g, keys[14], keys[15], sp))
  {
    LastPassWord(g, keys[14], keys[15], sp);
    assert EncSteps(c, keys, 15, sp) == Step(Word(g), keys[14], true, sp);
  }

  /** `des_fast_encrypt_sched` with the subkeys of the key returns
      `des_encrypt`'s block, for sound tables. */
  lemma SchedIsEncryptWith(block: nat, key: nat, l: Luts, keys: seq<nat>)
    requires Sound(l) && Subkeys(keys, key, l) && block < 0x1_0000_0000_0000_0000
    ensures FastEncryptSched(block, keys, l) == Encrypt(block, key, l)
  {
    var c := Sel64(block, l.ipf);
    EncryptIs(block, key, l, keys);
    WordHalves(c);
    SchedAllSteps(ToHalves(c), keys, l.sp);
  }

  /** `des_fast_encrypt(block, key) == des_encrypt(block, key)` once
      `des_init` has built the tables. */
  lemma FastIsEncrypt(block: u64, key: u64, l: Luts)
    requires Ready(l)
    ensures FastEncrypt(block, key, l) == Encrypt(block, key, l)
  {
    ReadySound(l);
    ScheduleSubkeys(key, l);
    SchedIsEncryptWith(block, key, l, Schedule(key, l));
    SchedIsFastEncrypt(block, key, l);
  }

  /** The fast loop reading the subkeys from a schedule makes the same
      passes as the one computing them with `ks`. */
  lemma {:induction false} SchedIsFast(h: Halves, sched: seq<nat>, key: nat, j: nat, l: Luts)
    requires Sized(l) && Subkeys(sched, key, l) && j <= 8
    ensures SchedTo(h, sched, j, l.sp) == FastTo(h, Sel64(key, l.pc1f), j, l.pc2f, l.sp)
  {
    if j > 0 {
      var i, k := j - 1, Sel64(key, l.pc1f);
      SchedIsFast(h, sched, key, i, l);
      FastToStep(h, k, i, l.pc2f, l.sp);
      SchedToStep(h, sched, i, l.sp);
      SchedPass(FastTo(h, k, i, l.pc2f, l.sp), sched, key, 2 * i, l);
    }
  }

  /** One pass with subkeys n and n + 1 read from the schedule is the pass
      with them computed by `ks`. */
  lemma SchedPass(g: Halves, sched: seq<nat>, key: nat, n: nat, l: Luts)
    requires Sized(l) && Subkeys(sched, key, l) && n + 1 < 16
    ensures FastPass(g, sched[n], sched[n + 1], l.sp)
         == FastPass(g, Ks(n, Sel64(key, l.pc1f), l.pc2f), Ks(n + 1, Sel64(key, l.pc1f), l.pc2f), l.sp)
  {
    assert sched[n] == Ks(n, Sel64(key, l.pc1f), l.pc2f);
    assert sched[n + 1] == Ks(n + 1, Sel64(key, l.pc1f), l.pc2f);
  }

  /** `des_fast_encrypt_sched` with the schedule `des_sched` stores for a
      key returns `des_fast_encrypt`'s block for that key. */
  lemma SchedIsFastEncrypt(block: nat, key: nat, l: Luts)
    requires Sized(l)
    ensures FastEncryptSched(block, Schedule(key, l), l) == FastEncrypt(block, key, l)
  {
    ScheduleSubkeys(key, l);
    SchedIsFast(ToHalves(Sel64(block, l.ipf)), Schedule(key, l), key, 8, l);
  }

  /** Hence `des_fast_encrypt_sched` with `des_sched`'s schedule encrypts
      like `des_encrypt`, and `des_decrypt` undoes it. */
  lemma SchedIsEncrypt(block: u64, key: u64, l: Luts)
    requires Ready(l)
    ensures FastEncryptSched(block, Schedule(key, l), l) == Encrypt(block, key, l)
    ensures Decrypt(FastEncryptSched(block, Schedule(key, l), l), key, l) == block
  {
    SchedIsFastEncrypt(block, key, l);
    FastIsEncrypt(block, key, l);
    DecryptEncrypt(block, key, l);
  }
}
