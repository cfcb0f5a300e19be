// The Feistel structure of des.c's ciphers: `des_decrypt` undoes
// `des_encrypt` and the other way round, `des_fast_encrypt` computes the
// same block as `des_encrypt`, and `des_fast_encrypt_sched` with the
// subkeys `des_sched` stores computes the same block as
// `des_fast_encrypt`.

module DesFeistel {
  import opened HostWords
  import opened DesBits
  import opened DesTables
  import opened DesSelect
  import opened DesInit
  import opened DesCipher
  import opened DesLaws

  /** What the round structure needs of the tables: the sizes of their
      declarations, SP entries within a 32-bit half, and IIP undoing IP on
      64-bit words. */
  predicate Sound(l: Luts) {
    Sized(l) && Fits(l.sp, 32) &&
    (forall x: nat | x < 0x1_0000_0000_0000_0000 :: Sel64(Sel64(x, l.ipf), l.iipf) == x) &&
    (forall x: nat | x < 0x1_0000_0000_0000_0000 :: Sel64(Sel64(x, l.iipf), l.ipf) == x)
  }

  /** The tables `des_init` builds are sound. */
  lemma ReadySound(l: Luts)
    requires Ready(l)
    ensures Sound(l)
  {
    SpBuiltFits(l.sp, STable());
    forall x: nat | x < 0x1_0000_0000_0000_0000
      ensures Sel64(Sel64(x, l.ipf), l.iipf) == x
      ensures Sel64(Sel64(x, l.iipf), l.ipf) == x
    {
      Pow2Values();
      IpIipWords(x);
      FastIpIip(x, l);
      FastIpIip(Select(x, IP), l);
      FastIpIip(Select(x, IIP), l);
    }
  }

  // ---- Rounds between IP and IIP -------------------------------------

  /** keys holds the 16 subkeys `ks` computes from the PC1-selected key. */
  predicate Subkeys(keys: seq<nat>, key: nat, l: Luts)
    requires Sized(l)
  {
    |keys| == 16 && forall r | 0 <= r < 16 :: keys[r] == Ks(r, Sel64(key, l.pc1f), l.pc2f)
  }

  /** `des_sched` stores those subkeys. */
  lemma ScheduleSubkeys(key: nat, l: Luts)
    requires Sized(l)
    ensures Subkeys(Schedule(key, l), key, l)
  {
  }

  /** `des_encrypt`'s first n rounds between IP and IIP, subkey i of
      round i. */
  function EncSteps(c: nat, keys: seq<nat>, n: nat, sp: seq<nat>): (r: nat)
    requires |keys| == 16 && |sp| == 8 * 64 && n <= 16
    ensures 0 < n ==> r < 0x1_0000_0000_0000_0000
  {
    if n == 0 then c else Step(EncSteps(c, keys, n - 1, sp), keys[n - 1], n - 1 != 15, sp)
  }

  /** `des_decrypt`'s rounds n - 1 down to 0 between IP and IIP. */
  function DecSteps(c: nat, keys: seq<nat>, n: nat, sp: seq<nat>): (r: nat)
    requires |keys| == 16 && |sp| == 8 * 64 && n <= 16
    ensures 0 < n ==> r < 0x1_0000_0000_0000_0000
    decreases n
  {
    if n == 0 then c else DecSteps(Step(c, keys[n - 1], n - 1 != 0, sp), keys, n - 1, sp)
  }

  /** A round on a block that came out of IIP: the round's IP undoes that
      IIP, leaving one more step before IIP. */
  lemma RoundAfterIip(e: nat, key: nat, r: nat, swap: bool, l: Luts, keys: seq<nat>)
    requires Sound(l) && Subkeys(keys, key, l) && r < 16 && e < 0x1_0000_0000_0000_0000
    ensures Round(Sel64(e, l.iipf), key, r, swap, l) == Sel64(Step(e, keys[r], swap, l.sp), l.iipf)
  {
    assert Sel64(Sel64(e, l.iipf), l.ipf) == e;
  }

  /** `des_encrypt`'s first n rounds: IP once, n steps, IIP once, because
      each round's IP undoes the IIP of the round before. */
  lemma {:induction false} EncryptSteps(block: nat, key: nat, n: nat, l: Luts, keys: seq<nat>)
    requires Sound(l) && Subkeys(keys, key, l) && block < 0x1_0000_0000_0000_0000 && n <= 16
    ensures EncryptTo(block, key, n, l) == Sel64(EncSteps(Sel64(block, l.ipf), keys, n, l.sp), l.iipf)
  {
    var c := Sel64(block, l.ipf);
    if n > 0 {
      EncryptSteps(block, key, n - 1, l, keys);
      var e, sw := EncSteps(c, keys, n - 1, l.sp), n - 1 != 15;
      RoundAfterIip(e, key, n - 1, sw, l, keys);
      assert EncryptTo(block, key, n, l) == Round(Sel64(e, l.iipf), key, n - 1, sw, l);
      assert EncSteps(c, keys, n, l.sp) == Step(e, keys[n - 1], sw, l.sp);
    } else {
      assert Sel64(c, l.iipf) == block;
    }
  }

  /** A round on a block: IP, one step, IIP, and the next round's IP
      undoes that IIP. */
  lemma RoundStep(block: nat, key: nat, r: nat, swap: bool, l: Luts, keys: seq<nat>)
    requires Sound(l) && Subkeys(keys, key, l) && r < 16
    ensures Round(block, key, r, swap, l) == Sel64(Step(Sel64(block, l.ipf), keys[r], swap, l.sp), l.iipf)
    ensures Round(block, key, r, swap, l) < 0x1_0000_0000_0000_0000
    ensures Sel64(Round(block, key, r, swap, l), l.ipf) == Step(Sel64(block, l.ipf), keys[r], swap, l.sp)
  {
    var d := Step(Sel64(block, l.ipf), keys[r], swap, l.sp);
    assert Sel64(Sel64(d, l.iipf), l.ipf) == d;
  }

  /** `des_decrypt` with rounds n - 1 down to 0 left: IP once, the steps,
      IIP once. */
  lemma {:induction false} DecryptSteps(block: nat, key: nat, n: nat, l: Luts, keys: seq<nat>)
    requires Sound(l) && Subkeys(keys, key, l) && block < 0x1_0000_0000_0000_0000 && n <= 16
    ensures DecryptFrom(block, key, n, l) == Sel64(DecSteps(Sel64(block, l.ipf), keys, n, l.sp), l.iipf)
    decreases n
  {
    if n > 0 {
      RoundStep(block, key, n - 1, n - 1 != 0, l, keys);
      DecryptSteps(Round(block, key, n - 1, n - 1 != 0, l), key, n - 1, l, keys);
    }
  }

  // ---- The Feistel argument ------------------------------------------

  /** The step's XOR touches only the low half and reads only the high
      half, so doing it twice gives the block back. */
  lemma MixTwice(c: nat, sk: nat, sp: seq<nat>)
    requires |sp| == 8 * 64 && Fits(sp, 32) && c < 0x1_0000_0000_0000_0000
    ensures Mix(Mix(c, sk, sp), sk, sp) == c
  {
    Pow2Values();
    var hi := Shr(c, 32);
    var f := F(hi, sk, sp);
    FBound(hi, sk, sp, 32);
    var d := Mix(c, sk, sp);
    assert d == Xor(c, f, 64);
    HighKept(c, f, 32, 64);
    assert Mix(d, sk, sp) == Xor(d, f, 64);
    XorTwice(c, f, 64);
  }

  /** Rotating by half a word twice gives the word back. */
  lemma SwapTwice(d: nat)
    requires d < 0x1_0000_0000_0000_0000
    ensures Rot(Rot(d, 32, 64), 32, 64) == d
  {
    Pow2Values();
    RotInverse(d, 32, 64);
  }

  /** Undoing the first m swapped steps of `des_encrypt` (m < 16): swap
      the halves back, then run `des_decrypt`'s rounds m - 1 down to 0. */
  lemma {:induction false} DecryptUndoes(c: nat, keys: seq<nat>, m: nat, sp: seq<nat>)
    requires |keys| == 16 && |sp| == 8 * 64 && Fits(sp, 32) && c < 0x1_0000_0000_0000_0000 && 1 <= m <= 15
    ensures DecSteps(Rot(EncSteps(c, keys, m, sp), 32, 64), keys, m, sp) == c
  {
    var e := EncSteps(c, keys, m - 1, sp);
    var d := Mix(e, keys[m - 1], sp);
    SwapTwice(d);
    MixTwice(e, keys[m - 1], sp);
    if m > 1 {
      DecryptUndoes(c, keys, m - 1, sp);
    }
  }

  /** Running the first m swapped steps of `des_encrypt` after
      `des_decrypt`'s rounds m - 1 down to 0 leaves the halves swapped. */
  lemma {:induction false} EncryptUndoes(x: nat, keys: seq<nat>, m: nat, sp: seq<nat>)
    requires |keys| == 16 && |sp| == 8 * 64 && Fits(sp, 32) && x < 0x1_0000_0000_0000_0000 && 1 <= m <= 15
    ensures EncSteps(DecSteps(x, keys, m, sp), keys, m, sp) == Rot(x, 32, 64)
    decreases m
  {
    var d := Mix(x, keys[m - 1], sp);
    if m > 1 {
      var y := Rot(d, 32, 64);
      EncryptUndoes(y, keys, m - 1, sp);
      SwapTwice(d);
    }
    MixTwice(x, keys[m - 1], sp);
  }

  /** The sixteen steps of decryption undo the sixteen of encryption. */
  lemma DecStepsEncSteps(c: nat, keys: seq<nat>, sp: seq<nat>)
    requires |keys| == 16 && |sp| == 8 * 64 && Fits(sp, 32) && c < 0x1_0000_0000_0000_0000
    ensures EncSteps(c, keys, 16, sp) < 0x1_0000_0000_0000_0000
    ensures DecSteps(EncSteps(c, keys, 16, sp), keys, 16, sp) == c
  {
    var e15 := EncSteps(c, keys, 15, sp);
    MixTwice(e15, keys[15], sp);
    DecryptUndoes(c, keys, 15, sp);
  }

  /** The sixteen steps of encryption undo the sixteen of decryption. */
  lemma EncStepsDecSteps(c: nat, keys: seq<nat>, sp: seq<nat>)
    requires |keys| == 16 && |sp| == 8 * 64 && Fits(sp, 32) && c < 0x1_0000_0000_0000_0000
    ensures EncSteps(DecSteps(c, keys, 16, sp), keys, 16, sp) == c
  {
    var m := Mix(c, keys[15], sp);
    var x := Rot(m, 32, 64);
    EncryptUndoes(x, keys, 15, sp);
    SwapTwice(m);
    MixTwice(c, keys[15], sp);
  }

  /** `des_encrypt` is IP, the sixteen steps and IIP. */
  lemma EncryptIs(block: nat, key: nat, l: Luts, keys: seq<nat>)
    requires Sound(l) && Subkeys(keys, key, l) && block < 0x1_0000_0000_0000_0000
    ensures Encrypt(block, key, l) == Sel64(EncSteps(Sel64(block, l.ipf), keys, 16, l.sp), l.iipf)
  {
    EncryptSteps(block, key, 16, l, keys);
  }

  /** `des_decrypt` is IP, the sixteen steps in reverse and IIP. */
  lemma DecryptIs(block: nat, key: nat, l: Luts, keys: seq<nat>)
    requires Sound(l) && Subkeys(keys, key, l) && block < 0x1_0000_0000_0000_0000
    ensures Decrypt(block, key, l) == Sel64(DecSteps(Sel64(block, l.ipf), keys, 16, l.sp), l.iipf)
  {
    DecryptSteps(block, key, 16, l, keys);
  }

  /** IIP undoes IP, and IP undoes IIP. */
  lemma IipIp(x: nat, l: Luts)
    requires Sound(l) && x < 0x1_0000_0000_0000_0000
    ensures Sel64(Sel64(x, l.ipf), l.iipf) == x
    ensures Sel64(Sel64(x, l.iipf), l.ipf) == x
  {
  }

  /** Decryption undoes encryption for any sound tables and the subkeys
      of the key. */
  lemma DecryptEncryptWith(block: nat, key: nat, l: Luts, keys: seq<nat>)
    requires Sound(l) && Subkeys(keys, key, l) && block < 0x1_0000_0000_0000_0000
    ensures Decrypt(Encrypt(block, key, l), key, l) == block
  {
    var c := Sel64(block, l.ipf);
    var e := EncSteps(c, keys, 16, l.sp);
    EncryptIs(block, key, l, keys);
    IipIp(e, l);
    DecryptIs(Encrypt(block, key, l), key, l, keys);
    DecStepsEncSteps(c, keys, l.sp);
    IipIp(block, l);
  }

  /** Encryption undoes decryption for any sound tables and the subkeys
      of the key. */
  lemma EncryptDecryptWith(block: nat, key: nat, l: Luts, keys: seq<nat>)
    requires Sound(l) && Subkeys(keys, key, l) && block < 0x1_0000_0000_0000_0000
    ensures Encrypt(Decrypt(block, key, l), key, l) == block
  {
    var c := Sel64(block, l.ipf);
    var d := DecSteps(c, keys, 16, l.sp);
    DecryptIs(block, key, l, keys);
    IipIp(d, l);
    EncryptIs(Decrypt(block, key, l), key, l, keys);
    EncStepsDecSteps(c, keys, l.sp);
    IipIp(block, l);
  }

  /** `des_decrypt` undoes `des_encrypt` with the same key. */
  lemma DecryptEncrypt(block: u64, key: u64, l: Luts)
    requires Ready(l)
    ensures Decrypt(Encrypt(block, key, l), key, l) == block
  {
    ReadySound(l);
    ScheduleSubkeys(key, l);
    DecryptEncryptWith(block, key, l, Schedule(key, l));
  }

  /** `des_encrypt` undoes `des_decrypt` with the same key. */
  lemma EncryptDecrypt(block: u64, key: u64, l: Luts)
    requires Ready(l)
    ensures Encrypt(Decrypt(block, key, l), key, l) == block
  {
    ReadySound(l);
    ScheduleSubkeys(key, l);
    EncryptDecryptWith(block, key, l, Schedule(key, l));
  }
}
