// Word-level laws of des.c's building blocks: `rot` on a word and on its
// halves, XOR confined to the low half, and the tables that `des_init`
// builds being what the round structure relies on (SP entries fit in 32
// bits, IIP undoes IP).

module DesLaws {
  import opened HostWords
  import opened DesBits
  import opened DesTables
  import opened DesSelect
  import opened DesInit
  import opened DesCipher

  // ---- rot -----------------------------------------------------------

  /** `rot(x, n, bits)` of a bits-bit word moves its low n bits above the
      other bits - n: the `|` never meets two set bits. */
  lemma RotValue(x: nat, n: nat, bits: nat)
    requires n <= bits <= 64 && x < Pow2(bits)
    ensures Shr(x, n) < Pow2(bits - n)
    ensures Rot(x, n, bits) == Shr(x, n) + Shl(Low(x, n), bits - n)
    ensures Rot(x, n, bits) < Pow2(bits)
  {
    var k, s, w := bits - n, Shr(x, n), Low(x, n);
    ShrBound(x, n, bits);
    Below(s, w, k, n);
    assert k + n == bits;
    Pow2Le(bits, 64);
    OrDisjoint(s, w, k, 64);
  }

  /** Rotating a bits-bit word by n and then by bits - n gives it back. */
  lemma RotInverse(x: nat, n: nat, bits: nat)
    requires n <= bits <= 64 && x < Pow2(bits)
    ensures Rot(Rot(x, n, bits), bits - n, bits) == x
  {
    var k := bits - n;
    RotValue(x, n, bits);
    var y := Rot(x, n, bits);
    RotValue(y, k, bits);
    PlaceShl(y, Shr(x, n), Low(x, n), k);
    var j := bits - k;
    assert j == n;
    assert Rot(y, k, bits) == Low(x, n) + Shl(Shr(x, n), n);
    Split(x, n);
  }

  /** `rot(v, k, 2k)` swaps the halves of a 2k-bit word v. */
  lemma RotSwap(v: nat, lo: nat, hi: nat, k: nat, n: nat)
    requires v == lo + Shl(hi, k)
    requires n == k + k <= 64 && lo < Pow2(k) && hi < Pow2(k)
    ensures v < Pow2(n)
    ensures Rot(v, k, n) == hi + Shl(lo, k)
  {
    Below(lo, hi, k, k);
    RotHalf(v, k, n);
    PlaceShl(v, lo, hi, k);
  }

  /** `rot(x, k, 2k)` moves the low half of a 2k-bit word up. */
  lemma RotHalf(x: nat, k: nat, n: nat)
    requires n == k + k <= 64 && x < Pow2(n)
    ensures Rot(x, k, n) == Shr(x, k) + Shl(Low(x, k), k)
  {
    RotValue(x, k, n);
    var m := n - k;
    assert m == k;
  }

  /** Place, with the high part moved up by `Shl`. */
  lemma PlaceShl(v: nat, a: nat, b: nat, k: nat)
    requires v == a + Shl(b, k) && a < Pow2(k)
    ensures Low(v, k) == a && Shr(v, k) == b
  {
    Place(a, b, k);
  }

  /** A value below 2^k plus one below 2^j moved up k bits is below
      2^(k + j). */
  lemma Below(a: nat, b: nat, k: nat, j: nat)
    requires a < Pow2(k) && b < Pow2(j)
    ensures a + Shl(b, k) < Pow2(k + j)
  {
    var p := Pow2(k);
    Pow2Add(j, k);
    MulLe(b + 1, Pow2(j), p);
    assert a + b * p < (b + 1) * p;
  }

  // ---- XOR and OR within a half -------------------------------------

  /** XOR and OR of two values below 2^k stay below 2^k. */
  lemma XorBelow(a: nat, b: nat, k: nat, n: nat)
    requires k <= n && a < Pow2(k) && b < Pow2(k)
    ensures Xor(a, b, n) < Pow2(k)
  {
    forall i: nat | k <= i < n
      ensures Bit(Xor(a, b, n), i) == 0
    {
      XorBit(a, b, n, i);
      BitZero(a, k, i);
      BitZero(b, k, i);
    }
    BitsBelow(Xor(a, b, n), k, n);
  }

  lemma OrBelow(a: nat, b: nat, k: nat, n: nat)
    requires k <= n && a < Pow2(k) && b < Pow2(k)
    ensures Or(a, b, n) < Pow2(k)
  {
    forall i: nat | k <= i < n
      ensures Bit(Or(a, b, n), i) == 0
    {
      OrBit(a, b, n, i);
      BitZero(a, k, i);
      BitZero(b, k, i);
    }
    BitsBelow(Or(a, b, n), k, n);
  }

  /** XOR with a value below 2^k changes only the low k bits of an
      n-bit word c = lo + Shl(hi, k). */
  lemma XorLow(c: nat, lo: nat, hi: nat, f: nat, k: nat, n: nat)
    requires c == lo + Shl(hi, k)
    requires k <= n && lo < Pow2(k) && f < Pow2(k) && c < Pow2(n)
    ensures Xor(lo, f, n) < Pow2(k)
    ensures Xor(c, f, n) == Xor(lo, f, n) + Shl(hi, k)
  {
    XorBelow(lo, f, k, n);
    var w := Xor(lo, f, n) + Shl(hi, k);
    assert w < Pow2(n) by {
      PlaceBelow(lo, Xor(lo, f, n), hi, k, n);
    }
    XorLowBits(c, lo, hi, f, k, n);
    BitsEqual(Xor(c, f, n), w, n);
  }

  /** XorLowBit at every bit of the word. */
  lemma XorLowBits(c: nat, lo: nat, hi: nat, f: nat, k: nat, n: nat)
    requires c == lo + Shl(hi, k)
    requires k <= n && lo < Pow2(k) && f < Pow2(k)
    ensures forall i: nat | i < n :: Bit(Xor(c, f, n), i) == Bit(Xor(lo, f, n) + Shl(hi, k), i)
  {
    forall i: nat | i < n
      ensures Bit(Xor(c, f, n), i) == Bit(Xor(lo, f, n) + Shl(hi, k), i)
    {
      XorLowBit(c, lo, hi, f, k, n, i);
    }
  }

  lemma XorLowBit(c: nat, lo: nat, hi: nat, f: nat, k: nat, n: nat, i: nat)
    requires c == lo + Shl(hi, k)
    requires k <= n && lo < Pow2(k) && f < Pow2(k) && i < n
    ensures Xor(lo, f, n) < Pow2(k)
    ensures Bit(Xor(c, f, n), i) == Bit(Xor(lo, f, n) + Shl(hi, k), i)
  {
    var x := Xor(lo, f, n);
    XorBelow(lo, f, k, n);
    XorBit(c, f, n, i);
    assert c == lo + hi * Pow2(k);
    PlaceBit(lo, hi, k, i);
    assert x + Shl(hi, k) == x + hi * Pow2(k);
    PlaceBit(x, hi, k, i);
    if i < k {
      XorBit(lo, f, n, i);
    } else {
      BitZero(f, k, i);
      var b := Bit(hi, i - k);
      assert Bit(c, i) == b && Bit(f, i) == 0;
      assert (b + 0) % 2 == b;
    }
  }

  /** Replacing the low k bits of a word below 2^n keeps it below 2^n. */
  lemma PlaceBelow(a: nat, a': nat, b: nat, k: nat, n: nat)
    requires a < Pow2(k) && a' < Pow2(k) && k <= n && a + Shl(b, k) < Pow2(n)
    ensures a' + Shl(b, k) < Pow2(n)
  {
    var p, q := Pow2(k), Pow2(n - k);
    Pow2Add(n - k, k);
    assert Pow2(n) == q * p;
    if b >= q {
      MulLe(q, b, p);
      assert false;
    }
    MulLe(b + 1, q, p);
    assert (b + 1) * p == b * p + p;
  }

  /** XOR with a value below 2^k leaves the bits from k up alone. */
  lemma HighKept(c: nat, f: nat, k: nat, n: nat)
    requires k <= n && c < Pow2(n) && f < Pow2(k)
    ensures Shr(Xor(c, f, n), k) == Shr(c, k)
  {
    var lo, hi := Low(c, k), Shr(c, k);
    Split(c, k);
    XorLow(c, lo, hi, f, k, n);
    var x := Xor(lo, f, n);
    assert Xor(c, f, n) == x + hi * Pow2(k);
    Place(x, hi, k);
  }

  /** A word is its low half plus its high half moved up 32 bits. */
  lemma Halved(x: nat)
    requires x < Pow2(64)
    ensures Low(x, 32) < Pow2(32) && Shr(x, 32) < Pow2(32)
    ensures x == Low(x, 32) + Shl(Shr(x, 32), 32)
  {
    ShrBound(x, 32, 64);
    Split(x, 32);
  }

  /** `l << k | r` of two k-bit halves is r plus l moved up k bits. */
  lemma JoinValue(lo: nat, hi: nat, k: nat, n: nat)
    requires n == k + k <= 64 && lo < Pow2(k) && hi < Pow2(k)
    ensures Or(Shl(lo, k), hi, n) == hi + Shl(lo, k)
  {
    Pow2Add(k, k);
    MulLe(lo + 1, Pow2(k), Pow2(k));
    assert hi + lo * Pow2(k) < (lo + 1) * Pow2(k);
    OrDisjoint(hi, lo, k, n);
    forall i: nat | i < n
      ensures Bit(Or(Shl(lo, k), hi, n), i) == Bit(Or(hi, Shl(lo, k), n), i)
    {
      OrBit(Shl(lo, k), hi, n, i);
      OrBit(hi, Shl(lo, k), n, i);
    }
    BitsEqual(Or(Shl(lo, k), hi, n), Or(hi, Shl(lo, k), n), n);
  }

  // ---- The tables des_init builds ------------------------------------

  /** Every entry of sp fits in m bits. */
  predicate Fits(sp: seq<nat>, m: nat) {
    forall k | 0 <= k < |sp| :: sp[k] < Pow2(m)
  }

  /** Each SP entry is a selection through the 32 entries of P, so it fits
      in the 32-bit half that `f` returns. */
  lemma SpBuiltFits(sp: seq<nat>, sb: seq<seq<Nibble>>)
    requires Shaped(sb) && SpBuilt(sp, sb)
    ensures Fits(sp, 32)
  {
    assert |P| == 32;
    forall k | 0 <= k < |sp|
      ensures sp[k] < Pow2(|P|)
    {
      SelectFromBound(Shl(sb[k / 64][k % 64], 4 * (k / 64)), P, 0);
    }
  }

  /** `f` ORs together SP entries: it fits in the bits they fit in. */
  lemma FBound(half: nat, subkey: nat, sp: seq<nat>, m: nat)
    requires |sp| == 8 * 64 && m <= 64 && Fits(sp, m)
    ensures F(half, subkey, sp) < Pow2(m)
  {
    FFromBound(Expand(half), subkey, 0, 0, sp, m);
  }

  lemma {:induction false} FFromBound(x: nat, subkey: nat, i: nat, y: nat, sp: seq<nat>, m: nat)
    requires |sp| == 8 * 64 && i <= 8 && m <= 64 && Fits(sp, m) && y < Pow2(m)
    ensures FFrom(x, subkey, i, y, sp) < Pow2(m)
    decreases 8 - i
  {
    if i < 8 {
      var e := sp[SpIndex(x, subkey, i)];
      var y' := Or(y, e, 64);
      assert FFrom(x, subkey, i, y, sp) == FFrom(Shr(x, 4), Shr(subkey, 6), i + 1, y', sp);
      OrBelow(y, e, m, 64);
      FFromBound(Shr(x, 4), Shr(subkey, 6), i + 1, y', sp, m);
    }
  }

  /** Selecting through p and then through q gives the word back when q
      undoes p: output bit j of q is input bit j of p. */
  lemma SelectInverse(x: nat, p: seq<Pos>, q: seq<Pos>)
    requires |p| == 64 && |q| == 64 && x < Pow2(64)
    requires forall j | 0 <= j < 64 :: p[q[j] - 1] == j + 1
    ensures Select(Select(x, p), q) == x
  {
    var y := Select(x, p);
    SelectMeaning(x, p);
    SelectMeaning(y, q);
    forall j: nat | j < 64
      ensures Bit(Select(y, q), j) == Bit(x, j)
    {
      assert p[q[j] - 1] == j + 1;
    }
    BitsEqual(Select(y, q), x, 64);
  }

  /** IIP undoes IP on 64-bit words, and IP undoes IIP. */
  lemma IpIipWords(x: nat)
    requires x < Pow2(64)
    ensures Select(Select(x, IP), IIP) == x
    ensures Select(Select(x, IIP), IP) == x
  {
    IpIipInverse();
    assert |IP| == 64 && |IIP| == 64;
    SelectInverse(x, IP, IIP);
    SelectInverse(x, IIP, IP);
  }

  /** The selections through the IP and IIP lookup tables are the slow
      selections through IP and IIP. */
  lemma FastIpIip(x: nat, l: Luts)
    requires Built(l.ipf, IP, 8, 8) && Built(l.iipf, IIP, 8, 8)
    ensures Sel64(x, l.ipf) == Select(x, IP)
    ensures Sel64(x, l.iipf) == Select(x, IIP)
  {
    assert |IP| == 64 && |IIP| == 64;
    FastIsSlow(x, l.ipf, IP, 8, 8, 64);
    FastIsSlow(x, l.iipf, IIP, 8, 8, 64);
  }
}
