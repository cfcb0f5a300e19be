// Bit-level view of the `unsigned long long` words that des.c shifts,
// masks, XORs and ORs.  Words are naturals; every operator is defined by
// recursion on the bit position, so that its laws follow by induction.

module DesBits {
  import opened HostWords

  /** `x >> n`. */
  function Shr(x: nat, n: nat): nat {
    if n == 0 then x else Shr(x / 2, n - 1)
  }

  /** `x >> i & 1`: bit i of x. */
  function Bit(x: nat, i: nat): (b: nat)
    ensures b < 2
  {
    Shr(x, i) % 2
  }

  /** `x & mask(n)`: the low n bits of x. */
  function Low(x: nat, n: nat): (r: nat)
    ensures r < Pow2(n)
  {
    if n == 0 then 0 else x % 2 + 2 * Low(x / 2, n - 1)
  }

  /** `a ^ b` on an n-bit word. */
  function Xor(a: nat, b: nat, n: nat): (r: nat)
    ensures r < Pow2(n)
  {
    if n == 0 then 0 else (a % 2 + b % 2) % 2 + 2 * Xor(a / 2, b / 2, n - 1)
  }

  /** `a | b` on an n-bit word. */
  function Or(a: nat, b: nat, n: nat): (r: nat)
    ensures r < Pow2(n)
  {
    if n == 0 then 0
    else (if a % 2 == 1 || b % 2 == 1 then 1 else 0) + 2 * Or(a / 2, b / 2, n - 1)
  }

  /** `x << n` before any truncation to a word. */
  function Shl(x: nat, n: nat): nat {
    x * Pow2(n)
  }

  // ---- Powers of two -------------------------------------------------

  lemma {:induction false} Pow2Add(a: nat, b: nat)
    ensures Pow2(a + b) == Pow2(a) * Pow2(b)
    decreases a
  {
    if a > 0 {
      Pow2Add(a - 1, b);
      assert Pow2(a + b) == 2 * Pow2(a - 1 + b);
    }
  }

  lemma Pow2Values()
    ensures Pow2(4) == 16 && Pow2(6) == 64 && Pow2(7) == 128 && Pow2(8) == 256
    ensures Pow2(28) == 0x1000_0000 && Pow2(32) == 0x1_0000_0000
    ensures Pow2(56) == 0x100_0000_0000_0000
    ensures Pow2(64) == 0x1_0000_0000_0000_0000
  {
    assert Pow2(4) == 16;
    Pow2Add(4, 4);
    Pow2Add(4, 2);
    Pow2Add(4, 3);
    Pow2Add(8, 8);
    Pow2Add(16, 8);
    Pow2Add(24, 4);
    Pow2Add(16, 16);
    Pow2Add(28, 28);
    Pow2Add(32, 32);
  }

  lemma Pow2At8()
    ensures Pow2(8) == 256
  {
  }

  lemma MulLe(a: nat, b: nat, c: nat)
    requires a <= b
    ensures a * c <= b * c
  {
  }

  // ---- Shifts and bits -----------------------------------------------

  lemma {:induction false} ShrShr(x: nat, n: nat, m: nat)
    ensures Shr(Shr(x, n), m) == Shr(x, n + m)
    decreases n
  {
    if n > 0 {
      ShrShr(x / 2, n - 1, m);
    }
  }

  /** Shifting right by n moves bit n + i to position i. */
  lemma ShrBit(x: nat, n: nat, i: nat)
    ensures Bit(Shr(x, n), i) == Bit(x, n + i)
  {
    ShrShr(x, n, i);
  }

  lemma {:induction false} ShrZero(n: nat)
    ensures Shr(0, n) == 0
  {
    if n > 0 {
      ShrZero(n - 1);
    }
  }

  /** A value below 2^m keeps m - n bits after a shift by n. */
  lemma {:induction false} ShrBound(x: nat, n: nat, m: nat)
    requires n <= m && x < Pow2(m)
    ensures Shr(x, n) < Pow2(m - n)
    decreases n
  {
    if n > 0 {
      ShrBound(x / 2, n - 1, m - 1);
    }
  }

  /** Bits at or above n of a value below 2^n are clear. */
  lemma {:induction false} BitZero(x: nat, n: nat, i: nat)
    requires x < Pow2(n) && n <= i
    ensures Bit(x, i) == 0
    decreases n
  {
    if n == 0 {
      ShrZero(i);
    } else {
      BitZero(x / 2, n - 1, i - 1);
    }
  }

  /** x is its low n bits plus the rest shifted up by n. */
  lemma {:induction false} Split(x: nat, n: nat)
    ensures x == Low(x, n) + Shr(x, n) * Pow2(n)
    decreases n
  {
    if n > 0 {
      Split(x / 2, n - 1);
      assert Shr(x, n) * Pow2(n) == 2 * (Shr(x / 2, n - 1) * Pow2(n - 1));
    }
  }

  /** Masking keeps exactly the bits below n. */
  lemma {:induction false} LowBit(x: nat, n: nat, i: nat)
    ensures Bit(Low(x, n), i) == if i < n then Bit(x, i) else 0
    decreases n
  {
    if n == 0 {
      ShrZero(i);
    } else {
      var rest := Low(x / 2, n - 1);
      Halve(x % 2, rest);
      assert Low(x, n) % 2 == x % 2 && Low(x, n) / 2 == rest;
      if i > 0 {
        LowBit(x / 2, n - 1, i - 1);
        assert Bit(Low(x, n), i) == Bit(rest, i - 1);
      }
    }
  }

  /** The low part a < 2^k and the high part b of a + b * 2^k are
      recovered by a mask and a shift. */
  lemma {:induction false} Place(a: nat, b: nat, k: nat)
    requires a < Pow2(k)
    ensures Low(a + b * Pow2(k), k) == a
    ensures Shr(a + b * Pow2(k), k) == b
    decreases k
  {
    if k > 0 {
      var m := b * Pow2(k - 1);
      assert b * Pow2(k) == 2 * m;
      Halve(a, m);
      Place(a / 2, b, k - 1);
    }
  }

  lemma Halve(a: nat, m: nat)
    ensures (a + 2 * m) % 2 == a % 2 && (a + 2 * m) / 2 == a / 2 + m
  {
  }

  /** Bit i of a + b * 2^k, a < 2^k, comes from a below k and from b above. */
  lemma PlaceBit(a: nat, b: nat, k: nat, i: nat)
    requires a < Pow2(k)
    ensures Bit(a + b * Pow2(k), i) == if i < k then Bit(a, i) else Bit(b, i - k)
  {
    var v := a + b * Pow2(k);
    Place(a, b, k);
    Split(v, k);
    if i < k {
      LowBit(v, k, i);
    } else {
      ShrBit(v, k, i - k);
    }
  }

  /** Two values below 2^n with the same n low bits are equal. */
  lemma {:induction false} BitsEqual(x: nat, y: nat, n: nat)
    requires x < Pow2(n) && y < Pow2(n)
    requires forall i: nat | i < n :: Bit(x, i) == Bit(y, i)
    ensures x == y
    decreases n
  {
    if n > 0 {
      assert Bit(x, 0) == Bit(y, 0);
      forall i: nat | i < n - 1
        ensures Bit(x / 2, i) == Bit(y / 2, i)
      {
        assert Bit(x, i + 1) == Bit(y, i + 1);
      }
      BitsEqual(x / 2, y / 2, n - 1);
    }
  }

  /** A value below 2^m whose bits n..m-1 are clear is below 2^n. */
  lemma BitsBelow(x: nat, n: nat, m: nat)
    requires n <= m && x < Pow2(m)
    requires forall i: nat | n <= i < m :: Bit(x, i) == 0
    ensures x < Pow2(n)
  {
    Pow2Le(n, m);
    forall i: nat | i < m
      ensures Bit(x, i) == Bit(Low(x, n), i)
    {
      LowBit(x, n, i);
    }
    BitsEqual(x, Low(x, n), m);
  }

  // ---- Bitwise operators ---------------------------------------------

  lemma {:induction false} XorBit(a: nat, b: nat, n: nat, i: nat)
    ensures Bit(Xor(a, b, n), i) == if i < n then (Bit(a, i) + Bit(b, i)) % 2 else 0
    decreases n
  {
    if n == 0 {
      ShrZero(i);
    } else if i > 0 {
      XorBit(a / 2, b / 2, n - 1, i - 1);
    }
  }

  lemma {:induction false} OrBit(a: nat, b: nat, n: nat, i: nat)
    ensures Bit(Or(a, b, n), i) ==
      if i < n && (Bit(a, i) == 1 || Bit(b, i) == 1) then 1 else 0
    decreases n
  {
    if n == 0 {
      ShrZero(i);
    } else if i > 0 {
      OrBit(a / 2, b / 2, n - 1, i - 1);
    }
  }

  /** XOR-ing the same word twice gives back the first. */
  lemma XorTwice(a: nat, b: nat, n: nat)
    requires a < Pow2(n)
    ensures Xor(Xor(a, b, n), b, n) == a
  {
    forall i: nat | i < n
      ensures Bit(Xor(Xor(a, b, n), b, n), i) == Bit(a, i)
    {
      XorBit(Xor(a, b, n), b, n, i);
      XorBit(a, b, n, i);
    }
    BitsEqual(Xor(Xor(a, b, n), b, n), a, n);
  }

  /** OR of a value below 2^k with a multiple of 2^k is their sum. */
  lemma OrDisjoint(a: nat, b: nat, k: nat, n: nat)
    requires a < Pow2(k) && a + b * Pow2(k) < Pow2(n)
    ensures Or(a, b * Pow2(k), n) == a + b * Pow2(k)
  {
    forall i: nat | i < n
      ensures Bit(Or(a, b * Pow2(k), n), i) == Bit(a + b * Pow2(k), i)
    {
      OrBit(a, b * Pow2(k), n, i);
      PlaceBit(a, b, k, i);
      PlaceBit(0, b, k, i);
      if i >= k {
        BitZero(a, k, i);
      }
      ShrZero(i);
    }
    BitsEqual(Or(a, b * Pow2(k), n), a + b * Pow2(k), n);
  }
}
