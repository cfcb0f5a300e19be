// des.c `revbit` and `revbyte`: reverse the order of the low bits or bytes
// of a word.  The tester uses them to move between the FIPS bit layout and
// the usual one.

module DesRev {
  import opened HostWords
  import opened DesBits

  /** The value `revbit`'s loop returns when `bits` steps remain, the rest
      of the input is x and the accumulator holds y. */
  function RevBitsFrom(x: nat, bits: nat, y: nat): nat {
    if bits == 0 then y else RevBitsFrom(x / 2, bits - 1, 2 * y + x % 2)
  }

  /** `revbit(x, bits)`. */
  function RevBits(x: nat, bits: nat): nat {
    RevBitsFrom(x, bits, 0)
  }

  /** The value `revbyte`'s loop returns when `bytes` steps remain. */
  function RevBytesFrom(x: nat, bytes: nat, y: nat): nat
    decreases bytes
  {
    if bytes == 0 then y else RevBytesFrom(Shr(x, 8), bytes - 1, y * 256 + Low(x, 8))
  }

  /** `revbyte(x, bytes)`. */
  function RevBytes(x: nat, bytes: nat): nat {
    RevBytesFrom(x, bytes, 0)
  }

  /** `revbit`: shift the low bit of x into y, `bits` times. */
  method RevBit(x0: u64, bits: nat) returns (y: nat)
    requires bits <= 64
    ensures y == RevBits(x0, bits)
  {
    var x: nat := x0;
    var n := bits;
    y := 0;
    while n > 0
      invariant RevBitsFrom(x, n, y) == RevBits(x0, bits)
      decreases n
    {
      n := n - 1;
      y := 2 * y + x % 2;
      x := x / 2;
    }
  }

  /** `revbyte`: shift the low byte of x into y, `bytes` times. */
  method RevByte(x0: u64, bytes: nat) returns (y: nat)
    requires bytes <= 8
    ensures y == RevBytes(x0, bytes)
  {
    var x: nat := x0;
    var n := bytes;
    y := 0;
    while n > 0
      invariant RevBytesFrom(x, n, y) == RevBytes(x0, bytes)
      decreases n
    {
      n := n - 1;
      y := y * 256 + Low(x, 8);
      x := Shr(x, 8);
    }
  }

  // ---- What the loops compute ----------------------------------------

  /** Bit i of the result is bit bits-1-i of the input; above that come
      the accumulator's bits. */
  lemma {:induction false} RevBitsFromBit(x: nat, bits: nat, y: nat, i: nat)
    ensures Bit(RevBitsFrom(x, bits, y), i) ==
      if i < bits then Bit(x, bits - 1 - i) else Bit(y, i - bits)
    decreases bits
  {
    if bits > 0 {
      RevBitsFromBit(x / 2, bits - 1, 2 * y + x % 2, i);
      Halve(x % 2, y);
      if i >= bits {
        assert Bit(2 * y + x % 2, i - bits + 1) == Bit(y, i - bits);
      }
    }
  }

  lemma {:induction false} RevBitsFromBound(x: nat, bits: nat, y: nat)
    ensures RevBitsFrom(x, bits, y) < (y + 1) * Pow2(bits)
    decreases bits
  {
    if bits > 0 {
      var p := Pow2(bits - 1);
      RevBitsFromBound(x / 2, bits - 1, 2 * y + x % 2);
      MulLe(2 * y + x % 2 + 1, 2 * (y + 1), p);
      assert 2 * (y + 1) * p == (y + 1) * Pow2(bits);
    }
  }

  /** `revbit(x, bits)` holds the low `bits` bits of x in reverse order. */
  lemma RevBitsMeaning(x: nat, bits: nat)
    ensures RevBits(x, bits) < Pow2(bits)
    ensures forall i: nat | i < bits :: Bit(RevBits(x, bits), i) == Bit(x, bits - 1 - i)
  {
    RevBitsFromBound(x, bits, 0);
    forall i: nat | i < bits
      ensures Bit(RevBits(x, bits), i) == Bit(x, bits - 1 - i)
    {
      RevBitsFromBit(x, bits, 0, i);
    }
  }

  /** Reversing twice gives back any value of `bits` bits; in particular
      `revbit(revbit(x, 64), 64) == x` for every 64-bit x. */
  lemma RevBitsInvolution(x: nat, bits: nat)
    requires x < Pow2(bits)
    ensures RevBits(RevBits(x, bits), bits) == x
  {
    var r := RevBits(x, bits);
    RevBitsMeaning(x, bits);
    RevBitsMeaning(r, bits);
    forall i: nat | i < bits
      ensures Bit(RevBits(r, bits), i) == Bit(x, i)
    {
      assert Bit(RevBits(r, bits), i) == Bit(r, bits - 1 - i);
    }
    BitsEqual(RevBits(r, bits), x, bits);
  }

  lemma {:induction false} RevBytesFromBit(x: nat, bytes: nat, y: nat, i: nat)
    ensures Bit(RevBytesFrom(x, bytes, y), i) ==
      if i < 8 * bytes then Bit(x, 8 * (bytes - 1 - i / 8) + i % 8)
      else Bit(y, i - 8 * bytes)
    decreases bytes
  {
    if bytes > 0 {
      RevBytesFromBit(Shr(x, 8), bytes - 1, y * 256 + Low(x, 8), i);
      if i < 8 * (bytes - 1) {
        ByteBelow(x, bytes, i);
      } else {
        ByteAbove(x, y, bytes, i);
      }
    }
  }

  lemma ByteBelow(x: nat, bytes: nat, i: nat)
    requires i < 8 * (bytes - 1)
    ensures Bit(Shr(x, 8), 8 * (bytes - 2 - i / 8) + i % 8) ==
      Bit(x, 8 * (bytes - 1 - i / 8) + i % 8)
  {
    ShrBit(x, 8, 8 * (bytes - 2 - i / 8) + i % 8);
  }

  lemma ByteAbove(x: nat, y: nat, bytes: nat, i: nat)
    requires 0 < bytes && 8 * (bytes - 1) <= i
    ensures Bit(y * 256 + Low(x, 8), i - 8 * (bytes - 1)) ==
      if i < 8 * bytes then Bit(x, 8 * (bytes - 1 - i / 8) + i % 8)
      else Bit(y, i - 8 * bytes)
  {
    var j := i - 8 * (bytes - 1);
    Pow2At8();
    PlaceBit(Low(x, 8), y, 8, j);
    if j < 8 {
      LowBit(x, 8, j);
      assert i / 8 == bytes - 1 && i % 8 == j;
    }
  }

  lemma {:induction false} RevBytesFromBound(x: nat, bytes: nat, y: nat)
    ensures RevBytesFrom(x, bytes, y) < (y + 1) * Pow2(8 * bytes)
    decreases bytes
  {
    if bytes > 0 {
      var y' := y * 256 + Low(x, 8);
      var p := Pow2(8 * (bytes - 1));
      RevBytesFromBound(Shr(x, 8), bytes - 1, y');
      Pow2At8();
      Pow2Add(8, 8 * (bytes - 1));
      MulLe(y' + 1, 256 * (y + 1), p);
      assert 256 * (y + 1) * p == (y + 1) * Pow2(8 * bytes);
    }
  }

  /** `revbyte(x, bytes)` holds the low `bytes` bytes of x in reverse
      order, each byte's bits kept in place. */
  lemma RevBytesMeaning(x: nat, bytes: nat)
    ensures RevBytes(x, bytes) < Pow2(8 * bytes)
    ensures forall i: nat | i < 8 * bytes ::
      Bit(RevBytes(x, bytes), i) == Bit(x, 8 * (bytes - 1 - i / 8) + i % 8)
  {
    RevBytesFromBound(x, bytes, 0);
    forall i: nat | i < 8 * bytes
      ensures Bit(RevBytes(x, bytes), i) == Bit(x, 8 * (bytes - 1 - i / 8) + i % 8)
    {
      RevBytesFromBit(x, bytes, 0, i);
    }
  }

  /** Reversing the bytes twice gives back any value of `bytes` bytes; in
      particular `revbyte(revbyte(x, 8), 8) == x` for every 64-bit x. */
  lemma RevBytesInvolution(x: nat, bytes: nat)
    requires x < Pow2(8 * bytes)
    ensures RevBytes(RevBytes(x, bytes), bytes) == x
  {
    var r := RevBytes(x, bytes);
    RevBytesMeaning(x, bytes);
    RevBytesMeaning(r, bytes);
    forall i: nat | i < 8 * bytes
      ensures Bit(RevBytes(r, bytes), i) == Bit(x, i)
    {
      var j := 8 * (bytes - 1 - i / 8) + i % 8;
      assert j / 8 == bytes - 1 - i / 8 && j % 8 == i % 8;
      assert Bit(RevBytes(r, bytes), i) == Bit(r, j);
    }
    BitsEqual(RevBytes(r, bytes), x, 8 * bytes);
  }

  /** `revbit(revbit(x, 64), 64) == x` and `revbyte(revbyte(x, 8), 8) == x`
      for every 64-bit x. */
  lemma WordInvolutions(x: u64)
    ensures RevBits(RevBits(x, 64), 64) == x
    ensures RevBytes(RevBytes(x, 8), 8) == x
  {
    Pow2Values();
    RevBitsInvolution(x, 64);
    RevBytesInvolution(x, 8);
  }
}
