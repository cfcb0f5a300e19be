/** Hexadecimal digits and two-digit byte fields of an Intel HEX record,
    shared by both record readers (ihexread.c and readihex.c define the
    same `nibble` and `hex_byte`) and by the writer. */
module HexDigits {

  /** An `unsigned char` of the image. */
  newtype byte = x: int | 0 <= x < 256

  /** The 23-entry lookup table indexed by `c - '0'` for `'0' <= c <= 'F'`. */
  const NibbleTable: seq<int> :=
    [0, 1, 2, 3, 4, 5, 6, 7, 8, 9,
     -1, -1, -1, -1, -1, -1, -1,
     10, 11, 12, 13, 14, 15]

  /** Upper-case hexadecimal digits only: the readers reject 'a'..'f'. */
  predicate IsHexDigit(c: char) {
    ('0' <= c <= '9') || ('A' <= c <= 'F')
  }

  /** The value of a hexadecimal digit, or -1 for any other character
      (NibbleAgreesWithTable: the same as `nibble`'s table lookup). */
  function Nibble(c: char): (r: int)
    ensures -1 <= r <= 15
    ensures r >= 0 <==> IsHexDigit(c)
  {
    if '0' <= c <= '9' then c as int - '0' as int
    else if 'A' <= c <= 'F' then c as int - 'A' as int + 10
    else -1
  }

  /** `nibble` returns -1 outside '0'..'F' and looks the character up in
      its table inside; that is exactly Nibble. */
  lemma NibbleAgreesWithTable(c: char)
    ensures Nibble(c) == if c < '0' || c > 'F' then -1 else NibbleTable[c as int - '0' as int]
  {
    if '0' <= c <= 'F' {
      var k := c as int - '0' as int;
      assert 0 <= k < 23;
      assert k == 0 || k == 1 || k == 2 || k == 3 || k == 4 || k == 5 || k == 6 || k == 7
          || k == 8 || k == 9 || k == 10 || k == 11 || k == 12 || k == 13 || k == 14 || k == 15
          || k == 16 || k == 17 || k == 18 || k == 19 || k == 20 || k == 21 || k == 22;
    }
  }

  /** C's `hi << k | lo` on two's-complement ints, with `unit` = 2^k and
      `lo` in `[-2^k, 2^k)`: a non-negative `lo` fills the k zero bits left
      by the shift, a negative `lo` has every bit from k upwards set and so
      swallows `hi` entirely. */
  function ShlOr(hi: int, lo: int, unit: nat): int
    requires 0 <= lo + unit && lo < unit
  {
    if lo >= 0 then hi * unit + lo else lo
  }

  /** `hex_byte`: `nibble(p[0]) << 4 | nibble(p[1])`. */
  function HexByte(c0: char, c1: char): (r: int)
    ensures -16 <= r <= 255
  {
    ShlOr(Nibble(c0), Nibble(c1), 16)
  }

  /** `hex_byte` is a byte exactly when both characters are digits, and
      below -1 exactly when only the second one is a digit other than 'F'
      (the -16 | nibble case); otherwise it is -1. */
  lemma HexByteMeaning(c0: char, c1: char)
    ensures HexByte(c0, c1) >= 0 <==> IsHexDigit(c0) && IsHexDigit(c1)
    ensures HexByte(c0, c1) >= 0 ==> HexByte(c0, c1) == 16 * Nibble(c0) + Nibble(c1)
    ensures HexByte(c0, c1) < -1 <==> !IsHexDigit(c0) && IsHexDigit(c1) && c1 != 'F'
    ensures !(HexByte(c0, c1) >= 0 || HexByte(c0, c1) < -1) ==> HexByte(c0, c1) == -1
  {
  }

  /** The running checksum `hex_byte_cksum` is an unsigned char from which
      every parsed field is subtracted. */
  function CksumSub(cksum: nat, v: int): (r: nat)
    ensures r < 256
    ensures r == (cksum - v) % 256
  {
    (cksum - v) % 256
  }

  /** One upper-case digit of `printf("%X")`. */
  function Digit(v: nat): char
    requires v < 16
  {
    if v < 10 then ('0' as int + v) as char else ('A' as int + v - 10) as char
  }

  /** A printed digit is a digit that `nibble` reads back as its value. */
  lemma DigitReads(v: nat)
    requires v < 16
    ensures IsHexDigit(Digit(v)) && Nibble(Digit(v)) == v
  {
  }

  /** `printf("%02X", v)`. */
  function Hex2(v: nat): (s: string)
    requires v < 256
    ensures |s| == 2
  {
    [Digit(v / 16), Digit(v % 16)]
  }

  /** `hex_byte` reads the two printed digits back as the value. */
  lemma Hex2Reads(v: nat)
    requires v < 256
    ensures HexByte(Hex2(v)[0], Hex2(v)[1]) == v
  {
    DigitReads(v / 16);
    DigitReads(v % 16);
    HexByteMeaning(Digit(v / 16), Digit(v % 16));
  }

  /** `printf("%04X", v)`. */
  function Hex4(v: nat): (s: string)
    requires v < 0x10000
    ensures |s| == 4
  {
    Hex2(v / 256) + Hex2(v % 256)
  }

  /** The hexadecimal text of a run of bytes, two digits each. */
  function HexBytes(bs: seq<byte>): (s: string)
    ensures |s| == 2 * |bs|
  {
    if bs == [] then [] else Hex2(bs[0] as nat) + HexBytes(bs[1..])
  }

  /** Every byte of `bs` reads back from its two digits in `HexBytes(bs)`. */
  lemma {:induction false} HexBytesAt(bs: seq<byte>, k: nat)
    requires k < |bs|
    ensures HexByte(HexBytes(bs)[2 * k], HexBytes(bs)[2 * k + 1]) == bs[k] as int
  {
    var h, t := Hex2(bs[0] as nat), HexBytes(bs[1..]);
    assert HexBytes(bs) == h + t;
    if k == 0 {
      Hex2Reads(bs[0] as nat);
    } else {
      HexBytesAt(bs[1..], k - 1);
      assert (h + t)[2 * k] == t[2 * (k - 1)];
      assert (h + t)[2 * k + 1] == t[2 * (k - 1) + 1];
    }
  }

  /** The text of a run is the text of its parts, one after the other. */
  lemma {:induction false} HexBytesAppend(bs: seq<byte>, cs: seq<byte>)
    ensures HexBytes(bs + cs) == HexBytes(bs) + HexBytes(cs)
  {
    if bs != [] {
      assert (bs + cs)[1..] == bs[1..] + cs;
      HexBytesAppend(bs[1..], cs);
    } else {
      assert bs + cs == cs;
    }
  }

  /** The text of a run is the first byte's two digits, then the rest. */
  lemma HexBytesCons(b: byte, cs: seq<byte>)
    ensures HexBytes([b] + cs) == Hex2(b as nat) + HexBytes(cs)
  {
    assert ([b] + cs)[1..] == cs;
  }

  /** `%04X` prints the two bytes of the value, high byte first. */
  lemma Hex4Bytes(v: nat)
    requires v < 0x10000
    ensures Hex4(v) == HexBytes([(v / 256) as byte, (v % 256) as byte])
  {
    HexBytesCons((v / 256) as byte, [(v % 256) as byte]);
    HexBytesCons((v % 256) as byte, []);
  }

  /** The text of three runs one after the other. */
  lemma HexBytes3(a: seq<byte>, b: seq<byte>, c: seq<byte>, abc: seq<byte>)
    requires abc == a + b + c
    ensures HexBytes(abc) == HexBytes(a) + HexBytes(b) + HexBytes(c)
  {
    HexBytesAppend(a + b, c);
    HexBytesAppend(a, b);
  }

  /** The text of one byte is its two digits. */
  lemma HexBytesOne(b: byte)
    ensures HexBytes([b]) == Hex2(b as nat)
  {
    HexBytesCons(b, []);
    assert [b] + [] == [b];
  }
}
