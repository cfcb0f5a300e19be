/** The Intel HEX writer of ihexwrite.c: the first `bytes` bytes of an image
    as Data records (type 00) of at most 16 bytes, an Extended Segment
    Address record (type 02) before each record that starts at a non-zero
    multiple of 0x10000, and a closing End of File record (type 01). The
    file is the sequence of lines written, each without its newline. */
module IhexWrite {
  import opened HexDigits

  /** `fprintf(f, ":00000001FF\n")`. */
  const EofLine: string := ":00000001FF"

  const U32: nat := 0x1_0000_0000

  /** `unsigned int i = bytes - addr; if (i > 16) i = 16;` as written: the
      remaining count is cut to 32 bits before it is compared with 16. */
  function ChunkAsWritten(remaining: nat): (n: nat)
    ensures n <= 16
  {
    var i := remaining % U32;
    if i > 16 then 16 else i
  }

  /** The length of the next Data record: 16 bytes, or what remains. */
  function Chunk(remaining: nat): (n: nat)
    ensures n <= 16 && n <= remaining
    ensures remaining > 0 ==> n > 0
  {
    if remaining > 16 then 16 else remaining
  }

  /** Below 4 GiB the truncated count is the intended one; at exactly
      4 GiB remaining it is 0, so the record emitted has no data and `addr`
      never advances: the loop writes empty records forever. */
  lemma ChunkTruncation(remaining: nat)
    ensures remaining < U32 ==> ChunkAsWritten(remaining) == Chunk(remaining)
    ensures remaining == U32 ==> ChunkAsWritten(remaining) == 0 && Chunk(remaining) == 16
  {
  }

  /** `addr >> 16 && !(addr & 0xFFFF)`: the record starts at a non-zero
      multiple of 0x10000. */
  predicate NeedsSegment(addr: nat) {
    addr >= 0x10000 && addr % 0x10000 == 0
  }

  /** `addr >> 16 & 0xFFFF`, the value the type-02 record carries. */
  function SegmentOf(addr: nat): (seg: nat)
    ensures seg < 0x10000
  {
    (addr / 0x10000) % 0x10000
  }

  /** `-(segment&0xFF) - (segment>>8&0xFF) - 4 & 0xFF`. */
  function SegmentChecksum(seg: nat): (ck: nat)
    requires seg < 0x10000
    ensures ck < 256
  {
    (-(seg % 256) - seg / 256 - 4) % 256
  }

  /** The bytes of the type-02 record: count 2, address 0, type 2, the
      segment high byte first, and the checksum. */
  function SegmentBytes(seg: nat): (rb: seq<byte>)
    requires seg < 0x10000
  {
    [2, 0, 0, 2, (seg / 256) as byte, (seg % 256) as byte, SegmentChecksum(seg) as byte]
  }

  /** `":02000002%04X%02X"` with the segment and its checksum: a colon and
      the record's bytes in hexadecimal. */
  function SegmentLine(addr: nat): string {
    ":" + HexBytes(SegmentBytes(SegmentOf(addr)))
  }

  /** The sum of the bytes of a run, added up from the front as the inner
      loop does. */
  function ByteSum(bs: seq<byte>): nat {
    if bs == [] then 0 else ByteSum(bs[..|bs| - 1]) + bs[|bs| - 1] as nat
  }

  /** `(-sum) & 0xFF`, where `sum` is the count, both address bytes and the
      data bytes. */
  function DataChecksum(addr: nat, bs: seq<byte>): (ck: nat)
    ensures ck < 256
  {
    (-(|bs| + addr % 256 + (addr / 256) % 256 + ByteSum(bs))) % 256
  }

  /** The bytes of a Data record: the count, the two bytes of
      `addr & 0xFFFF` high byte first, type 0, the data and the checksum. */
  function DataBytes(addr: nat, bs: seq<byte>): (rb: seq<byte>)
    requires |bs| <= 16
  {
    [|bs| as byte, ((addr / 256) % 256) as byte, (addr % 256) as byte, 0] + bs + [DataChecksum(addr, bs) as byte]
  }

  /** `":%02X%04X00"`, the data digits and the checksum: a colon and the
      record's bytes in hexadecimal. */
  function DataLine(addr: nat, bs: seq<byte>): string
    requires |bs| <= 16
  {
    ":" + HexBytes(DataBytes(addr, bs))
  }

  /** The lines written for the record of `n` bytes at `addr`. */
  function RecordLines(image: seq<byte>, addr: nat, n: nat): seq<string>
    requires n <= 16 && addr + n <= |image|
  {
    if NeedsSegment(addr) then [SegmentLine(addr), DataLine(addr, image[addr..addr + n])]
    else [DataLine(addr, image[addr..addr + n])]
  }

  /** The (start, length) of every record the loop writes from `addr` on. */
  function Chunks(bytes: nat, addr: nat): (cs: seq<(nat, nat)>)
    ensures forall k :: 0 <= k < |cs| ==>
      addr <= cs[k].0 && 0 < cs[k].1 <= 16 && cs[k].0 + cs[k].1 <= bytes
    decreases bytes - addr
  {
    if addr >= bytes then []
    else [(addr, Chunk(bytes - addr))] + Chunks(bytes, addr + Chunk(bytes - addr))
  }

  /** Every record of `cs` lies within an image of length `size`. */
  predicate Within(cs: seq<(nat, nat)>, size: nat) {
    forall k :: 0 <= k < |cs| ==> cs[k].1 <= 16 && cs[k].0 + cs[k].1 <= size
  }

  /** The lines of the records `cs`, one after the other. */
  function Lines(image: seq<byte>, cs: seq<(nat, nat)>): seq<string>
    requires Within(cs, |image|)
  {
    if cs == [] then [] else RecordLines(image, cs[0].0, cs[0].1) + Lines(image, cs[1..])
  }

  /** `ihex_write(fname, image, bytes)`: the lines of the file. */
  function Write(image: seq<byte>, bytes: nat): (w: seq<string>)
    requires bytes <= |image|
    ensures |w| > 0 && w[|w| - 1] == EofLine
  {
    Lines(image, Chunks(bytes, 0)) + [EofLine]
  }

  /** An empty image gives the End of File record alone. */
  lemma EmptyImage(image: seq<byte>)
    ensures Write(image, 0) == [EofLine]
  {
    assert Chunks(0, 0) == [];
  }

  /** The records start at `addr`, `addr + 16`, `addr + 32`, ..., each of
      16 bytes except possibly the last, which ends at `bytes`. */
  lemma {:induction false} ChunksShape(bytes: nat, addr: nat)
    requires addr <= bytes
    ensures |Chunks(bytes, addr)| == (bytes - addr + 15) / 16
    ensures forall k :: 0 <= k < |Chunks(bytes, addr)| ==>
      Chunks(bytes, addr)[k] == (addr + 16 * k, Chunk(bytes - addr - 16 * k))
    decreases bytes - addr
  {
    var cs := Chunks(bytes, addr);
    if addr < bytes {
      var n := Chunk(bytes - addr);
      ChunksShape(bytes, addr + n);
      var rest := Chunks(bytes, addr + n);
      assert cs == [(addr, n)] + rest;
      if n == 16 {
        forall k | 0 < k < |cs|
          ensures cs[k] == (addr + 16 * k, Chunk(bytes - addr - 16 * k))
        {
          assert cs[k] == rest[k - 1];
        }
      } else {
        assert addr + n == bytes && rest == [];
      }
    }
  }

  /** The data of the records, concatenated. */
  function Payload(image: seq<byte>, cs: seq<(nat, nat)>): seq<byte>
    requires Within(cs, |image|)
  {
    if cs == [] then [] else image[cs[0].0..cs[0].0 + cs[0].1] + Payload(image, cs[1..])
  }

  /** The records hold `image[addr..bytes]` exactly once, in order. */
  lemma {:induction false} ChunksCover(image: seq<byte>, bytes: nat, addr: nat)
    requires addr <= bytes <= |image|
    ensures Payload(image, Chunks(bytes, addr)) == image[addr..bytes]
    decreases bytes - addr
  {
    if addr < bytes {
      var n := Chunk(bytes - addr);
      var cs := Chunks(bytes, addr);
      ChunksCover(image, bytes, addr + n);
      assert cs[0] == (addr, n) && cs[1..] == Chunks(bytes, addr + n);
      SliceSplit(image, addr, addr + n, bytes);
    }
  }

  lemma SliceSplit(s: seq<byte>, i: nat, j: nat, k: nat)
    requires i <= j <= k <= |s|
    ensures s[i..k] == s[i..j] + s[j..k]
  {
  }

  /** Every non-zero multiple of 0x10000 below `bytes` is the start of a
      record, so a type-02 record is written there. */
  lemma SegmentBoundaries(bytes: nat, m: nat)
    requires 0 < m && m * 0x10000 < bytes
    ensures var k := m * 0x1000;
      k < |Chunks(bytes, 0)| && Chunks(bytes, 0)[k].0 == m * 0x10000 && NeedsSegment(Chunks(bytes, 0)[k].0)
  {
    ChunksShape(bytes, 0);
  }

  /** One turn of the loop: the first record's lines, then the rest. */
  lemma WriteStep(image: seq<byte>, bytes: nat, addr: nat, n: nat, record: seq<string>)
    requires addr < bytes <= |image| && n == Chunk(bytes - addr)
    requires record == RecordLines(image, addr, n)
    ensures Lines(image, Chunks(bytes, addr)) == record + Lines(image, Chunks(bytes, addr + n))
  {
    var cs := Chunks(bytes, addr);
    assert cs[0] == (addr, n) && cs[1..] == Chunks(bytes, addr + n);
  }

  /** One more byte of a run: its sum and its text grow by that byte. */
  lemma RunStep(bs: seq<byte>, j: nat)
    requires j < |bs|
    ensures ByteSum(bs[..j + 1]) == ByteSum(bs[..j]) + bs[j] as nat
    ensures HexBytes(bs[..j + 1]) == HexBytes(bs[..j]) + Hex2(bs[j] as nat)
  {
    assert bs[..j + 1][..j] == bs[..j];
    assert bs[..j + 1] == bs[..j] + [bs[j]];
    HexBytesAppend(bs[..j], [bs[j]]);
    assert HexBytes([bs[j]]) == Hex2(bs[j] as nat) + HexBytes([]);
  }

  /** Moving the head of what is still to be written onto what has been
      written keeps their concatenation. */
  lemma Shift(done: seq<string>, head: seq<string>, tail: seq<string>, todo: seq<string>, all: seq<string>)
    requires todo == head + tail && done + todo == all
    ensures (done + head) + tail == all
  {
    assert done + (head + tail) == (done + head) + tail;
  }


  // ---- The imperative writer --------------------------------------------

  /** `ihex_write`: the `while (addr < bytes)` loop. The image is only read
      (the method modifies nothing). */
  method IhexWrite(image: array<byte>, bytes: nat) returns (lines: seq<string>)
    requires bytes <= image.Length
    ensures lines == Write(image[..], bytes)
  {
    ghost var img := image[..];
    ghost var all := Lines(img, Chunks(bytes, 0));
    ghost var rest := all;
    var addr := 0;
    lines := [];
    while addr < bytes
      invariant addr <= bytes && rest == Lines(img, Chunks(bytes, addr))
      invariant lines + rest == all
      decreases bytes - addr
    {
      var i := bytes - addr;
      if i > 16 {
        i := 16;
      }
      assert i == Chunk(bytes - addr);
      var record := EmitRecord(image, addr, i, img);
      var next := addr + i;
      ghost var rest' := Lines(img, Chunks(bytes, next));
      WriteStep(img, bytes, addr, i, record);
      Shift(lines, record, rest', rest, all);
      lines := lines + record;
      addr := next;
      rest := rest';
    }
    assert Chunks(bytes, addr) == [];
    lines := lines + [EofLine];
  }

  /** The body of the loop: a type-02 record at a non-zero multiple of
      0x10000, then the Data record of `n` bytes. */
  method EmitRecord(image: array<byte>, addr: nat, n: nat, ghost img: seq<byte>) returns (record: seq<string>)
    requires n <= 16 && addr + n <= image.Length && img == image[..]
    ensures record == RecordLines(img, addr, n)
  {
    record := [];
    if NeedsSegment(addr) {
      var segment := SegmentOf(addr);
      SegmentText(segment);
      record := [":02000002" + Hex4(segment) + Hex2(SegmentChecksum(segment))];
    }
    var text := EmitData(image, addr, n);
    assert image[..][addr..addr + n] == image[addr..addr + n];
    record := record + [text];
  }

  /** One Data record: the header, then `c = image[addr++]` added to `sum`
      and printed for each of the `n` bytes, then the checksum. */
  method EmitData(image: array<byte>, addr: nat, n: nat) returns (text: string)
    requires n <= 16 && addr + n <= image.Length
    ensures text == DataLine(addr, image[addr..addr + n])
  {
    ghost var bs := image[addr..addr + n];
    var sum := n + addr % 256 + (addr / 256) % 256;
    var head := ":" + Hex2(n) + Hex4(addr % 0x10000) + "00";
    var data := "";
    var j := 0;
    while j < n
      invariant j <= n
      invariant sum == n + addr % 256 + (addr / 256) % 256 + ByteSum(bs[..j])
      invariant data == HexBytes(bs[..j])
    {
      var c := image[addr + j];
      assert c == bs[j];
      RunStep(bs, j);
      sum := sum + c as nat;
      data := data + Hex2(c as nat);
      j := j + 1;
    }
    assert bs[..n] == bs;
    DataLineOf(addr, bs, head, data, sum);
    text := head + data + Hex2((-sum) % 256);
  }

  /** The pieces `EmitData` prints make up `DataLine`. */
  lemma DataLineOf(addr: nat, bs: seq<byte>, head: string, data: string, sum: int)
    requires |bs| <= 16
    requires head == ":" + Hex2(|bs|) + Hex4(addr % 0x10000) + "00"
    requires data == HexBytes(bs)
    requires sum == |bs| + addr % 256 + (addr / 256) % 256 + ByteSum(bs)
    ensures head + data + Hex2((-sum) % 256) == DataLine(addr, bs)
  {
    var ck := DataChecksum(addr, bs);
    DataChecksumOf(addr, bs, sum);
    var hb := [|bs| as byte, ((addr / 256) % 256) as byte, (addr % 256) as byte, 0];
    var tail := Hex2(ck);
    HeaderText(addr, |bs|, head, hb);
    HexBytesOne(ck as byte);
    assert DataBytes(addr, bs) == hb + bs + [ck as byte];
    HexBytes3(hb, bs, [ck as byte], DataBytes(addr, bs));
    Framed(head, HexBytes(hb), data, tail, HexBytes(DataBytes(addr, bs)));
  }

  /** A colon before three pieces of text is a colon before their
      concatenation. */
  lemma Framed(head: string, x: string, y: string, z: string, xyz: string)
    requires head == ":" + x && xyz == x + y + z
    ensures head + y + z == ":" + xyz
  {
  }

  /** `":%02X%04X00"` is a colon and the four header bytes in hexadecimal. */
  lemma HeaderText(addr: nat, n: nat, head: string, hb: seq<byte>)
    requires n <= 16
    requires head == ":" + Hex2(n) + Hex4(addr % 0x10000) + "00"
    requires hb == [n as byte, ((addr / 256) % 256) as byte, (addr % 256) as byte, 0]
    ensures head == ":" + HexBytes(hb)
  {
    var a := addr % 0x10000;
    var ab := [(a / 256) as byte, (a % 256) as byte];
    AddressBytes(addr);
    assert hb == [n as byte] + ab + [0];
    HexBytes3([n as byte], ab, [0], hb);
    HexBytesOne(n as byte);
    Hex4Bytes(a);
    HexBytesOne(0);
    Colon3(Hex2(n), Hex4(a), "00");
  }

  /** A colon before three pieces of text. */
  lemma Colon3(x: string, y: string, z: string)
    ensures ":" + x + y + z == ":" + (x + y + z)
  {
  }

  /** The two bytes of `addr & 0xFFFF` are the low two bytes of `addr`. */
  lemma AddressBytes(addr: nat)
    ensures (addr % 0x10000) / 256 == (addr / 256) % 256
    ensures (addr % 0x10000) % 256 == addr % 256
  {
    var q := addr / 0x10000;
    var r := addr % 0x10000;
    assert addr == 0x10000 * q + r;
    assert addr / 256 == 256 * q + r / 256;
    assert addr % 256 == r % 256;
  }

  /** `":02000002%04X%02X"` is a colon and the type-02 record's bytes in
      hexadecimal. */
  lemma SegmentText(seg: nat)
    requires seg < 0x10000
    ensures ":02000002" + Hex4(seg) + Hex2(SegmentChecksum(seg)) == ":" + HexBytes(SegmentBytes(seg))
  {
    var hb: seq<byte> := [2, 0, 0, 2];
    var ab := [(seg / 256) as byte, (seg % 256) as byte];
    var cb := [SegmentChecksum(seg) as byte];
    assert SegmentBytes(seg) == hb + ab + cb;
    HexBytes3(hb, ab, cb, SegmentBytes(seg));
    Hex4Bytes(seg);
    HexBytesOne(cb[0]);
    SegmentHeaderText();
    Framed(":02000002", HexBytes(hb), Hex4(seg), Hex2(SegmentChecksum(seg)), HexBytes(SegmentBytes(seg)));
  }

  /** The fixed part of the type-02 record: count 2, address 0, type 2. */
  lemma SegmentHeaderText()
    ensures ":02000002" == ":" + HexBytes([2, 0, 0, 2])
  {
    HexBytesCons(2, [0, 0, 2]);
    HexBytesCons(0, [0, 2]);
    HexBytesCons(0, [2]);
    HexBytesOne(2);
  }

  lemma DataChecksumOf(addr: nat, bs: seq<byte>, sum: int)
    requires sum == |bs| + addr % 256 + (addr / 256) % 256 + ByteSum(bs)
    ensures (-sum) % 256 == DataChecksum(addr, bs)
  {
  }
}
