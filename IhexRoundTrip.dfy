/** The writer of ihexwrite.c read back by the reader of ihexread.c: every
    line the writer emits is a record the reader accepts, and for images of
    at most 64 KiB the reader reproduces the image and its size. Above
    64 KiB the type-02 record the writer emits carries `addr >> 16` while
    the reader multiplies the value by 16, and the round trip breaks. */
module IhexRoundTrip {
  import opened HexDigits
  import opened IhexRead
  import opened IhexWrite

  /** In a line that is a colon and the hexadecimal text of `rb`, the
      reader's field at offset `1 + 2*k` is `rb[k]`. */
  lemma FramedByte(line: string, rb: seq<byte>, k: nat)
    requires line == ":" + HexBytes(rb) && k < |rb|
    ensures |line| == 1 + 2 * |rb|
    ensures ByteAt(line, 1 + 2 * k) == rb[k] as int
  {
    var t := HexBytes(rb);
    assert line[1 + 2 * k] == t[2 * k] && line[2 + 2 * k] == t[2 * k + 1];
    HexBytesAt(rb, k);
  }

  /** The fields of a Data record as the reader parses them. */
  lemma DataLineFields(addr: nat, bs: seq<byte>)
    requires 0 < |bs| <= 16 && addr < 0x10000
    ensures var line := DataLine(addr, bs);
      && |line| == 11 + 2 * |bs| && At(line, 0) == ':'
      && Len(line) == |bs| && AddrHi(line) == addr / 256 && AddrLo(line) == addr % 256
      && Addr(line) == addr && Type(line) == 0
      && (forall i :: 0 <= i < |bs| ==> DataAt(line, i) == bs[i] as int)
      && DataAt(line, |bs|) == DataChecksum(addr, bs)
  {
    var line, rb := DataLine(addr, bs), DataBytes(addr, bs);
    DataLineHeader(addr, bs, line, rb);
    forall i | 0 <= i < |bs|
      ensures DataAt(line, i) == bs[i] as int
    {
      assert rb[4 + i] == bs[i];
      FramedByte(line, rb, 4 + i);
    }
    assert rb[4 + |bs|] == DataChecksum(addr, bs) as byte;
    FramedByte(line, rb, 4 + |bs|);
  }

  lemma DataLineHeader(addr: nat, bs: seq<byte>, line: string, rb: seq<byte>)
    requires |bs| <= 16 && addr < 0x10000
    requires rb == DataBytes(addr, bs) && line == ":" + HexBytes(rb)
    ensures |line| == 11 + 2 * |bs| && At(line, 0) == ':'
    ensures Len(line) == |bs| && AddrHi(line) == addr / 256 && AddrLo(line) == addr % 256
    ensures Addr(line) == addr && Type(line) == 0
  {
    assert rb[0] == |bs| as byte && rb[3] == 0;
    assert rb[1] == ((addr / 256) % 256) as byte && rb[2] == (addr % 256) as byte;
    FramedByte(line, rb, 0);
    FramedByte(line, rb, 1);
    FramedByte(line, rb, 2);
    FramedByte(line, rb, 3);
    HighByte(addr);
  }

  /** The reader's sum of the first `k` data fields is the writer's sum of
      the first `k` bytes. */
  lemma {:induction false} DataSumIs(line: string, bs: seq<byte>, k: nat)
    requires k <= |bs|
    requires forall i :: 0 <= i < |bs| ==> DataAt(line, i) == bs[i] as int
    ensures DataSum(line, k) == ByteSum(bs[..k])
  {
    if k > 0 {
      DataSumIs(line, bs, k - 1);
      assert bs[..k][..k - 1] == bs[..k - 1];
    }
  }

  /** A value plus its negation modulo 256 is 0 modulo 256. */
  lemma Complement(x: int)
    ensures (x + (-x) % 256) % 256 == 0
  {
    var q := (-x) / 256;
    assert -x == 256 * q + (-x) % 256;
    assert x + (-x) % 256 == -256 * q;
  }

  /** A record whose checksum field is the negated sum of its other
      fields passes the reader's checksum test. */
  lemma ChecksumByComplement(line: string, n: nat, sum: int)
    requires Len(line) + AddrHi(line) + AddrLo(line) + Type(line) + DataSum(line, n) == sum
    requires DataAt(line, n) == (-sum) % 256
    ensures ChecksumOk(line, n)
  {
    Complement(sum);
  }

  /** The high byte of an address below 0x10000 is below 256. */
  lemma HighByte(addr: nat)
    requires addr < 0x10000
    ensures (addr / 256) % 256 == addr / 256
  {
  }

  /** Every Data record the writer emits passes the reader's checksum. */
  lemma DataLineChecksum(addr: nat, bs: seq<byte>)
    requires 0 < |bs| <= 16 && addr < 0x10000
    ensures ChecksumOk(DataLine(addr, bs), |bs|)
  {
    var line := DataLine(addr, bs);
    DataLineFields(addr, bs);
    DataSumIs(line, bs, |bs|);
    assert bs[..|bs|] == bs;
    HighByte(addr);
    ChecksumByComplement(line, |bs|, |bs| + addr % 256 + (addr / 256) % 256 + ByteSum(bs));
  }

  /** The reader stores a Data record of the writer at `segment + addr`,
      byte for byte, and the size read so far grows to its end. */
  lemma DataLineRead(addr: nat, bs: seq<byte>, segment: nat, size: nat, image: seq<byte>, base: nat, end: nat)
    requires 0 < |bs| <= 16 && addr < 0x10000
    requires base == segment + addr && end == base + |bs|
    requires size <= |image| && end <= |image|
    ensures ReadRecord(DataLine(addr, bs), segment, size, image).Continue?
    ensures ReadRecord(DataLine(addr, bs), segment, size, image).segment == segment
    ensures ReadRecord(DataLine(addr, bs), segment, size, image).size == Max(size, end)
    ensures ReadRecord(DataLine(addr, bs), segment, size, image).image == image[..base] + bs + image[end..]
  {
    var line := DataLine(addr, bs);
    DataLineFields(addr, bs);
    DataLineChecksum(addr, bs);
    AcceptedData(line, bs, segment, size, image, base, end);
  }

  /** A well-formed type-00 record whose fields are the bytes `bs` is
      accepted, and `bs` is stored at `segment + addr`. */
  lemma AcceptedData(line: string, bs: seq<byte>, segment: nat, size: nat, image: seq<byte>, base: nat, end: nat)
    requires |line| + 1 < LineLimit && At(line, 0) == ':' && HeaderOk(line)
    requires Type(line) == 0 && Len(line) == |bs| && ChecksumOk(line, |bs|)
    requires forall i :: 0 <= i < |bs| ==> DataAt(line, i) == bs[i] as int
    requires base == segment + Addr(line) && end == base + |bs|
    requires size <= |image| && end <= |image|
    ensures ReadRecord(line, segment, size, image) == Continue(segment, Max(size, end), image[..base] + bs + image[end..])
  {
    ReadRecordTyped(line, segment, size, image, end);
    DataTyped(line, segment, Max(size, end), image, base, |bs|);
    StoredBytes(image, base, end, line, bs);
  }

  /** A record with a good header whose end fits the capacity is handled
      by its type, with the size grown to its end. */
  lemma ReadRecordTyped(line: string, segment: nat, size: nat, image: seq<byte>, end: nat)
    requires |line| + 1 < LineLimit && At(line, 0) == ':' && HeaderOk(line)
    requires End(line, segment) == end && size <= |image| && end <= |image|
    ensures ReadRecord(line, segment, size, image) == TypedRecord(line, segment, Max(size, end), image)
  {
  }

  /** A type-00 record with no refused field and a checksum that holds
      stores all its fields at `segment + addr` and goes on. */
  lemma DataTyped(line: string, segment: nat, size': nat, image: seq<byte>, base: nat, n: nat)
    requires HeaderOk(line) && Type(line) == 0 && Len(line) == n && ChecksumOk(line, n)
    requires forall i :: 0 <= i < n ==> DataAt(line, i) >= -1
    requires base == segment + Addr(line) && End(line, segment) <= size' <= |image|
    ensures TypedRecord(line, segment, size', image) == Continue(segment, size', WriteData(image, base, line, n))
  {
    FirstBadNone(line, 0, n);
  }

  /** The data loop over fields that are the bytes `bs` copies `bs` into
      the image at `base`. */
  lemma StoredBytes(image: seq<byte>, base: nat, end: nat, line: string, bs: seq<byte>)
    requires end == base + |bs| <= |image|
    requires forall i :: 0 <= i < |bs| ==> DataAt(line, i) == bs[i] as int
    ensures WriteData(image, base, line, |bs|) == image[..base] + bs + image[end..]
  {
    var written, n := WriteData(image, base, line, |bs|), |bs|;
    var expected := image[..base] + bs + image[end..];
    WriteDataAt(image, base, line, n);
    forall j | 0 <= j < |image|
      ensures written[j] == expected[j]
    {
      if base <= j < base + n {
        StoredByte(line, bs, j - base);
      }
      SplicedAt(image, base, end, bs, expected, j);
    }
    assert |written| == |expected|;
  }

  /** A data field holding `bs[i]` stores `bs[i]`. */
  lemma StoredByte(line: string, bs: seq<byte>, i: nat)
    requires i < |bs| && DataAt(line, i) == bs[i] as int
    ensures Store(DataAt(line, i)) == bs[i]
  {
  }

  /** Where each byte of `image` with `bs` spliced in at `base` comes from. */
  lemma SplicedAt(image: seq<byte>, base: nat, end: nat, bs: seq<byte>, spliced: seq<byte>, j: nat)
    requires end == base + |bs| <= |image| && j < |image|
    requires spliced == image[..base] + bs + image[end..]
    ensures |spliced| == |image|
    ensures spliced[j] == if base <= j < base + |bs| then bs[j - base] else image[j]
  {
  }

  /** The writer's End of File record has a correct checksum, and the
      reader ends there with the size read so far. */
  lemma EofLineRead(segment: nat, size: nat, image: seq<byte>)
    requires segment <= size <= |image|
    ensures ChecksumOk(EofLine, 0)
    ensures ReadRecord(EofLine, segment, size, image) == Stop(size, image)
  {
    EofLineFields(EofLine);
    EndOfFileRecord(EofLine, segment, size, image);
  }

  lemma EofLineFields(l: string)
    requires l == EofLine
    ensures |l| + 1 < LineLimit && At(l, 0) == ':'
    ensures HeaderOk(l) && Type(l) == 1 && Len(l) == 0 && Addr(l) == 0
    ensures RecordSum(l, 0) == 256
  {
    Zeros00();
    assert HexByte('F', 'F') == 255;
    ByteAtIs(l, 1, '0', '0');
    ByteAtIs(l, 3, '0', '0');
    ByteAtIs(l, 5, '0', '0');
    ByteAtIs(l, 7, '0', '1');
    ByteAtIs(l, 9, 'F', 'F');
  }

  /** Reading the records the writer emits from `addr` on (below 64 KiB,
      where no type-02 record is written) stores `src[addr..]` up to the
      64 KiB boundary or `bytes`, whichever comes first, and leaves the
      reader at that point with segment 0. */
  lemma {:induction false} ReadWritten(src: seq<byte>, bytes: nat, addr: nat, m: nat,
                                       image: seq<byte>, filled: seq<byte>)
    requires m == Min(bytes, 0x10000) && addr <= m && bytes <= |src| && bytes <= |image|
    requires addr % 16 == 0 || addr == bytes
    requires filled == image[..addr] + src[addr..m] + image[m..]
    ensures ReadLines(Lines(src, Chunks(bytes, addr)) + [EofLine], 0, addr, image)
         == ReadLines(Lines(src, Chunks(bytes, m)) + [EofLine], 0, m, filled)
    decreases bytes - addr
  {
    if addr == m {
      assert filled == image;
    } else {
      var n := Chunk(bytes - addr);
      var image' := image[..addr] + src[addr..addr + n] + image[addr + n..];
      RecordStep(src, bytes, addr, image);
      NextChunk(bytes, addr);
      Splice(image, src, addr, n, m);
      ReadWritten(src, bytes, addr + n, m, image', filled);
    }
  }

  /** One Data record of the writer, read: the reader moves on to the next
      record with the bytes copied. */
  lemma RecordStep(src: seq<byte>, bytes: nat, addr: nat, image: seq<byte>)
    requires addr < Min(bytes, 0x10000) && bytes <= |src| && bytes <= |image|
    ensures var n := Chunk(bytes - addr);
      ReadLines(Lines(src, Chunks(bytes, addr)) + [EofLine], 0, addr, image)
        == ReadLines(Lines(src, Chunks(bytes, addr + n)) + [EofLine], 0, addr + n,
                     image[..addr] + src[addr..addr + n] + image[addr + n..])
  {
    FirstRecordRead(src, bytes, addr, image);
  }

  /** The first line the writer emits from `addr` below 64 KiB is a Data
      record the reader accepts, copying the record's bytes. */
  lemma FirstRecordRead(src: seq<byte>, bytes: nat, addr: nat, image: seq<byte>)
    requires addr < Min(bytes, 0x10000) && bytes <= |src| && bytes <= |image|
    ensures var n := Chunk(bytes - addr);
      var ls := Lines(src, Chunks(bytes, addr));
      && |ls| > 0
      && ls[1..] == Lines(src, Chunks(bytes, addr + n))
      && ReadLines(ls + [EofLine], 0, addr, image)
         == ReadLines(ls[1..] + [EofLine], 0, addr + n, image[..addr] + src[addr..addr + n] + image[addr + n..])
  {
    var n := Chunk(bytes - addr);
    var bs := src[addr..addr + n];
    var ls := Lines(src, Chunks(bytes, addr));
    LinesHead(src, bytes, addr, ls);
    DataLineRead(addr, bs, 0, addr, image, addr, addr + n);
    ReadHead(ls, [EofLine], DataLine(addr, bs), addr, addr + n, image, image[..addr] + bs + image[addr + n..]);
  }

  /** Below 64 KiB the writer's lines for the records from `addr` are the
      Data record at `addr` and then the lines of the records after it. */
  lemma LinesHead(src: seq<byte>, bytes: nat, addr: nat, ls: seq<string>)
    requires addr < Min(bytes, 0x10000) && bytes <= |src|
    requires ls == Lines(src, Chunks(bytes, addr))
    ensures var n := Chunk(bytes - addr);
      && |ls| > 0
      && ls[0] == DataLine(addr, src[addr..addr + n])
      && ls[1..] == Lines(src, Chunks(bytes, addr + n))
  {
    var n := Chunk(bytes - addr);
    WriteStep(src, bytes, addr, n, RecordLines(src, addr, n));
    assert !NeedsSegment(addr);
  }

  /** From a multiple of 16 below the 64 KiB boundary and below `bytes`,
      the next record ends at a multiple of 16 or at `bytes`, and not past
      either bound. */
  lemma NextChunk(bytes: nat, addr: nat)
    requires addr < Min(bytes, 0x10000) && addr % 16 == 0
    ensures addr + Chunk(bytes - addr) <= Min(bytes, 0x10000)
    ensures (addr + Chunk(bytes - addr)) % 16 == 0 || addr + Chunk(bytes - addr) == bytes
  {
  }

  /** A first line the reader goes on from hands its state to the lines
      after it. */
  lemma ReadHead(ls: seq<string>, tail: seq<string>, line: string, size: nat, end: nat,
                 image: seq<byte>, image': seq<byte>)
    requires size <= |image| && |ls| > 0 && ls[0] == line
    requires ReadRecord(line, 0, size, image).Continue?
    requires ReadRecord(line, 0, size, image).segment == 0
    requires ReadRecord(line, 0, size, image).size == end
    requires ReadRecord(line, 0, size, image).image == image'
    ensures ReadLines(ls + tail, 0, size, image) == ReadLines(ls[1..] + tail, 0, end, image')
  {
    assert (ls + tail)[0] == ls[0];
    assert (ls + tail)[1..] == ls[1..] + tail;
  }

  /** Copying `src[addr..addr+n]` and then `src[addr+n..m]` copies
      `src[addr..m]`. */
  lemma Splice(image: seq<byte>, src: seq<byte>, addr: nat, n: nat, m: nat)
    requires addr + n <= m <= |image| && m <= |src|
    ensures var image' := image[..addr] + src[addr..addr + n] + image[addr + n..];
      image'[..addr + n] + src[addr + n..m] + image'[m..] == image[..addr] + src[addr..m] + image[m..]
  {
    var image' := image[..addr] + src[addr..addr + n] + image[addr + n..];
    assert image'[..addr + n] == image[..addr] + src[addr..addr + n];
    assert image'[m..] == image[m..];
    assert src[addr..addr + n] + src[addr + n..m] == src[addr..m];
  }

  function Min(a: nat, b: nat): nat { if a <= b then a else b }

  /** Up to 64 KiB the round trip holds: reading the writer's file of the
      first `bytes` bytes of `src` into any image of at least that capacity
      returns `bytes` and leaves those bytes in the image, the rest of the
      image as it was. */
  lemma RoundTrip(src: seq<byte>, bytes: nat, image: seq<byte>)
    requires bytes <= 0x10000 && bytes <= |src| && bytes <= |image|
    ensures Read(Write(src, bytes), image) == (bytes, src[..bytes] + image[bytes..])
  {
    var image' := image[..0] + src[0..bytes] + image[bytes..];
    ReadWritten(src, bytes, 0, bytes, image, image');
    PrefixCopied(image, src, bytes, image');
    EofAfterLast(src, bytes, image');
  }

  /** Copying `src[0..bytes]` over the front of `image`. */
  lemma PrefixCopied(image: seq<byte>, src: seq<byte>, bytes: nat, image': seq<byte>)
    requires bytes <= |image| && bytes <= |src|
    requires image' == image[..0] + src[0..bytes] + image[bytes..]
    ensures image' == src[..bytes] + image[bytes..]
  {
    assert image[..0] + src[0..bytes] == src[..bytes];
  }

  /** Once every record is read, only the End of File record is left, and
      the reader stops with the size reached. */
  lemma EofAfterLast(src: seq<byte>, bytes: nat, image: seq<byte>)
    requires bytes <= |src| && bytes <= |image|
    ensures ReadLines(Lines(src, Chunks(bytes, bytes)) + [EofLine], 0, bytes, image) == (bytes, image)
  {
    assert Chunks(bytes, bytes) == [];
    assert Lines(src, []) + [EofLine] == [EofLine];
    EofLineRead(0, bytes, image);
  }

  /** The fields of the writer's type-02 record as the reader parses
      them: length 2, address 0, type 2, the value's two bytes and the
      checksum. */
  lemma SegmentLineFields(seg: nat, line: string, rb: seq<byte>)
    requires seg < 0x10000 && rb == SegmentBytes(seg) && line == ":" + HexBytes(rb)
    ensures |line| == 15 && At(line, 0) == ':'
    ensures Len(line) == 2 && Addr(line) == 0 && Type(line) == 2
    ensures DataAt(line, 0) == seg / 256 && DataAt(line, 1) == seg % 256
    ensures DataAt(line, 2) == SegmentChecksum(seg)
  {
    FramedByte(line, rb, 0);
    FramedByte(line, rb, 1);
    FramedByte(line, rb, 2);
    FramedByte(line, rb, 3);
    FramedByte(line, rb, 4);
    FramedByte(line, rb, 5);
    FramedByte(line, rb, 6);
  }

  /** The reader accepts the writer's type-02 record and sets the segment
      to 16 times `addr >> 16`; its end, `segment + 0 + 2`, counts towards
      the size like any record's. */
  lemma SegmentLineRead(addr: nat, segment: nat, size: nat, image: seq<byte>)
    requires size <= |image| && segment + 2 <= |image|
    ensures ReadRecord(SegmentLine(addr), segment, size, image)
      == Continue(16 * SegmentOf(addr), Max(size, segment + 2), image)
  {
    var seg := SegmentOf(addr);
    var line := SegmentLine(addr);
    SegmentLineChecked(seg, line, SegmentBytes(seg));
    ReadRecordTyped(line, segment, size, image, segment + 2);
  }

  /** The writer's type-02 record has a correct checksum and carries the
      segment value it was written with. */
  lemma SegmentLineChecked(seg: nat, line: string, rb: seq<byte>)
    requires seg < 0x10000 && rb == SegmentBytes(seg) && line == ":" + HexBytes(rb)
    ensures |line| == 15 && At(line, 0) == ':' && HeaderOk(line)
    ensures Len(line) == 2 && Addr(line) == 0 && Type(line) == 2
    ensures ChecksumOk(line, 2) && SegmentValue(line) == seg
  {
    SegmentLineFields(seg, line, rb);
    var hi, lo := seg / 256, seg % 256;
    assert DataSum(line, 1) == hi;
    assert DataSum(line, 2) == hi + lo;
    var sum := 4 + hi + lo;
    SegmentChecksumIs(seg, hi, lo, sum);
    ChecksumByComplement(line, 2, sum);
  }

  /** The type-02 checksum is the negated sum of the record's other bytes. */
  lemma SegmentChecksumIs(seg: nat, hi: int, lo: int, sum: int)
    requires seg < 0x10000 && hi == seg / 256 && lo == seg % 256 && sum == 4 + hi + lo
    ensures SegmentChecksum(seg) == (-sum) % 256
  {
    assert -sum == -lo - hi - 4;
  }

  /** Above 64 KiB the round trip breaks: for `bytes` = 0x10001 the reader
      returns 0x10000, stores the last byte at offset 16 (the type-02
      record's value 1, times 16) and never writes offset 0x10000. */
  lemma RoundTripBreaks(src: seq<byte>, bytes: nat, image: seq<byte>)
    requires bytes == 0x10001 && bytes <= |src| && bytes <= |image|
    ensures Read(Write(src, bytes), image).0 == bytes - 1
    ensures Read(Write(src, bytes), image).1[16] == src[bytes - 1]
    ensures Read(Write(src, bytes), image).1[bytes - 1] == image[bytes - 1]
  {
    var m := bytes - 1;
    var image1 := image[..0] + src[0..m] + image[m..];
    ReadWritten(src, bytes, 0, m, image, image1);
    TailRead(src, bytes, image1);
    MisplacedByte(image, src, m, image1, image1[..16] + src[m..bytes] + image1[17..]);
  }

  /** Where the last byte of the file lands and what stays at its offset. */
  lemma MisplacedByte(image: seq<byte>, src: seq<byte>, m: nat, image1: seq<byte>, image2: seq<byte>)
    requires 17 <= m < |image| && m < |src|
    requires image1 == image[..0] + src[0..m] + image[m..]
    requires image2 == image1[..16] + src[m..m + 1] + image1[17..]
    ensures image2[16] == src[m] && image2[m] == image[m]
  {
  }

  /** From 0x10000 on, the reader reads the type-02 record, then the last
      byte to offset 16, then the End of File record. */
  lemma TailRead(src: seq<byte>, bytes: nat, image1: seq<byte>)
    requires bytes == 0x10001 && bytes <= |src| && bytes <= |image1|
    ensures ReadLines(Lines(src, Chunks(bytes, bytes - 1)) + [EofLine], 0, bytes - 1, image1)
      == (bytes - 1, image1[..16] + src[bytes - 1..bytes] + image1[17..])
  {
    var m := bytes - 1;
    var bs := src[m..bytes];
    var lines := Lines(src, Chunks(bytes, m));
    LastChunkLines(src, bytes, lines);
    var ls := lines + [EofLine];
    assert ls[0] == SegmentLine(m) && ls[1..][0] == DataLine(0, bs) && ls[1..][1..] == [EofLine];
    SegmentLineRead(m, 0, m, image1);
    FirstSegment(m);
    ReadOn(ls, SegmentLine(m), 0, m, image1, Continue(16, m, image1));
    DataLineRead(0, bs, 16, m, image1, 16, 17);
    var image2 := image1[..16] + bs + image1[17..];
    ReadOn(ls[1..], DataLine(0, bs), 16, m, image1, Continue(16, m, image2));
    EofLineRead(16, m, image2);
  }

  /** 0x10000 is where the writer emits its first type-02 record, with
      value 1. */
  lemma FirstSegment(m: nat)
    requires m == 0x10000
    ensures NeedsSegment(m) && SegmentOf(m) == 1
  {
  }

  /** Wherever the writer emits a type-02 record, the segment the reader
      takes from it, 16 times `addr >> 16`, is below the record's address,
      so the Data record after it is stored at the wrong offset. */
  lemma SegmentMisplaced(addr: nat)
    requires NeedsSegment(addr)
    ensures 16 * SegmentOf(addr) < addr
  {
    var q := addr / 0x10000;
    assert addr == 0x10000 * q;
    assert SegmentOf(addr) <= q;
  }

  /** The last record of a 0x10001-byte image: the type-02 record and then
      one byte, written with the address truncated to 16 bits. */
  lemma LastChunkLines(src: seq<byte>, bytes: nat, lines: seq<string>)
    requires bytes == 0x10001 && bytes <= |src| && lines == Lines(src, Chunks(bytes, bytes - 1))
    ensures lines == [SegmentLine(bytes - 1), DataLine(0, src[bytes - 1..bytes])]
  {
    var m := bytes - 1;
    assert Chunks(bytes, bytes) == [];
    assert Chunks(bytes, m) == [(m, 1)];
    FirstSegment(m);
    DataLineWraps(m, src[m..bytes]);
  }

  /** A Data record's text depends on its address only modulo 0x10000. */
  lemma DataLineWraps(addr: nat, bs: seq<byte>)
    requires |bs| <= 16
    ensures DataLine(addr, bs) == DataLine(addr % 0x10000, bs)
  {
    AddressBytes(addr);
    assert DataBytes(addr, bs) == DataBytes(addr % 0x10000, bs);
  }

  /** A first line the reader goes on from hands its state to the lines
      after it. */
  lemma ReadOn(ls: seq<string>, line: string, segment: nat, size: nat, image: seq<byte>, s: Step)
    requires size <= |image| && |ls| > 0 && ls[0] == line
    requires ReadRecord(line, segment, size, image) == s && s.Continue?
    ensures ReadLines(ls, segment, size, image) == ReadLines(ls[1..], s.segment, s.size, s.image)
  {
  }
}
