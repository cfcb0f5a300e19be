/** The Intel HEX reader of ihexread.c: record types 00 (Data), 01 (End of
    File) and 02 (Extended Segment Address) of the Intel Hexadecimal Object
    File Format Specification, Rev. A, read into a byte image of fixed
    capacity. A file is a sequence of lines, each without its newline. */
module IhexRead {
  import opened HexDigits

  /** `fgets` into `char buffer[1024]` reads at most 1023 characters; a
      line that fills them (newline included) is refused as too long. */
  const LineLimit: nat := 1023

  const U64: nat := 0x1_0000_0000_0000_0000

  /** The character at offset `k` of the line buffer. Past the end of the
      line the buffer holds the newline, the terminator and stale bytes;
      all of them are read here as a (non-hexadecimal) newline. */
  function At(line: string, k: nat): char {
    if k < |line| then line[k] else '\n'
  }

  /** `hex_byte(buffer + k)`. */
  function ByteAt(line: string, k: nat): int {
    HexByte(At(line, k), At(line, k + 1))
  }

  function Len(line: string): int { ByteAt(line, 1) }
  function AddrHi(line: string): int { ByteAt(line, 3) }
  function AddrLo(line: string): int { ByteAt(line, 5) }
  function Type(line: string): int { ByteAt(line, 7) }

  /** `hex_byte(buffer+3) << 8 | hex_byte(buffer+5)`. */
  function Addr(line: string): (a: int)
    ensures a >= 0 <==> AddrHi(line) >= 0 && AddrLo(line) >= 0
    ensures a >= 0 ==> a == 256 * AddrHi(line) + AddrLo(line) && a < 0x10000
  {
    ShlOr(AddrHi(line), AddrLo(line), 256)
  }

  predicate HeaderOk(line: string) {
    Len(line) >= 0 && Addr(line) >= 0 && Type(line) >= 0
  }

  /** The `i`-th data byte field, `hex_byte(buffer + 9 + 2*i)`. */
  function DataAt(line: string, i: nat): int { ByteAt(line, 9 + 2 * i) }

  /** The sum of the first `n` data fields. */
  function DataSum(line: string, n: nat): int {
    if n == 0 then 0 else DataSum(line, n - 1) + DataAt(line, n - 1)
  }

  /** The sum of every field the record's checksum covers: count, both
      address bytes, type, `len` data bytes and the checksum byte itself. */
  function RecordSum(line: string, len: nat): int {
    Len(line) + AddrHi(line) + AddrLo(line) + Type(line) + DataSum(line, len) + DataAt(line, len)
  }

  /** The running checksum, which started the record at 0, is 0 again. */
  predicate ChecksumOk(line: string, len: nat) {
    RecordSum(line, len) % 256 == 0
  }

  /** The index of the first data field below `len` that the loop refuses
      (`hex_byte < -1`), or `len` if there is none. */
  function FirstBad(line: string, from: nat, len: nat): (r: nat)
    requires from <= len
    ensures from <= r <= len
    ensures r < len ==> DataAt(line, r) < -1
    decreases len - from
  {
    if from == len then len
    else if DataAt(line, from) < -1 then from
    else FirstBad(line, from + 1, len)
  }

  /** An accepted field at or before the first refused one is before it. */
  lemma FirstBadPast(line: string, from: nat, len: nat, j: nat)
    requires from <= j < len && j <= FirstBad(line, from, len)
    requires DataAt(line, j) >= -1
    ensures j < FirstBad(line, from, len)
  {
    var r := FirstBad(line, from, len);
    assert r < len ==> DataAt(line, r) < -1;
  }

  /** A refused field that no earlier refused field precedes is the first
      one. */
  lemma {:induction false} FirstBadIs(line: string, from: nat, len: nat, j: nat)
    requires from <= j < len && j <= FirstBad(line, from, len)
    requires DataAt(line, j) < -1
    ensures FirstBad(line, from, len) == j
    decreases len - from
  {
    if j > from {
      FirstBadIs(line, from + 1, len, j);
    }
  }

  /** With no refused field from `from` on, the loop reaches `len`. */
  lemma {:induction false} FirstBadNone(line: string, from: nat, len: nat)
    requires from <= len
    requires forall i :: from <= i < len ==> DataAt(line, i) >= -1
    ensures FirstBad(line, from, len) == len
    decreases len - from
  {
    if from < len {
      FirstBadNone(line, from + 1, len);
    }
  }

  /** Storing an `int` into an `unsigned char`: -1 becomes 0xFF. */
  function Store(v: int): byte {
    (v % 256) as byte
  }

  /** The image after the data loop has stored its first `n` fields at
      `image[base + i]`. */
  function WriteData(image: seq<byte>, base: nat, line: string, n: nat): (r: seq<byte>)
    requires base + n <= |image|
    ensures |r| == |image|
  {
    if n == 0 then image
    else WriteData(image, base, line, n - 1)[base + n - 1 := Store(DataAt(line, n - 1))]
  }

  /** The first `n` fields land at `base + i` and every other byte of the
      image is left as it was. */
  lemma {:induction false} WriteDataAt(image: seq<byte>, base: nat, line: string, n: nat)
    requires base + n <= |image|
    ensures forall j :: 0 <= j < |image| && !(base <= j < base + n) ==> WriteData(image, base, line, n)[j] == image[j]
    ensures forall i :: 0 <= i < n ==> WriteData(image, base, line, n)[base + i] == Store(DataAt(line, i))
  {
    if n > 0 {
      WriteDataAt(image, base, line, n - 1);
    }
  }

  /** The paragraph number of a type-02 record, `hex_byte(buffer+9) << 8 |
      hex_byte(buffer+11)`. */
  function SegmentValue(line: string): (v: int)
    ensures v >= 0 <==> DataAt(line, 0) >= 0 && DataAt(line, 1) >= 0
    ensures v >= 0 ==> v == 256 * DataAt(line, 0) + DataAt(line, 1) && v < 0x10000
  {
    ShlOr(DataAt(line, 0), DataAt(line, 1), 256)
  }

  /** What one line does to the reader's state. */
  datatype Step =
    | Continue(segment: nat, size: nat, image: seq<byte>)
    | Stop(result: int, image: seq<byte>)

  /** The end of the record, `segment + addr + len`. */
  function End(line: string, segment: nat): int {
    segment + Addr(line) + Len(line)
  }

  /** The loop body of `ihex_read` for one line, with `segment` and `size`
      the values left by the previous lines and `|image|` the capacity. */
  function ReadRecord(line: string, segment: nat, size: nat, image: seq<byte>): (s: Step)
    ensures |s.image| == |image|
    ensures s.Continue? ==> s.size <= |image|
    ensures s.Stop? ==> -1 <= s.result <= |image|
  {
    if |line| + 1 >= LineLimit || At(line, 0) != ':' || !HeaderOk(line) then Stop(-1, image)
    else
      var size' := Max(size, End(line, segment));
      if size' > |image| then Stop(-1, image)
      else TypedRecord(line, segment, size', image)
  }

  /** What a record does once its header is read and its end fits the
      capacity, by record type. */
  function TypedRecord(line: string, segment: nat, size': nat, image: seq<byte>): (s: Step)
    requires HeaderOk(line) && End(line, segment) <= size' <= |image|
    ensures |s.image| == |image|
    ensures s.Continue? ==> s.size <= |image|
    ensures s.Stop? ==> -1 <= s.result <= |image|
  {
    if Type(line) == 0 then DataRecord(line, segment, size', image)
    else if Type(line) == 1 then Stop(size', image)
    else if Type(line) == 2 && Len(line) == 2 then SegmentRecord(line, size', image)
    else Stop(-1, image)
  }

  /** A type-00 record: its fields are stored at `segment + addr + i` up to
      the first refused one, then the checksum decides. */
  function DataRecord(line: string, segment: nat, size': nat, image: seq<byte>): (s: Step)
    requires HeaderOk(line) && End(line, segment) <= size' <= |image|
    ensures |s.image| == |image|
  {
    var bad := FirstBad(line, 0, Len(line));
    var image' := WriteData(image, segment + Addr(line), line, bad);
    if bad < Len(line) || !ChecksumOk(line, Len(line)) then Stop(-1, image')
    else Continue(segment, size', image')
  }

  /** A type-02 record of length 2: the new segment is 16 times its value.
      A value whose digits are not hexadecimal is refused here (see
      README, Findings). */
  function SegmentRecord(line: string, size': nat, image: seq<byte>): Step {
    var value := SegmentValue(line);
    if value < 0 || !ChecksumOk(line, 2) then Stop(-1, image)
    else Continue(16 * value, size', image)
  }

  function Max(a: int, b: int): int { if a >= b then a else b }

  /** The `while` loop of `ihex_read` over the remaining lines: the size
      read (at most the capacity) or -1, and the image as left behind. */
  function ReadLines(lines: seq<string>, segment: nat, size: nat, image: seq<byte>): (r: (int, seq<byte>))
    requires size <= |image|
    ensures |r.1| == |image|
    ensures r.0 == -1 || size <= r.0 <= |image|
    decreases |lines|
  {
    if lines == [] then (-1, image)
    else
      match ReadRecord(lines[0], segment, size, image)
      case Stop(res, img) => (res, img)
      case Continue(seg, sz, img) => ReadLines(lines[1..], seg, sz, img)
  }

  /** `ihex_read(fname, image, capacity)` on the lines of the file. */
  function Read(lines: seq<string>, image: seq<byte>): (int, seq<byte>) {
    ReadLines(lines, 0, 0, image)
  }

  /** Every success ends at an End of File record: a file without one is
      refused however its records read. */
  lemma {:induction false} SuccessNeedsEof(lines: seq<string>, segment: nat, size: nat, image: seq<byte>)
    requires size <= |image|
    requires ReadLines(lines, segment, size, image).0 >= 0
    ensures exists k :: 0 <= k < |lines| && HeaderOk(lines[k]) && Type(lines[k]) == 1
  {
    var s := ReadRecord(lines[0], segment, size, image);
    if s.Continue? {
      SuccessNeedsEof(lines[1..], s.segment, s.size, s.image);
      var k :| 0 <= k < |lines[1..]| && HeaderOk(lines[1..][k]) && Type(lines[1..][k]) == 1;
      assert lines[k + 1] == lines[1..][k];
    } else {
      assert HeaderOk(lines[0]) && Type(lines[0]) == 1;
    }
  }

  /** A line the loop lets go on is a well-formed type-00 or type-02
      record: header in hexadecimal, fields summing to 0 modulo 256, end
      within the capacity. A type-00 record stores exactly its `len` bytes
      at `segment + addr + i` and leaves every other image byte alone; a
      type-02 record of length 2 moves the segment to 16 times its value. */
  lemma {:induction false} AcceptedRecord(line: string, segment: nat, size: nat, image: seq<byte>)
    requires ReadRecord(line, segment, size, image).Continue?
    ensures HeaderOk(line) && ChecksumOk(line, Len(line))
    ensures Type(line) == 0 || (Type(line) == 2 && Len(line) == 2)
    ensures ReadRecord(line, segment, size, image).size == Max(size, End(line, segment)) <= |image|
    ensures Type(line) == 0 ==>
      var s := ReadRecord(line, segment, size, image);
      && s.segment == segment
      && (forall i :: 0 <= i < Len(line) ==> -1 <= DataAt(line, i) && s.image[segment + Addr(line) + i] == Store(DataAt(line, i)))
      && (forall j :: 0 <= j < |image| && !(segment + Addr(line) <= j < End(line, segment)) ==> s.image[j] == image[j])
    ensures Type(line) == 2 ==>
      var s := ReadRecord(line, segment, size, image);
      && 0 <= SegmentValue(line) && s.segment == 16 * SegmentValue(line) && s.image == image
  {
    var len := Len(line);
    if Type(line) == 0 {
      forall i | 0 <= i < len
        ensures -1 <= DataAt(line, i)
      {
        if DataAt(line, i) < -1 {
          FirstBadIs(line, 0, len, i);
        }
      }
      WriteDataAt(image, segment + Addr(line), line, len);
    }
  }

  /** The loop stops with a size exactly at a type-01 record whose end fits
      the capacity; the size is then the largest record end seen. */
  lemma EndOfFileRecord(line: string, segment: nat, size: nat, image: seq<byte>)
    ensures ReadRecord(line, segment, size, image).Stop? && ReadRecord(line, segment, size, image).result >= 0
        <==> |line| + 1 < LineLimit && At(line, 0) == ':' && HeaderOk(line) && Type(line) == 1
             && Max(size, End(line, segment)) <= |image|
    ensures ReadRecord(line, segment, size, image).Stop? && ReadRecord(line, segment, size, image).result >= 0 ==>
      ReadRecord(line, segment, size, image) == Stop(Max(size, End(line, segment)), image)
  {
  }

  /** The End of File record's own checksum is never looked at. */
  lemma EofChecksumIgnored(image: seq<byte>)
    ensures !ChecksumOk(":0000000100", 0)
    ensures ReadRecord(":0000000100", 0, 0, image) == Stop(0, image)
  {
    var l := ":0000000100";
    EofFields(l);
    EndOfFileRecord(l, 0, 0, image);
  }

  /** The fields of an End of File record whose checksum field is "00"
      instead of "FF". */
  lemma EofFields(l: string)
    requires l == ":0000000100"
    ensures |l| + 1 < LineLimit && At(l, 0) == ':'
    ensures HeaderOk(l) && Type(l) == 1 && End(l, 0) == 0
    ensures RecordSum(l, 0) == 1
  {
    Zeros00();
    ByteAtIs(l, 1, '0', '0');
    ByteAtIs(l, 3, '0', '0');
    ByteAtIs(l, 5, '0', '0');
    ByteAtIs(l, 7, '0', '1');
    ByteAtIs(l, 9, '0', '0');
  }

  /** A field whose two characters are known. */
  lemma ByteAtIs(line: string, k: nat, c0: char, c1: char)
    requires k + 1 < |line| && line[k] == c0 && line[k + 1] == c1
    ensures ByteAt(line, k) == HexByte(c0, c1)
  {
  }

  /** The digit pairs the concrete records below are made of. */
  lemma Zeros00()
    ensures HexByte('0', '0') == 0 && HexByte('0', '1') == 1 && HexByte('0', '2') == 2
    ensures HexByte('1', '0') == 16 && HexByte('F', '0') == 240 && HexByte('F', 'E') == 254
    ensures HexByte('Z', 'Z') == -1
  {
  }

  /** Any record type other than 00, 01 and 02 of length 2 ends the read
      with -1. */
  lemma UnsupportedRecord(line: string, segment: nat, size: nat, image: seq<byte>)
    requires HeaderOk(line) && !(Type(line) == 0 || Type(line) == 1 || (Type(line) == 2 && Len(line) == 2))
    ensures ReadRecord(line, segment, size, image) == Stop(-1, image)
  {
  }

  /** Reading the lines of a file: a result is -1 or a size within the
      capacity, and the image keeps its length. */
  lemma {:induction false} ReadBounds(lines: seq<string>, image: seq<byte>)
    ensures |Read(lines, image).1| == |image|
    ensures Read(lines, image).0 == -1 || 0 <= Read(lines, image).0 <= |image|
  {
  }

  // ---- The segment computation as written --------------------------------

  /** `segment = (hex_byte(buffer+9)<<8 | hex_byte(buffer+11)) * 16` stored
      into an `unsigned long` (64 bits), where a value whose digits are not
      hexadecimal is negative and wraps around. */
  function SegmentAsWritten(line: string): (seg: nat)
    ensures seg < U64
  {
    (SegmentValue(line) * 16) % U64
  }

  /** `base = addr + segment` in 64-bit unsigned arithmetic. */
  function BaseAsWritten(line: string, segment: nat): nat {
    (Addr(line) + segment) % U64
  }

  /** `base + len`, also in 64-bit unsigned arithmetic. */
  function EndAsWritten(line: string, segment: nat): nat {
    (BaseAsWritten(line, segment) + Len(line)) % U64
  }

  /** ":10000000" followed by 32 zero digits and "F0": sixteen zero bytes
      at address 0, with a correct checksum. */
  function ZeroRecord(): (l: string)
    ensures |l| == 43
  {
    ":10000000" + seq(32, _ => '0') + "F0"
  }

  /** A type-02 record with the digits "ZZZZ" passes the checksum and, as
      written, sets the segment to 2^64 - 16. The data record that follows
      then ends at 0 (so the size check lets it through) but starts at
      `2^64 - 16`, i.e. 16 bytes before the image: the store
      `image[base+i]` writes outside the buffer. The corrected reader
      refuses the segment record. */
  lemma WrappedSegmentWritesOutside(image: seq<byte>)
    requires 2 <= |image| < U64 - 16
    ensures var seg := ":02000002ZZZZFE";
      && HeaderOk(seg) && Type(seg) == 2 && Len(seg) == 2 && ChecksumOk(seg, 2)
      && SegmentValue(seg) == -1 && SegmentAsWritten(seg) == U64 - 16
      && ReadRecord(seg, 0, 0, image) == Stop(-1, image)
    ensures var seg, data := ":02000002ZZZZFE", ZeroRecord();
      && HeaderOk(data) && Type(data) == 0 && Len(data) == 16 && ChecksumOk(data, 16)
      && EndAsWritten(data, SegmentAsWritten(seg)) == 0 <= End(seg, 0)
      && BaseAsWritten(data, SegmentAsWritten(seg)) >= |image|
  {
    var seg := ":02000002ZZZZFE";
    SegmentWraps(seg);
    ZeroRecordAfterWrap(ZeroRecord());
    assert ReadRecord(seg, 0, 0, image) == TypedRecord(seg, 0, 2, image);
  }

  /** The segment record's value is -1, which the multiplication by 16
      turns into 2^64 - 16. */
  lemma SegmentWraps(seg: string)
    requires seg == ":02000002ZZZZFE"
    ensures |seg| + 1 < LineLimit && At(seg, 0) == ':' && End(seg, 0) == 2
    ensures HeaderOk(seg) && Type(seg) == 2 && Len(seg) == 2 && ChecksumOk(seg, 2)
    ensures SegmentValue(seg) == -1 && SegmentAsWritten(seg) == U64 - 16
  {
    SegmentFields(seg);
    Wrap(-16, -1);
  }

  /** With the segment at 2^64 - 16 the data record starts there and ends,
      after wrapping, at 0. */
  lemma ZeroRecordAfterWrap(data: string)
    requires data == ZeroRecord()
    ensures HeaderOk(data) && Type(data) == 0 && Len(data) == 16 && ChecksumOk(data, 16)
    ensures BaseAsWritten(data, U64 - 16) == U64 - 16
    ensures EndAsWritten(data, U64 - 16) == 0
  {
    DataFields(data);
    Wrap(U64 - 16, 0);
    assert Addr(data) + (U64 - 16) == U64 - 16;
    Wrap(U64, 1);
  }

  /** The fields of the segment record ":02000002ZZZZFE". */
  lemma SegmentFields(l: string)
    requires l == ":02000002ZZZZFE"
    ensures |l| + 1 < LineLimit && At(l, 0) == ':'
    ensures Len(l) == 2 && AddrHi(l) == 0 && AddrLo(l) == 0 && Type(l) == 2
    ensures HeaderOk(l) && Addr(l) == 0 && End(l, 0) == 2
    ensures DataAt(l, 0) == -1 && DataAt(l, 1) == -1 && DataAt(l, 2) == 254
    ensures RecordSum(l, 2) == 256
  {
    Zeros00();
    ByteAtIs(l, 1, '0', '2');
    ByteAtIs(l, 3, '0', '0');
    ByteAtIs(l, 5, '0', '0');
    ByteAtIs(l, 7, '0', '2');
    ByteAtIs(l, 9, 'Z', 'Z');
    ByteAtIs(l, 11, 'Z', 'Z');
    ByteAtIs(l, 13, 'F', 'E');
    assert DataSum(l, 1) == -1;
    assert DataSum(l, 2) == -2;
  }

  /** The fields of the data record of sixteen zero bytes at address 0
      and checksum F0. */
  lemma DataFields(l: string)
    requires l == ZeroRecord()
    ensures Len(l) == 16 && AddrHi(l) == 0 && AddrLo(l) == 0 && Type(l) == 0
    ensures HeaderOk(l) && Addr(l) == 0
    ensures DataSum(l, 16) == 0 && DataAt(l, 16) == 240
    ensures RecordSum(l, 16) == 256
  {
    Zeros00();
    ByteAtIs(l, 1, '1', '0');
    ByteAtIs(l, 3, '0', '0');
    ByteAtIs(l, 5, '0', '0');
    ByteAtIs(l, 7, '0', '0');
    ByteAtIs(l, 41, 'F', '0');
    ZeroPayload(l);
    DataSumZero(l, 16);
  }

  lemma ZeroPayload(l: string)
    requires l == ZeroRecord()
    ensures |l| == 43 && forall k :: 9 <= k < 41 ==> l[k] == '0'
  {
  }

  lemma {:induction false} DataSumZero(line: string, n: nat)
    requires 9 + 2 * n <= |line|
    requires forall k :: 9 <= k < 9 + 2 * n ==> line[k] == '0'
    ensures DataSum(line, n) == 0
  {
    if n > 0 {
      DataSumZero(line, n - 1);
      assert DataAt(line, n - 1) == HexByte('0', '0');
    }
  }

  /** `a - v` with `a` first reduced modulo 256 agrees with `a - v`. */
  lemma SubMod(a: int, v: int)
    ensures (a % 256 - v) % 256 == (a - v) % 256
  {
    var q := a / 256;
    assert a == 256 * q + a % 256;
    assert a - v == (a % 256 - v) + 256 * q;
  }

  /** `ihex_read` itself: the lines are consumed one at a time and the image
      is written in place. */
  method IhexRead(lines: seq<string>, image: array<byte>) returns (r: int)
    modifies image
    ensures (r, image[..]) == Read(lines, old(image[..]))
  {
    var segment: nat, size: nat := 0, 0;
    var lnr := 0;
    while lnr < |lines|
      invariant 0 <= lnr <= |lines|
      invariant size <= image.Length
      invariant Read(lines, old(image[..])) == ReadLines(lines[lnr..], segment, size, image[..])
    {
      assert lines[lnr..][1..] == lines[lnr + 1..];
      var stop, res;
      stop, res, segment, size := ReadOneRecord(lines[lnr], segment, size, image);
      if stop {
        return res;
      }
      lnr := lnr + 1;
    }
    return -1;
  }

  /** The body of the line loop. The running checksum `hex_byte_cksum`
      is 0 whenever a line starts: it is reset before the first line and
      every line that lets the loop go on has brought it back to 0. */
  method ReadOneRecord(line: string, segment: nat, size: nat, image: array<byte>)
    returns (stop: bool, result: int, segment': nat, size': nat)
    requires size <= image.Length
    modifies image
    ensures stop ==> ReadRecord(line, segment, size, old(image[..])) == Stop(result, image[..])
    ensures !stop ==> ReadRecord(line, segment, size, old(image[..])) == Continue(segment', size', image[..])
  {
    stop, result, segment', size' := true, -1, segment, size;
    if |line| + 1 >= LineLimit || At(line, 0) != ':' {
      return;
    }
    var len, addr, rtype, cksum := ParseHeader(line);
    if len < 0 || addr < 0 || rtype < 0 {
      return;
    }
    var base := addr + segment;
    if base + len >= size' {
      size' := base + len;
    }
    assert size' == Max(size, End(line, segment));
    if size' > image.Length {
      return;
    }
    stop, result, segment' := ReadTyped(line, segment, size', image, cksum);
  }

  /** The record-type dispatch of the line loop, entered with the running
      checksum left by the header. */
  method ReadTyped(line: string, segment: nat, size': nat, image: array<byte>, cksum: nat)
    returns (stop: bool, result: int, segment': nat)
    requires HeaderOk(line) && End(line, segment) <= size' <= image.Length
    requires cksum == (-(Len(line) + AddrHi(line) + AddrLo(line) + Type(line))) % 256
    modifies image
    ensures stop ==> TypedRecord(line, segment, size', old(image[..])) == Stop(result, image[..])
    ensures !stop ==> TypedRecord(line, segment, size', old(image[..])) == Continue(segment', size', image[..])
  {
    stop, result, segment' := true, -1, segment;
    var len, rtype := Len(line), Type(line);
    if rtype == 0 {
      stop, result := ReadDataRecord(line, segment, size', image, cksum);
    } else if rtype == 1 {
      return true, size', segment;
    } else if rtype == 2 && len == 2 {
      stop, result, segment' := ReadSegmentRecord(line, size', image, cksum);
    }
  }

  /** A type-00 record: the data loop, then the checksum field. */
  method ReadDataRecord(line: string, segment: nat, size': nat, image: array<byte>, cksum: nat)
    returns (stop: bool, result: int)
    requires HeaderOk(line) && End(line, segment) <= size' <= image.Length
    requires cksum == (-(Len(line) + AddrHi(line) + AddrLo(line) + Type(line))) % 256
    modifies image
    ensures stop ==> DataRecord(line, segment, size', old(image[..])) == Stop(result, image[..])
    ensures !stop ==> DataRecord(line, segment, size', old(image[..])) == Continue(segment, size', image[..])
  {
    var len := Len(line);
    ghost var before := image[..];
    var ok, cksum' := StoreData(line, segment + Addr(line), len, image, cksum);
    ghost var after := WriteData(before, segment + Addr(line), line, FirstBad(line, 0, len));
    assert image[..] == after;
    if !ok {
      assert DataRecord(line, segment, size', before) == Stop(-1, after);
      return true, -1;
    }
    SubMod(-(len + AddrHi(line) + AddrLo(line) + Type(line)), DataSum(line, len));
    ok := CheckTail(line, len, cksum');
    stop, result := !ok, -1;
    assert DataRecord(line, segment, size', before) == if ok then Continue(segment, size', after) else Stop(-1, after);
  }

  /** A type-02 record of length 2: the new segment, then the checksum
      field. */
  method ReadSegmentRecord(line: string, size': nat, image: array<byte>, cksum: nat)
    returns (stop: bool, result: int, segment': nat)
    requires HeaderOk(line) && Len(line) == 2
    requires cksum == (-(Len(line) + AddrHi(line) + AddrLo(line) + Type(line))) % 256
    ensures stop ==> SegmentRecord(line, size', image[..]) == Stop(result, image[..])
    ensures !stop ==> SegmentRecord(line, size', image[..]) == Continue(segment', size', image[..])
  {
    stop, result, segment' := true, -1, 0;
    var value, cksum' := ReadSegmentValue(line, cksum);
    if value < 0 {
      return;
    }
    segment' := 16 * value;
    var ok := CheckTail(line, 2, cksum');
    stop := !ok;
  }

  /** The two fields of a type-02 record, taken off the running checksum. */
  method ReadSegmentValue(line: string, cksum: nat) returns (value: int, cksum': nat)
    requires HeaderOk(line) && Len(line) == 2
    requires cksum == (-(Len(line) + AddrHi(line) + AddrLo(line) + Type(line))) % 256
    ensures value == SegmentValue(line)
    ensures cksum' == (-(Len(line) + AddrHi(line) + AddrLo(line) + Type(line) + DataSum(line, 2))) % 256
  {
    var hdr := -(Len(line) + AddrHi(line) + AddrLo(line) + Type(line));
    var s0, s1;
    s0, cksum' := HexByteField(line, 9, cksum);
    SubMod(hdr, s0);
    s1, cksum' := HexByteField(line, 11, cksum');
    SubMod(hdr - s0, s1);
    assert DataSum(line, 1) == s0;
    assert DataSum(line, 2) == s0 + s1;
    value := ShlOr(s0, s1, 256);
  }

  /** The four header fields, each taken off the running checksum. */
  method ParseHeader(line: string) returns (len: int, addr: int, rtype: int, cksum: nat)
    ensures len == Len(line) && addr == Addr(line) && rtype == Type(line)
    ensures cksum == (-(Len(line) + AddrHi(line) + AddrLo(line) + Type(line))) % 256
  {
    var hi, lo;
    len, cksum := HexByteField(line, 1, 0);
    hi, cksum := HexByteField(line, 3, cksum);
    SubMod(-len, hi);
    lo, cksum := HexByteField(line, 5, cksum);
    SubMod(-len - hi, lo);
    rtype, cksum := HexByteField(line, 7, cksum);
    SubMod(-len - hi - lo, rtype);
    assert -len - hi - lo - rtype == -(Len(line) + AddrHi(line) + AddrLo(line) + Type(line));
    addr := ShlOr(hi, lo, 256);
  }

  /** The checksum field, after which the running checksum must be 0. */
  method CheckTail(line: string, len: nat, cksum: nat) returns (ok: bool)
    requires cksum == (-(Len(line) + AddrHi(line) + AddrLo(line) + Type(line) + DataSum(line, len))) % 256
    ensures ok == ChecksumOk(line, len)
  {
    var ck, c;
    ck, c := HexByteField(line, 9 + 2 * len, cksum);
    SubMod(-(Len(line) + AddrHi(line) + AddrLo(line) + Type(line) + DataSum(line, len)), ck);
    NegMod(RecordSum(line, len));
    ok := c == 0;
  }

  /** Reduction modulo 2^64 of a value `q` words away from its remainder. */
  lemma Wrap(x: int, q: int)
    requires 0 <= x - q * U64 < U64
    ensures x % U64 == x - q * U64
  {
  }

  lemma NegMod(y: int)
    ensures (-y) % 256 == 0 <==> y % 256 == 0
  {
  }

  /** The data loop of a type-00 record: each field is parsed (and taken off
      the running checksum) and stored at `image[base + i]`, until a field
      that is refused. */
  method StoreData(line: string, base: nat, len: nat, image: array<byte>, cksum: nat)
    returns (ok: bool, cksum': nat)
    requires base + len <= image.Length
    modifies image
    ensures ok == (FirstBad(line, 0, len) == len)
    ensures image[..] == WriteData(old(image[..]), base, line, FirstBad(line, 0, len))
    ensures ok ==> cksum' == (cksum - DataSum(line, len)) % 256
    ensures cksum' < 256
  {
    ghost var before := image[..];
    var i := 0;
    cksum' := cksum % 256;
    while i < len
      invariant 0 <= i <= len
      invariant i <= FirstBad(line, 0, len)
      invariant image[..] == WriteData(before, base, line, i)
      invariant cksum' == (cksum - DataSum(line, i)) % 256
    {
      var byte;
      byte, cksum' := DataField(line, i, cksum, cksum');
      if byte < -1 {
        FirstBadIs(line, 0, len, i);
        return false, cksum';
      }
      FirstBadPast(line, 0, len, i);
      StoreField(image, base, line, i, byte, before);
      i := i + 1;
    }
    ok := true;
  }

  /** Data field i, parsed and taken off the running checksum. */
  method DataField(line: string, i: nat, cksum: int, c: nat) returns (v: int, c': nat)
    requires c == (cksum - DataSum(line, i)) % 256
    ensures v == DataAt(line, i) && c' == (cksum - DataSum(line, i + 1)) % 256
  {
    v, c' := HexByteField(line, 9 + 2 * i, c);
    DataSumStep(line, cksum, i, c, v);
  }

  /** `image[base + i] = byte`: the image holds one more field. */
  method StoreField(image: array<byte>, base: nat, line: string, i: nat, v: int, ghost before: seq<byte>)
    requires base + i < image.Length == |before| && v == DataAt(line, i)
    requires image[..] == WriteData(before, base, line, i)
    modifies image
    ensures image[..] == WriteData(before, base, line, i + 1)
  {
    image[base + i] := Store(v);
  }

  /** Taking data field i off the running checksum of the first i fields
      gives the running checksum of the first i + 1. */
  lemma DataSumStep(line: string, cksum: int, i: nat, c: int, byte: int)
    requires c == (cksum - DataSum(line, i)) % 256 && byte == DataAt(line, i)
    ensures (c - byte) % 256 == (cksum - DataSum(line, i + 1)) % 256
  {
    SubMod(cksum - DataSum(line, i), byte);
    assert DataSum(line, i + 1) == DataSum(line, i) + byte;
  }

  /** `hex_byte(buffer + k)` with its side effect on the running checksum. */
  method HexByteField(line: string, k: nat, cksum: nat) returns (v: int, cksum': nat)
    ensures v == ByteAt(line, k)
    ensures cksum' == (cksum - v) % 256
  {
    v := HexByte(At(line, k), At(line, k + 1));
    cksum' := CksumSub(cksum, v);
  }
}
