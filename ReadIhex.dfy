/** The older Intel HEX reader of readihex.c: Data and End of File records
    only (i8hex, no segments), each record stored at its own 16-bit
    address. Its running checksum `hex_byte_cksum` is a static that no call
    resets, so it is a field of a `Reader` object here and carries over
    from one call to the next. A file is a sequence of lines, each without
    its newline. The header and data fields are parsed as by ihexread.c
    (`At`, `ByteAt` and the field functions of IhexRead). */
module ReadIhex {
  import opened HexDigits
  import opened IhexRead
  import IhexWrite
  import IhexRoundTrip

  /** What one line does: the loop goes on with the checksum and image it
      leaves, or `ihex_read` returns `result` (0 or -1, `(size_t)-1`). */
  datatype Outcome =
    | Next(cksum: nat, image: seq<byte>)
    | Done(result: int, cksum: nat, image: seq<byte>)

  /** The four header fields, all taken off the running checksum before
      any of them is examined. */
  function HeaderSum(line: string): int {
    Len(line) + AddrHi(line) + AddrLo(line) + Type(line)
  }

  /** How many data fields the loop parses: up to and including the first
      refused one, or all `len` of them. */
  function FieldsRead(line: string, len: nat): (k: nat)
    ensures k <= len
  {
    var bad := FirstBad(line, 0, len);
    if bad < len then bad + 1 else len
  }

  /** The body of the line loop of readihex.c's `ihex_read` for one line,
      entered with the running checksum `c`; `|image|` is the capacity.
      Fields past the end of the line read as non-hexadecimal. */
  function Record(line: string, c: nat, image: seq<byte>): (o: Outcome)
    ensures |o.image| == |image|
    ensures o.Done? ==> o.result == 0 || o.result == -1
    ensures c < 256 ==> o.cksum < 256
  {
    if |line| + 1 >= LineLimit || At(line, 0) != ':' then Done(-1, c, image)
    else HeaderStage(line, (c - HeaderSum(line)) % 256, image)
  }

  /** After the header fields, entered with the checksum `c1` they leave:
      a refused field or a record reaching the capacity stops the call. */
  function HeaderStage(line: string, c1: nat, image: seq<byte>): (o: Outcome)
    ensures |o.image| == |image|
    ensures o.Done? ==> o.result == 0 || o.result == -1
    ensures c1 < 256 ==> o.cksum < 256
  {
    if !HeaderOk(line) || Addr(line) + Len(line) >= |image| then Done(-1, c1, image)
    else DataStage(line, c1, image)
  }

  /** The data fields: parsed up to the first refused one, which stops the
      call, and stored only for a Data record. */
  function DataStage(line: string, c1: nat, image: seq<byte>): (o: Outcome)
    requires HeaderOk(line) && Addr(line) + Len(line) < |image|
    ensures |o.image| == |image|
    ensures o.Done? ==> o.result == 0 || o.result == -1
    ensures c1 < 256 ==> o.cksum < 256
  {
    var len := Len(line);
    var bad := FirstBad(line, 0, len);
    var image' := Stored(line, image, bad);
    if bad < len then Done(-1, ChecksumAfter(c1, line, bad + 1), image')
    else TailStage(line, (ChecksumAfter(c1, line, len) - DataAt(line, len)) % 256, image')
  }

  /** After the checksum field, with the checksum `c2` left: it must be 0,
      and only then is the type looked at. */
  function TailStage(line: string, c2: nat, image: seq<byte>): (o: Outcome)
    ensures o.image == image
    ensures o.Done? ==> o.result == 0 || o.result == -1
    ensures c2 < 256 ==> o.cksum < 256
  {
    if c2 != 0 then Done(-1, c2, image)
    else if Type(line) == 1 then Done(0, 0, image)
    else if Type(line) >= 2 then Done(-1, 0, image)
    else Next(0, image)
  }

  /** The line loop: the result, the running checksum it leaves behind and
      the image. Running out of lines returns 0 like an End of File record. */
  function ReadAll(lines: seq<string>, c: nat, image: seq<byte>): (r: (int, nat, seq<byte>))
    ensures r.0 == 0 || r.0 == -1
    ensures |r.2| == |image|
    decreases |lines|
  {
    if lines == [] then (0, c, image)
    else
      match Record(lines[0], c, image)
      case Done(res, c', img) => (res, c', img)
      case Next(c', img) => ReadAll(lines[1..], c', img)
  }

  /** A line the loop accepts and goes on from, for checksum `c` and
      capacity `cap`. */
  predicate Accepts(line: string, c: nat, cap: nat) {
    && |line| + 1 < LineLimit && At(line, 0) == ':' && HeaderOk(line)
    && Addr(line) + Len(line) < cap && Type(line) == 0
    && FirstBad(line, 0, Len(line)) == Len(line)
    && (c - RecordSum(line, Len(line))) % 256 == 0
  }

  /** The checksum test of the loop, `hex_byte_cksum != 0` after the last
      field, is the record sum taken off the incoming checksum. */
  lemma TailChecksum(line: string, c: nat, len: nat)
    ensures (ChecksumAfter((c - HeaderSum(line)) % 256, line, len) - DataAt(line, len)) % 256
      == (c - RecordSum(line, len)) % 256
  {
    Sub3(c, HeaderSum(line), DataSum(line, len), DataAt(line, len), RecordSum(line, len));
  }

  /** Taking three values off an unsigned char one after the other. */
  lemma Sub3(c: int, h: int, d: int, t: int, sum: int)
    requires sum == h + d + t
    ensures (((c - h) % 256 - d) % 256 - t) % 256 == (c - sum) % 256
  {
    SubMod(c - h, d);
    SubMod(c - h - d, t);
  }

  /** The running checksum after the first `i` data fields, entered
      with `c`. */
  function ChecksumAfter(c: int, line: string, i: nat): int {
    (c - DataSum(line, i)) % 256
  }

  /** One more data field taken off the running checksum. */
  lemma FieldStep(c: int, line: string, i: nat, v: int)
    requires v == DataAt(line, i)
    ensures (ChecksumAfter(c, line, i) - v) % 256 == ChecksumAfter(c, line, i + 1)
  {
    SubMod(c - DataSum(line, i), v);
  }

  /** The image a record leaves once its fields up to `bad` are parsed. */
  function Stored(line: string, image: seq<byte>, bad: nat): seq<byte>
    requires 0 <= Addr(line) && Addr(line) + bad <= |image|
  {
    if Type(line) == 0 then WriteData(image, Addr(line), line, bad) else image
  }

  /** What the data loop leaves, for the record's own type and address. */
  lemma StoredIs(line: string, image: seq<byte>, bad: nat, image': seq<byte>)
    requires 0 <= Addr(line) && Addr(line) + bad <= |image|
    requires Type(line) == 0 ==> image' == WriteData(image, Addr(line), line, bad)
    requires Type(line) != 0 ==> image' == image
    ensures image' == Stored(line, image, bad)
  {
  }

  /** The data stage when a field is refused, with the checksum `c2` and
      the image `image'` the data loop leaves. */
  lemma DataStageRefused(line: string, c1: nat, image: seq<byte>, c2: nat, image': seq<byte>)
    requires HeaderOk(line) && Addr(line) + Len(line) < |image|
    requires FirstBad(line, 0, Len(line)) < Len(line)
    requires c2 == ChecksumAfter(c1, line, FieldsRead(line, Len(line)))
    requires image' == Stored(line, image, FirstBad(line, 0, Len(line)))
    ensures DataStage(line, c1, image) == Done(-1, c2, image')
  {
  }

  /** The data stage when every field is read: on to the tail, with the
      checksum `c` and the image `image'` the data loop leaves. */
  lemma DataStageRead(line: string, c1: nat, image: seq<byte>, c: int, image': seq<byte>)
    requires HeaderOk(line) && Addr(line) + Len(line) < |image|
    requires FirstBad(line, 0, Len(line)) == Len(line)
    requires c == ChecksumAfter(c1, line, FieldsRead(line, Len(line)))
    requires image' == Stored(line, image, FirstBad(line, 0, Len(line)))
    ensures DataStage(line, c1, image) == TailStage(line, (c - DataAt(line, Len(line))) % 256, image')
  {
  }

  /** A line refused before its data fields: too long, no colon, a
      header field that is not hexadecimal, or a record reaching the
      capacity. The image is left alone. */
  lemma HeaderRefused(line: string, c: nat, image: seq<byte>)
    requires !(|line| + 1 < LineLimit && At(line, 0) == ':' && HeaderOk(line) && Addr(line) + Len(line) < |image|)
    ensures Record(line, c, image).Done? && Record(line, c, image).result == -1
    ensures Record(line, c, image).image == image
  {
    if |line| + 1 < LineLimit && At(line, 0) == ':' {
      assert Record(line, c, image) == HeaderStage(line, (c - HeaderSum(line)) % 256, image);
    }
  }

  /** A line that passes the header goes on to the data stage, entered
      with the header fields taken off `c`; the checksum the checksum field
      then leaves is the record sum taken off `c`. */
  lemma PastHeader(line: string, c: nat, image: seq<byte>)
    requires |line| + 1 < LineLimit && At(line, 0) == ':' && HeaderOk(line) && Addr(line) + Len(line) < |image|
    ensures Record(line, c, image) == DataStage(line, (c - HeaderSum(line)) % 256, image)
    ensures (ChecksumAfter((c - HeaderSum(line)) % 256, line, Len(line)) - DataAt(line, Len(line))) % 256
      == (c - RecordSum(line, Len(line))) % 256
  {
    TailChecksum(line, c, Len(line));
  }

  /** What the data stage ends in once every field is read, by the
      checksum the checksum field leaves and the type: it goes on for a
      Data record and returns 0 for an End of File record whose checksum
      comes to 0, and returns -1 otherwise. */
  lemma DataStageOutcome(line: string, c1: nat, image: seq<byte>)
    requires HeaderOk(line) && Addr(line) + Len(line) < |image|
    ensures var o := DataStage(line, c1, image);
      var ok := FirstBad(line, 0, Len(line)) == Len(line)
        && (ChecksumAfter(c1, line, Len(line)) - DataAt(line, Len(line))) % 256 == 0;
      && (o.Next? <==> ok && Type(line) == 0)
      && (o.Next? ==> o == Next(0, WriteData(image, Addr(line), line, Len(line))))
      && (o.Done? && o.result == 0 <==> ok && Type(line) == 1)
      && (o.Done? && o.result == 0 ==> o == Done(0, 0, image))
      && (FirstBad(line, 0, Len(line)) == Len(line) && !ok ==> o.Done? && o.result == -1)
  {
    var len := Len(line);
    var bad := FirstBad(line, 0, len);
    var image' := Stored(line, image, bad);
    if bad < len {
      DataStageRefused(line, c1, image, ChecksumAfter(c1, line, FieldsRead(line, len)), image');
    } else {
      assert FieldsRead(line, len) == len;
      DataStageRead(line, c1, image, ChecksumAfter(c1, line, len), image');
    }
  }

  /** The loop goes on from a line exactly when it is a well-formed Data
      record that ends below the capacity, every field is hexadecimal (or
      -1) and the checksum holds; it then stores the record's bytes at its
      address and leaves the checksum at 0. */
  lemma RecordAccepted(line: string, c: nat, image: seq<byte>)
    ensures Record(line, c, image).Next? <==> Accepts(line, c, |image|)
    ensures Record(line, c, image).Next? ==>
      Record(line, c, image) == Next(0, WriteData(image, Addr(line), line, Len(line)))
  {
    if |line| + 1 < LineLimit && At(line, 0) == ':' && HeaderOk(line) && Addr(line) + Len(line) < |image| {
      PastHeader(line, c, image);
      DataStageOutcome(line, (c - HeaderSum(line)) % 256, image);
    } else {
      HeaderRefused(line, c, image);
    }
  }


  /** A record is refused when it ends at or past the capacity (`>=`), so
      unlike ihexread.c's reader a record may not end exactly at the
      capacity; the image is left alone. */
  lemma CapacityExclusive(line: string, c: nat, image: seq<byte>)
    requires Addr(line) + Len(line) >= |image|
    ensures Record(line, c, image).Done? && Record(line, c, image).result == -1
    ensures Record(line, c, image).image == image
  {
    HeaderRefused(line, c, image);
  }

  /** The checksum is checked before the type is looked at: a record whose
      fields are all read and whose checksum fails is refused whatever its
      type, End of File included. */
  lemma ChecksumBeforeType(line: string, c: nat, image: seq<byte>)
    requires Len(line) >= 0 && FirstBad(line, 0, Len(line)) == Len(line)
    requires (c - RecordSum(line, Len(line))) % 256 != 0
    ensures Record(line, c, image).Done? && Record(line, c, image).result == -1
  {
    if |line| + 1 < LineLimit && At(line, 0) == ':' && HeaderOk(line) && Addr(line) + Len(line) < |image| {
      PastHeader(line, c, image);
      DataStageOutcome(line, (c - HeaderSum(line)) % 256, image);
    } else {
      HeaderRefused(line, c, image);
    }
  }

  /** A line returns 0 exactly when it is an End of File record (of any
      length) within the capacity whose fields are read and whose checksum
      holds; the image is then left alone. */
  lemma EndOfFileStops(line: string, c: nat, image: seq<byte>)
    ensures Record(line, c, image).Done? && Record(line, c, image).result == 0
      <==> && |line| + 1 < LineLimit && At(line, 0) == ':' && HeaderOk(line)
           && Addr(line) + Len(line) < |image| && Type(line) == 1
           && FirstBad(line, 0, Len(line)) == Len(line)
           && (c - RecordSum(line, Len(line))) % 256 == 0
    ensures Record(line, c, image).Done? && Record(line, c, image).result == 0 ==>
      Record(line, c, image) == Done(0, 0, image)
  {
    if |line| + 1 < LineLimit && At(line, 0) == ':' && HeaderOk(line) && Addr(line) + Len(line) < |image| {
      PastHeader(line, c, image);
      DataStageOutcome(line, (c - HeaderSum(line)) % 256, image);
    } else {
      HeaderRefused(line, c, image);
    }
  }

  /** Only Data records write into the image: the fields of other types
      are parsed for the checksum and dropped. A Data record writes its
      fields at `addr + i`, up to the first refused one. */
  lemma OnlyDataWrites(line: string, c: nat, image: seq<byte>)
    requires |line| + 1 < LineLimit && At(line, 0) == ':' && HeaderOk(line) && Addr(line) + Len(line) < |image|
    ensures Type(line) != 0 ==> Record(line, c, image).image == image
    ensures Type(line) == 0 ==>
      Record(line, c, image).image == WriteData(image, Addr(line), line, FirstBad(line, 0, Len(line)))
  {
  }

  /** A type 2 or higher record never lets the loop go on or succeed. */
  lemma HigherTypesRefused(line: string, c: nat, image: seq<byte>)
    requires Type(line) >= 2
    ensures Record(line, c, image).Done? && Record(line, c, image).result == -1
  {
  }

  /** A file of Data records only, without an End of File record, is
      accepted: running out of lines returns 0. */
  lemma {:induction false} NoEndOfFileNeeded(lines: seq<string>, image: seq<byte>)
    requires forall k :: 0 <= k < |lines| ==> Accepts(lines[k], 0, |image|)
    ensures ReadAll(lines, 0, image).0 == 0
    decreases |lines|
  {
    if lines != [] {
      RecordAccepted(lines[0], 0, image);
      var image' := Record(lines[0], 0, image).image;
      assert forall k :: 0 <= k < |lines[1..]| ==> lines[1..][k] == lines[k + 1];
      NoEndOfFileNeeded(lines[1..], image');
    }
  }

  /** A record whose checksum holds from a clean state is refused when the
      call starts with a stale non-zero checksum. */
  lemma StaleChecksumRefuses(line: string, c: nat, image: seq<byte>)
    requires 0 < c < 256 && Len(line) >= 0
    requires (0 - RecordSum(line, Len(line))) % 256 == 0
    ensures !Record(line, c, image).Next?
    ensures !(Record(line, c, image).Done? && Record(line, c, image).result == 0)
  {
    var s := RecordSum(line, Len(line));
    var q := (0 - s) / 256;
    assert -s == 256 * q;
    assert c - s == c + 256 * q;
    RecordAccepted(line, c, image);
    EndOfFileStops(line, c, image);
  }

  /** A call that stops at a line whose header is not hexadecimal leaves
      the checksum at 4: the four header fields each read -1. */
  lemma AbortLeavesChecksum(line: string, image: seq<byte>)
    requires line == ":G"
    ensures ReadAll([line], 0, image) == (-1, 4, image)
  {
    assert At(line, 1) == 'G';
    assert Len(line) == -1 && AddrHi(line) == -1 && AddrLo(line) == -1 && Type(line) == -1;
  }

  /** A file of one line. */
  lemma OneLine(line: string, c: nat, image: seq<byte>)
    ensures var o := Record(line, c, image);
      ReadAll([line], c, image) == if o.Done? then (o.result, o.cksum, o.image) else (0, o.cksum, o.image)
  {
    assert [line][1..] == [];
  }

  /** As written: after a call that stopped at `abort` as above, a file
      that is only the End of File record is refused. */
  lemma StaleChecksumRefusesEof(abort: string, eof: string, image: seq<byte>)
    requires abort == ":G" && eof == IhexWrite.EofLine && |image| > 0
    ensures ReadAll([abort], 0, image).1 == 4
    ensures ReadAll([eof], 4, image).0 == -1
  {
    AbortLeavesChecksum(abort, image);
    IhexRoundTrip.EofLineFields(eof);
    EofRecordStale(eof, image);
    OneLine(eof, 4, image);
  }

  /** From the checksum 4 an End of File record with no data is refused. */
  lemma EofRecordStale(eof: string, image: seq<byte>)
    requires Len(eof) == 0 && RecordSum(eof, 0) == 256
    ensures !Record(eof, 4, image).Next?
    ensures !(Record(eof, 4, image).Done? && Record(eof, 4, image).result == 0)
  {
    StaleChecksumRefuses(eof, 4, image);
  }

  /** Corrected: from a clean checksum the same file is accepted. */
  lemma FreshReadAcceptsEof(eof: string, image: seq<byte>)
    requires eof == IhexWrite.EofLine && |image| > 0
    ensures ReadAll([eof], 0, image) == (0, 0, image)
  {
    IhexRoundTrip.EofLineFields(eof);
    EofRecordFresh(eof, image);
    OneLine(eof, 0, image);
  }

  /** From a clean checksum an End of File record with no data ends the
      file. */
  lemma EofRecordFresh(eof: string, image: seq<byte>)
    requires |eof| + 1 < LineLimit && At(eof, 0) == ':' && |image| > 0
    requires HeaderOk(eof) && Type(eof) == 1 && Len(eof) == 0 && Addr(eof) == 0
    requires RecordSum(eof, 0) == 256
    ensures Record(eof, 0, image) == Done(0, 0, image)
  {
    FirstBadNone(eof, 0, 0);
    EndOfFileStops(eof, 0, image);
  }

  /** The reader, holding the static `hex_byte_cksum`. */
  class Reader {
    var cksum: nat

    /** The static starts at 0. */
    constructor()
      ensures cksum == 0
    {
      cksum := 0;
    }

    /** `hex_byte(buffer + k)`, which takes its value off the checksum. */
    method Field(line: string, k: nat) returns (v: int)
      requires cksum < 256
      modifies this
      ensures v == ByteAt(line, k) && cksum == (old(cksum) - v) % 256
    {
      v := HexByte(At(line, k), At(line, k + 1));
      cksum := CksumSub(cksum, v);
    }

    /** `len`, `addr` and `type`. */
    method Header(line: string) returns (len: int, addr: int, rtype: int)
      requires cksum < 256
      modifies this
      ensures len == Len(line) && addr == Addr(line) && rtype == Type(line)
      ensures cksum == (old(cksum) - HeaderSum(line)) % 256
    {
      var c := cksum;
      var hi, lo;
      len := Field(line, 1);
      hi := Field(line, 3);
      SubMod(c - len, hi);
      lo := Field(line, 5);
      SubMod(c - len - hi, lo);
      addr := ShlOr(hi, lo, 256);
      rtype := Field(line, 7);
      SubMod(c - len - hi - lo, rtype);
      assert c - len - hi - lo - rtype == c - HeaderSum(line);
    }

    /** One data field: parsed, taken off the checksum and, in a Data
      record and unless refused, stored at `base + i`; `before` is the
      image and `c` the checksum the record's data loop started from. */
    method DataField(line: string, i: nat, base: nat, rtype: int, image: array<byte>,
                     ghost before: seq<byte>, ghost c: int) returns (v: int)
      requires cksum == ChecksumAfter(c, line, i)
      requires base + i < image.Length == |before|
      requires rtype == 0 ==> image[..] == WriteData(before, base, line, i)
      requires rtype != 0 ==> image[..] == before
      modifies this, image
      ensures v == DataAt(line, i) && cksum == ChecksumAfter(c, line, i + 1)
      ensures v < -1 ==> image[..] == old(image[..])
      ensures rtype == 0 && v >= -1 ==> image[..] == WriteData(before, base, line, i + 1)
      ensures rtype != 0 ==> image[..] == before
    {
      v := Field(line, 9 + 2 * i);
      FieldStep(c, line, i, v);
      if v >= -1 && rtype == 0 {
        image[base + i] := Store(v);
      }
    }

    /** The data loop: every field is parsed, a refused one stops the
      loop, and only a Data record stores the fields at `base + i`. */
    method Fields(line: string, base: nat, len: nat, rtype: int, image: array<byte>) returns (ok: bool)
      requires cksum < 256 && base + len <= image.Length
      modifies this, image
      ensures ok == (FirstBad(line, 0, len) == len)
      ensures rtype == 0 ==> image[..] == WriteData(old(image[..]), base, line, FirstBad(line, 0, len))
      ensures rtype != 0 ==> image[..] == old(image[..])
      ensures cksum == ChecksumAfter(old(cksum), line, FieldsRead(line, len))
    {
      ghost var before, c := image[..], cksum;
      var i := 0;
      while i < len
        invariant 0 <= i <= len && i <= FirstBad(line, 0, len)
        invariant rtype == 0 ==> image[..] == WriteData(before, base, line, i)
        invariant rtype != 0 ==> image[..] == before
        invariant cksum == ChecksumAfter(c, line, i)
      {
        var v := DataField(line, i, base, rtype, image, before, c);
        if v < -1 {
          FirstBadIs(line, 0, len, i);
          assert FieldsRead(line, len) == i + 1;
          return false;
        }
        FirstBadPast(line, 0, len, i);
        i := i + 1;
      }
      ok := true;
    }

    /** One turn of the line loop. */
    method ReadRecord(line: string, image: array<byte>) returns (done: bool, r: int)
      requires cksum < 256
      modifies this, image
      ensures var o := Record(line, old(cksum), old(image[..]));
        && done == o.Done? && cksum == o.cksum && image[..] == o.image
        && (done ==> r == o.result)
    {
      if |line| + 1 >= LineLimit || At(line, 0) != ':' {
        return true, -1;
      }
      var len, addr, rtype := Header(line);
      if len < 0 || addr < 0 || rtype < 0 || addr + len >= image.Length {
        return true, -1;
      }
      done, r := RecordBody(line, len, addr, rtype, image);
    }

    /** The rest of the turn once the header is accepted: the data fields,
      the checksum field and the type. */
    method RecordBody(line: string, len: nat, addr: nat, rtype: nat, image: array<byte>) returns (done: bool, r: int)
      requires cksum < 256
      requires len == Len(line) && addr == Addr(line) && rtype == Type(line)
      requires HeaderOk(line) && addr + len < image.Length
      modifies this, image
      ensures var o := DataStage(line, old(cksum), old(image[..]));
        && done == o.Done? && cksum == o.cksum && image[..] == o.image
        && (done ==> r == o.result)
    {
      ghost var before, c1 := image[..], cksum;
      var ok := Fields(line, addr, len, rtype, image);
      StoredIs(line, before, FirstBad(line, 0, len), image[..]);
      if !ok {
        DataStageRefused(line, c1, before, cksum, image[..]);
        return true, -1;
      }
      DataStageRead(line, c1, before, cksum, image[..]);
      done, r := Tail(line, len, rtype, image[..]);
    }

    /** The checksum field and the type, which decide whether the loop
      goes on; `image` is the image the data fields left. */
    method Tail(line: string, len: nat, rtype: int, ghost image: seq<byte>) returns (done: bool, r: int)
      requires cksum < 256 && rtype == Type(line)
      modifies this
      ensures var o := TailStage(line, (old(cksum) - DataAt(line, len)) % 256, image);
        && done == o.Done? && cksum == o.cksum && (done ==> r == o.result)
    {
      var ck := Field(line, 9 + 2 * len);
      if cksum != 0 {
        return true, -1;
      }
      if rtype >= 1 {
        if rtype == 1 {
          return true, 0;
        }
        return true, -1;
      }
      return false, -1;
    }

    /** `ihex_read(fname, image, capacity)` as written, with `capacity` the
      length of `image`: the checksum is whatever the previous call left. */
    method Read(lines: seq<string>, image: array<byte>) returns (r: int)
      requires cksum < 256
      modifies this, image
      ensures (r, cksum, image[..]) == ReadAll(lines, old(cksum), old(image[..]))
    {
      ghost var all := ReadAll(lines, cksum, image[..]);
      var k := 0;
      while k < |lines|
        invariant 0 <= k <= |lines| && cksum < 256
        invariant ReadAll(lines[k..], cksum, image[..]) == all
      {
        assert lines[k..][1..] == lines[k + 1..];
        var done;
        done, r := ReadRecord(lines[k], image);
        if done {
          return;
        }
        k := k + 1;
      }
      r := 0;
    }

    /** `ihex_read` with the checksum reset at the start of the call, as
      ihexread.c does: the result depends on the file and the image only. */
    method ReadFresh(lines: seq<string>, image: array<byte>) returns (r: int)
      modifies this, image
      ensures (r, cksum, image[..]) == ReadAll(lines, 0, old(image[..]))
    {
      cksum := 0;
      r := Read(lines, image);
    }
  }
}
