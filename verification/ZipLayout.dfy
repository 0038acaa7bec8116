/** Archives laid out as PKWARE APPNOTE.TXT sections 4.3.14 to 4.3.16 say are read back exactly. */
module ZipLayout {
  import opened Base
  import opened ZipDirectory

  function Enc16(x: nat): seq<byte>
    requires x < 0x1_0000
  {
    [x % 0x100, x / 0x100]
  }

  function Enc32(x: nat): seq<byte>
    requires x < 0x1_0000_0000
  {
    Enc16(x % 0x1_0000) + Enc16(x / 0x1_0000)
  }

  function Enc64(x: nat): seq<byte>
    requires x < 0x1_0000_0000_0000_0000
  {
    Enc32(x % 0x1_0000_0000) + Enc32(x / 0x1_0000_0000)
  }

  predicate At(f: seq<byte>, i: int, e: seq<byte>)
  {
    0 <= i && i + |e| <= |f| && f[i..i + |e|] == e
  }

  lemma Reads16(f: seq<byte>, i: nat, x: nat)
    requires x < 0x1_0000 && At(f, i, Enc16(x))
    ensures LE16(f, i) == x
  {
    assert f[i] == f[i..i + 2][0] && f[i + 1] == f[i..i + 2][1];
  }

  lemma Reads32(f: seq<byte>, i: nat, x: nat)
    requires x < 0x1_0000_0000 && At(f, i, Enc32(x))
    ensures LE32(f, i) == x
  {
    var e := Enc32(x);
    assert f[i..i + 2] == f[i..i + 4][..2] == Enc16(x % 0x1_0000);
    assert f[i + 2..i + 4] == f[i..i + 4][2..] == Enc16(x / 0x1_0000);
    Reads16(f, i, x % 0x1_0000);
    Reads16(f, i + 2, x / 0x1_0000);
  }

  lemma Reads64(f: seq<byte>, i: nat, x: nat)
    requires x < 0x1_0000_0000_0000_0000 && At(f, i, Enc64(x))
    ensures LE64(f, i) == x
  {
    assert f[i..i + 4] == f[i..i + 8][..4] == Enc32(x % 0x1_0000_0000);
    assert f[i + 4..i + 8] == f[i..i + 8][4..] == Enc32(x / 0x1_0000_0000);
    Reads32(f, i, x % 0x1_0000_0000);
    Reads32(f, i + 4, x / 0x1_0000_0000);
  }

  // ---- The records as bytes ----

  predicate Marked(f: seq<byte>, i: int, a: byte, b: byte, c: byte, d: byte)
  {
    0 <= i && i + 4 <= |f| && f[i] == a && f[i + 1] == b && f[i + 2] == c && f[i + 3] == d
  }

  /** "PK", 5, 6, and a comment length that reaches exactly to the end of the file. */
  predicate ClosesFile(f: seq<byte>, i: int)
  {
    && Marked(f, i, 0x50, 0x4b, 0x05, 0x06) && i + 22 <= |f|
    && i + 22 + f[i + 20] as int + 0x100 * f[i + 21] as int == |f|
  }

  /** "PK", 6, 7, in the twenty bytes before the end record. */
  predicate Locates(f: seq<byte>, eocd: int)
  {
    Marked(f, eocd - 20, 0x50, 0x4b, 0x06, 0x07)
  }

  lemma MarkedIff(f: seq<byte>, i: nat)
    requires i + 4 <= |f|
    ensures LE32(f, i) == 0x06054b50 <==> Marked(f, i, 0x50, 0x4b, 0x05, 0x06)
    ensures LE32(f, i) == 0x07064b50 <==> Marked(f, i, 0x50, 0x4b, 0x06, 0x07)
    ensures LE32(f, i) == 0x06064b50 <==> Marked(f, i, 0x50, 0x4b, 0x06, 0x06)
  {
    var a: int, b: int, c: int, d: int := f[i], f[i + 1], f[i + 2], f[i + 3];
    assert LE32(f, i) == a + 0x100 * b + 0x1_0000 * c + 0x100_0000 * d;
  }

  lemma IsEndIff(f: seq<byte>, i: int)
    ensures IsEnd(f, i) <==> ClosesFile(f, i)
  {
    if 0 <= i && i + 22 <= |f| {
      MarkedIff(f, i);
    }
  }

  lemma HasLocatorIff(f: seq<byte>, eocd: int)
    requires eocd <= |f|
    ensures HasLocator(f, eocd) <==> Locates(f, eocd)
  {
    if eocd >= 20 {
      MarkedIff(f, eocd - 20);
    }
  }

  /** An archive is refused as no ZIP at all exactly when no end record closes the file. */
  lemma NotZipIff(f: seq<byte>)
    ensures Parse(f).NotZip? <==> forall j :: !ClosesFile(f, j)
  {
    forall j ensures IsEnd(f, j) <==> ClosesFile(f, j) {
      IsEndIff(f, j);
    }
    if |f| >= EOCD_LEN {
      LastEndIsLast(f, |f| - EOCD_LEN);
    }
  }

  /** An end record at `eocd` that closes the file, with nothing in its comment that closes it as well. */
  predicate EndsAt(f: seq<byte>, eocd: nat, commentLen: nat)
  {
    && commentLen < 0x1_0000 && eocd + 22 + commentLen == |f| < TWO_63
    && Marked(f, eocd, 0x50, 0x4b, 0x05, 0x06) && At(f, eocd + 20, Enc16(commentLen))
    && forall j | eocd < j <= |f| :: !ClosesFile(f, j)
  }

  lemma EndIsFound(f: seq<byte>, eocd: nat, commentLen: nat)
    requires EndsAt(f, eocd, commentLen)
    ensures Parse(f) == ParseAt(f, eocd)
  {
    MarkedIff(f, eocd);
    Reads16(f, eocd + 20, commentLen);
    forall j | eocd < j <= |f| ensures !IsEnd(f, j) {
      IsEndIff(f, j);
    }
    LastOneDecides(f, eocd);
  }

  lemma LastOneDecides(f: seq<byte>, eocd: nat)
    requires IsEnd(f, eocd) && forall j | eocd < j <= |f| :: !IsEnd(f, j)
    ensures Parse(f) == ParseAt(f, eocd)
  {
    LastEndIsLast(f, |f| - EOCD_LEN);
  }

  /** The end record at its place, with these fields. */
  predicate EndRecordAt(f: seq<byte>, d: Directory)
  {
    && d.records < 0x1_0000 && 0 <= d.cdSize < 0x1_0000_0000 && 0 <= d.cdOffset < 0x1_0000_0000
    && At(f, d.eocdOffset + 10, Enc16(d.records))
    && At(f, d.eocdOffset + 12, Enc32(d.cdSize)) && At(f, d.eocdOffset + 16, Enc32(d.cdOffset))
  }

  /** A plain archive, one without the mark of a locator before its end record: that record alone describes
      the directory, which is refused exactly when it runs into the record. */
  lemma PlainReadsBack(f: seq<byte>, commentLen: nat, d: Directory)
    requires d.eocdOffset >= 0 && EndsAt(f, d.eocdOffset, commentLen) && EndRecordAt(f, d)
    requires d.eocdOffset < 20 || !Marked(f, d.eocdOffset - 20, 0x50, 0x4b, 0x06, 0x07)
    ensures Parse(f) == if d.cdOffset + d.cdSize <= d.eocdOffset then Found(d) else Corrupt
  {
    EndIsFound(f, d.eocdOffset, commentLen);
    HasLocatorIff(f, d.eocdOffset);
    Reads16(f, d.eocdOffset + 10, d.records);
    Reads32(f, d.eocdOffset + 12, d.cdSize);
    Reads32(f, d.eocdOffset + 16, d.cdOffset);
  }

  predicate LocatorAt(f: seq<byte>, i: int, rec: nat)
  {
    rec < 0x1_0000_0000_0000_0000 && Marked(f, i, 0x50, 0x4b, 0x06, 0x07) && At(f, i + 8, Enc64(rec))
  }

  /** A zip64 record with these fields; they are unsigned. */
  predicate Zip64RecordAt(f: seq<byte>, rec: nat, records: nat, cdSize: nat, cdOffset: nat)
  {
    && Fits64(records) && Fits64(cdSize) && Fits64(cdOffset) && rec + 56 <= |f|
    && Marked(f, rec, 0x50, 0x4b, 0x06, 0x06) && At(f, rec + 32, Enc64(records))
    && At(f, rec + 40, Enc64(cdSize)) && At(f, rec + 48, Enc64(cdOffset))
  }

  predicate Fits64(x: nat) { x < 0x1_0000_0000_0000_0000 }

  lemma LocatorReads(f: seq<byte>, eocd: nat, rec: nat)
    requires 20 <= eocd <= |f| && LocatorAt(f, eocd - 20, rec)
    ensures HasLocator(f, eocd) && LE64(f, eocd - 20 + 8) == rec && RecordOffset(f, eocd) == Wrap64(rec)
  {
    HasLocatorIff(f, eocd);
    Reads64(f, eocd - 20 + 8, rec);
  }

  lemma Zip64RecordReads(f: seq<byte>, rec: nat, records: nat, cdSize: nat, cdOffset: nat)
    requires Zip64RecordAt(f, rec, records, cdSize, cdOffset)
    ensures LE32(f, rec) == ZIP64_EOCD_SIGNATURE && LE64(f, rec + 32) == records
    ensures LE64(f, rec + 40) == cdSize && LE64(f, rec + 48) == cdOffset
  {
    MarkedIff(f, rec);
    Reads64(f, rec + 32, records);
    Reads64(f, rec + 40, cdSize);
    Reads64(f, rec + 48, cdOffset);
  }

  /** What the zip64 record decides once the locator has led to it. */
  lemma Zip64Decides(f: seq<byte>, eocd: nat, rec: nat, records: nat, cdSize: nat, cdOffset: nat)
    requires HasLocator(f, eocd) && RecordOffset(f, eocd) == rec && |f| < TWO_63 && rec + 76 <= eocd
    requires LE32(f, rec) == ZIP64_EOCD_SIGNATURE && LE64(f, rec + 32) == records
    requires LE64(f, rec + 40) == cdSize && LE64(f, rec + 48) == cdOffset
    requires cdOffset + cdSize < TWO_63 || cdOffset >= TWO_63 || cdSize >= TWO_63
    ensures FromZip64(f, eocd) == if cdOffset + cdSize <= rec then Found(Directory(eocd, cdOffset, cdSize, records))
                                  else Corrupt
  {
    WrapOnce(cdOffset);
    WrapOnce(cdSize);
  }

  /** A zip64 archive: the locator right before the end record leads to the zip64 record, which decides; the
      directory is refused when it runs into the record (unless the sum of its offset and size wraps). */
  lemma Zip64ReadsBack(f: seq<byte>, commentLen: nat, eocd: nat, rec: nat, records: nat, cdSize: nat, cdOffset: nat)
    requires EndsAt(f, eocd, commentLen) && rec + 76 <= eocd
    requires LocatorAt(f, eocd - 20, rec) && Zip64RecordAt(f, rec, records, cdSize, cdOffset)
    requires cdOffset + cdSize < TWO_63 || cdOffset >= TWO_63 || cdSize >= TWO_63
    ensures Parse(f) == if cdOffset + cdSize <= rec then Found(Directory(eocd, cdOffset, cdSize, records))
                        else Corrupt
  {
    EndIsFound(f, eocd, commentLen);
    LocatorReads(f, eocd, rec);
    Zip64RecordReads(f, rec, records, cdSize, cdOffset);
    Zip64Decides(f, eocd, rec, records, cdSize, cdOffset);
  }

  lemma BadRecordOffset(f: seq<byte>, eocd: nat, rec: nat)
    requires HasLocator(f, eocd) && RecordOffset(f, eocd) == Wrap64(rec) && |f| < TWO_63 && Fits64(rec)
    requires rec + 76 > eocd && !(TWO_63 - 56 <= rec < TWO_63)
    ensures FromZip64(f, eocd) == Corrupt
  {
    WrapOnce(rec);
    if rec < TWO_63 {
      WrapOnce(rec + 56);
    }
  }

  /** A locator that does not lead to a zip64 record before it: the archive is refused, and not read by its end
      record instead. The 56 offsets just below 2^63 are those of OutOfRangeIff. */
  lemma BadLocatorRefused(f: seq<byte>, commentLen: nat, eocd: nat, rec: nat)
    requires EndsAt(f, eocd, commentLen) && eocd >= 20 && LocatorAt(f, eocd - 20, rec)
    requires !(TWO_63 - 56 <= rec < TWO_63)
    requires rec + 76 > eocd || !Marked(f, rec, 0x50, 0x4b, 0x06, 0x06)
    ensures Parse(f) == Corrupt
  {
    EndIsFound(f, eocd, commentLen);
    LocatorReads(f, eocd, rec);
    if rec + 76 > eocd {
      BadRecordOffset(f, eocd, rec);
    } else {
      MarkedIff(f, rec);
    }
  }

  // ---- Where int64 sums wrap ----

  /** A 98-byte archive: zip64 record at 0, locator at 56, end record at 76. The top bytes of the directory
      offset and of the record offset are as given, all other offset bytes 0xff or 0. */
  function Sample(i: nat, dirTop: byte, recByte: byte, recTop: byte): byte
  {
    if i == 0 || i == 56 || i == 76 then 0x50
    else if i == 1 || i == 57 || i == 77 then 0x4b
    else if i == 2 || i == 3 || i == 58 || i == 79 then 0x06
    else if i == 59 then 0x07
    else if i == 78 then 0x05
    else if i == 40 then 1
    else if 48 <= i < 55 then 0xff
    else if i == 55 then dirTop
    else if 64 <= i < 71 then recByte
    else if i == 71 then recTop
    else 0
  }

  function SampleFile(dirTop: byte, recByte: byte, recTop: byte): (f: seq<byte>)
    ensures |f| == 98 && forall i | 0 <= i < 98 :: f[i] == Sample(i, dirTop, recByte, recTop)
  {
    seq(98, i requires 0 <= i < 98 => Sample(i, dirTop, recByte, recTop))
  }

  lemma LargestOffset(f: seq<byte>, i: nat)
    requires i + 8 <= |f| && f[i + 7] == 0x7f && forall k | i <= k < i + 7 :: f[k] == 0xff
    ensures LE64(f, i) == TWO_63 - 1
  {
    assert LE32(f, i) == 0xffff_ffff;
  }

  lemma SampleEnds(dirTop: byte, recByte: byte, recTop: byte)
    ensures var f := SampleFile(dirTop, recByte, recTop); Parse(f) == FromZip64(f, 76) && HasLocator(f, 76)
  {
    var f := SampleFile(dirTop, recByte, recTop);
    assert LE32(f, 76) == EOCD_SIGNATURE && LE16(f, 96) == 0;
    assert LE32(f, 56) == ZIP64_LOCATOR_SIG;
    assert IsEnd(f, 76);
  }

  lemma SampleFields(recByte: byte, recTop: byte)
    ensures var f := SampleFile(0x7f, recByte, recTop);
            && LE32(f, 0) == ZIP64_EOCD_SIGNATURE && LE64(f, 40) == 1 && LE64(f, 48) == TWO_63 - 1
            && (recByte == 0 == recTop ==> LE64(f, 64) == 0)
  {
    var f := SampleFile(0x7f, recByte, recTop);
    LargestOffset(f, 48);
  }

  lemma WrappedSumFound(f: seq<byte>)
    requires |f| == 98 && HasLocator(f, 76) && LE64(f, 64) == 0
    requires LE32(f, 0) == ZIP64_EOCD_SIGNATURE && LE64(f, 40) == 1 && LE64(f, 48) == TWO_63 - 1
    ensures FromZip64(f, 76) == Found(Directory(76, TWO_63 - 1, 1, LE64(f, 32)))
  {
    WrapOnce(TWO_63);
  }

  /** A directory of one byte at offset 2^63 - 1 is accepted: its end wraps to a negative number. */
  lemma WrappedSumExample()
    ensures var f := SampleFile(0x7f, 0, 0);
            Parse(f).Found? && Parse(f).dir.cdOffset + Parse(f).dir.cdSize > Parse(f).dir.eocdOffset
  {
    var f := SampleFile(0x7f, 0, 0);
    SampleEnds(0x7f, 0, 0);
    SampleFields(0, 0);
    WrappedSumFound(f);
  }

  lemma SampleLocator(dirTop: byte)
    ensures LE64(SampleFile(dirTop, 0xff, 0x7f), 64) == TWO_63 - 1
  {
    LargestOffset(SampleFile(dirTop, 0xff, 0x7f), 64);
  }

  /** A locator that names offset 2^63 - 1 passes the range check and leaves the cached tail. */
  lemma WrappedLocatorExample()
    ensures Parse(SampleFile(0, 0xff, 0x7f)).IndexOutOfRange?
  {
    SampleEnds(0, 0xff, 0x7f);
    SampleLocator(0);
    RecordOutOfRangeIff(SampleFile(0, 0xff, 0x7f), 76);
  }
}
