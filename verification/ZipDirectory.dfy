/** Finding the central directory of a ZIP archive from its tail (tsync/zip_utils.go readZipDirectory;
    PKWARE APPNOTE.TXT sections 4.3.14 to 4.3.16). Offsets are int64, with its wrap-around. */
module ZipDirectory {
  import opened Base

  const EOCD_LEN: int := 22
  const EOCD_SIGNATURE: int := 0x06054b50
  const ZIP64_LOCATOR_LEN: int := 20
  const ZIP64_LOCATOR_SIG: int := 0x07064b50
  const ZIP64_EOCD_LEN: int := 56
  const ZIP64_EOCD_SIGNATURE: int := 0x06064b50
  const TAIL_WINDOW: int := 66 * 1024
  const TWO_63: int := 0x8000_0000_0000_0000

  // ---- Little-endian fields ----

  function LE16(f: seq<byte>, i: nat): (r: nat)
    requires i + 2 <= |f|
    ensures r < 0x1_0000
  {
    var low: int, high: int := f[i], f[i + 1];
    low + 0x100 * high
  }

  function LE32(f: seq<byte>, i: nat): (r: nat)
    requires i + 4 <= |f|
    ensures r < 0x1_0000_0000
  {
    LE16(f, i) + 0x1_0000 * LE16(f, i + 2)
  }

  function LE64(f: seq<byte>, i: nat): (r: nat)
    requires i + 8 <= |f|
    ensures r < 0x1_0000_0000_0000_0000
  {
    LE32(f, i) + 0x1_0000_0000 * LE32(f, i + 4)
  }

  lemma Fields(f: seq<byte>, a: nat, b: nat, i: nat)
    requires a <= b <= |f| && a + i + 8 <= b
    ensures LE32(f[a..b], i) == LE32(f, a + i) && LE64(f[a..b], i) == LE64(f, a + i)
  {
  }

  lemma WrapOnce(x: int)
    requires 0 <= x < 2 * TWO_63
    ensures Wrap64(x) == if x < TWO_63 then x else x - 2 * TWO_63
  {
  }

  /** An archive whose reads may fail (an io.ReaderAt); short reads at the end report EOF. */
  datatype ReadError = NoError | EOF | ReadFailed

  class Archive {
    const bytes: seq<byte>
    ghost var failures: nat    // reads that failed

    constructor (bytes: seq<byte>)
      ensures this.bytes == bytes
    {
      this.bytes, failures := bytes, 0;
    }

    /** ReadAt(p[lo:hi], off). */
    method ReadAt(p: array<byte>, lo: nat, hi: nat, off: int) returns (n: nat, e: ReadError)
      requires lo <= hi <= p.Length
      modifies p, this
      ensures failures == old(failures) + if e.ReadFailed? then 1 else 0
      ensures n <= hi - lo && forall k | 0 <= k < p.Length && !(lo <= k < hi) :: p[k] == old(p[k])
      ensures e.NoError? ==> n == hi - lo
      ensures e.EOF? ==> off >= 0 && n == Min(hi - lo, Max(0, |bytes| - off)) && off + n >= |bytes|
      ensures e.ReadFailed? || (off >= 0 && (n > 0 ==> off + n <= |bytes| && p[lo..lo + n] == bytes[off..off + n]))
      ensures off < 0 ==> e.ReadFailed?
    {
      var fails: bool, atEnd: bool := *, *;
      if fails || off < 0 {
        failures := failures + 1;
        return 0, ReadFailed;
      }
      n := Min(hi - lo, Max(0, |bytes| - off));
      forall k | 0 <= k < n {
        p[lo + k] := bytes[off + k];
      }
      e := if n < hi - lo || (atEnd && off + n >= |bytes|) then EOF else NoError;
    }
  }

  // ---- What the records say, on the whole file ----

  /** An end record whose comment reaches exactly to the end of the file. */
  predicate IsEnd(f: seq<byte>, i: int)
  {
    && 0 <= i && i + EOCD_LEN <= |f|
    && LE32(f, i) == EOCD_SIGNATURE
    && i + EOCD_LEN + LE16(f, i + 20) == |f|
  }

  /** The last such record at or before i; -1 if there is none. */
  function LastEnd(f: seq<byte>, i: int): (r: int)
    requires i + EOCD_LEN <= |f|
    ensures -1 <= r
    decreases i + 1
  {
    if i < 0 then -1 else if IsEnd(f, i) then i else LastEnd(f, i - 1)
  }

  lemma {:induction false} LastEndIsLast(f: seq<byte>, i: int)
    requires i + EOCD_LEN <= |f|
    ensures LastEnd(f, i) >= 0 ==> IsEnd(f, LastEnd(f, i)) && LastEnd(f, i) <= i
    ensures forall j | LastEnd(f, i) < j <= i :: !IsEnd(f, j)
    decreases i + 1
  {
    if i >= 0 && !IsEnd(f, i) {
      LastEndIsLast(f, i - 1);
    }
  }

  datatype Directory = Directory(eocdOffset: int, cdOffset: int64, cdSize: int64, records: nat)

  /** IndexOutOfRange stands for a slice expression that leaves its slice. */
  datatype Outcome = Found(dir: Directory) | NotZip | Corrupt | IndexOutOfRange | Unreadable

  function Checked(eocd: int, cdOffset: int64, cdSize: int64, records: nat, dirEnd: int): Outcome
  {
    if cdOffset < 0 || cdSize < 0 || Wrap64(cdOffset + cdSize) > dirEnd then Corrupt
    else Found(Directory(eocd, cdOffset, cdSize, records))
  }

  predicate HasLocator(f: seq<byte>, eocd: int)
  {
    ZIP64_LOCATOR_LEN <= eocd <= |f| && LE32(f, eocd - ZIP64_LOCATOR_LEN) == ZIP64_LOCATOR_SIG
  }

  /** Where the locator puts the zip64 end record, as the code reads the field. */
  function RecordOffset(f: seq<byte>, eocd: int): int64
    requires HasLocator(f, eocd)
  {
    Wrap64(LE64(f, eocd - ZIP64_LOCATOR_LEN + 8))
  }

  function FromZip64(f: seq<byte>, eocd: int): Outcome
    requires HasLocator(f, eocd)
  {
    var rec := RecordOffset(f, eocd);
    if rec < 0 || Wrap64(rec + ZIP64_EOCD_LEN) > eocd - ZIP64_LOCATOR_LEN then Corrupt
    else if rec + ZIP64_EOCD_LEN > |f| then IndexOutOfRange
    else if LE32(f, rec) != ZIP64_EOCD_SIGNATURE then Corrupt
    else Checked(eocd, Wrap64(LE64(f, rec + 48)), Wrap64(LE64(f, rec + 40)), LE64(f, rec + 32), rec)
  }

  function FromEocd(f: seq<byte>, eocd: int): Outcome
    requires 0 <= eocd && eocd + EOCD_LEN <= |f|
  {
    Checked(eocd, LE32(f, eocd + 16), LE32(f, eocd + 12), LE16(f, eocd + 10), eocd)
  }

  /** The directory of an archive, read off the whole file. */
  function Parse(f: seq<byte>): Outcome
  {
    if |f| < EOCD_LEN then NotZip
    else
      var eocd := LastEnd(f, |f| - EOCD_LEN);
      if eocd < 0 || eocd + EOCD_LEN > |f| then NotZip else ParseAt(f, eocd)
  }

  function ParseAt(f: seq<byte>, eocd: int): Outcome
    requires 0 <= eocd && eocd + EOCD_LEN <= |f|
  {
    if HasLocator(f, eocd) then FromZip64(f, eocd) else FromEocd(f, eocd)
  }

  // ---- The tail is enough ----

  function TailOffset(f: seq<byte>): nat { Max(0, |f| - TAIL_WINDOW) }

  lemma TailShowsEnds(f: seq<byte>, i: int)
    requires 0 <= i
    ensures IsEnd(f[TailOffset(f)..], i) <==> IsEnd(f, TailOffset(f) + i)
  {
  }

  /** A comment is at most 65535 bytes long, so no end record lies before the last 66 KiB. */
  lemma EndIsInTail(f: seq<byte>, i: int)
    requires IsEnd(f, i)
    ensures i >= TailOffset(f)
  {
  }

  /** Scanning the tail backwards finds exactly the record a scan of the whole file finds. */
  lemma TailScanSuffices(f: seq<byte>)
    requires |f| >= EOCD_LEN
    ensures var tail, off := f[TailOffset(f)..], TailOffset(f);
            var pos := LastEnd(tail, |tail| - EOCD_LEN);
            LastEnd(f, |f| - EOCD_LEN) == (if pos < 0 then -1 else off + pos)
  {
    var tail, off := f[TailOffset(f)..], TailOffset(f);
    var pos, last := LastEnd(tail, |tail| - EOCD_LEN), LastEnd(f, |f| - EOCD_LEN);
    LastEndIsLast(tail, |tail| - EOCD_LEN);
    LastEndIsLast(f, |f| - EOCD_LEN);
    if last >= 0 {
      EndIsInTail(f, last);
      TailShowsEnds(f, last - off);
    }
    if pos >= 0 {
      TailShowsEnds(f, pos);
    }
  }

  method FindEnd(tail: array<byte>) returns (pos: int)
    requires tail.Length >= EOCD_LEN
    ensures pos == LastEnd(tail[..], tail.Length - EOCD_LEN)
  {
    pos := -1;
    var i := tail.Length - EOCD_LEN;
    while i >= 0
      invariant -1 <= i <= tail.Length - EOCD_LEN
      invariant LastEnd(tail[..], tail.Length - EOCD_LEN) == LastEnd(tail[..], i)
    {
      if LE32(tail[..], i) == EOCD_SIGNATURE {
        var commentLen := LE16(tail[..], i + 20);
        if i + EOCD_LEN + commentLen == tail.Length {
          return i;
        }
      }
      i := i - 1;
    }
  }

  /** A read of the archive has failed since, if the outcome says so. */
  ghost predicate Blamed(r: Archive, unreadable: bool, failures: nat)
    reads r
  {
    failures <= r.failures && (unreadable ==> failures < r.failures)
  }

  datatype Piece = Piece(bytes: seq<byte>) | PieceOutOfRange | PieceUnreadable

  /** readAtCached: from the tail when the sums say the range is cached. */
  method ReadAtCached(r: Archive, tailOffset: nat, tail: array<byte>, off: nat, n: nat) returns (piece: Piece)
    requires tailOffset + tail.Length == |r.bytes| < TWO_63 && tail[..] == r.bytes[tailOffset..]
    requires off < TWO_63 && (off + n <= |r.bytes| || off + n >= TWO_63)
    requires n <= tail.Length || (tailOffset == 0 && n < TWO_63)
    modifies r
    ensures Blamed(r, piece.PieceUnreadable?, old(r.failures))
    ensures piece.Piece? ==> off + n <= |r.bytes| && piece.bytes == r.bytes[off..off + n]
    ensures piece.PieceOutOfRange? ==> off + n >= TWO_63
    ensures off + n >= TWO_63 ==> piece.PieceOutOfRange?
  {
    if off >= tailOffset && Wrap64(off + n) <= tailOffset + tail.Length {
      var s := off - tailOffset;
      if s > tail.Length || s + n > tail.Length {
        return PieceOutOfRange;
      }
      return Piece(tail[s..s + n]);
    }
    var buf := new byte[n](_ => 0);
    var m, e := r.ReadAt(buf, 0, n, off);
    if e.ReadFailed? {
      return PieceUnreadable;
    }
    return Piece(buf[..]);
  }

  lemma ParseByTail(f: seq<byte>, off: nat, tail: seq<byte>, pos: int)
    requires |f| >= EOCD_LEN && off == TailOffset(f) && tail == f[off..] && pos == LastEnd(tail, |tail| - EOCD_LEN)
    ensures pos + EOCD_LEN <= |tail| && off + |tail| == |f|
    ensures Parse(f) == if pos < 0 then NotZip else ParseAt(f, off + pos)
  {
    TailScanSuffices(f);
    LastEndIsLast(tail, |tail| - EOCD_LEN);
  }

  method ReadTail(r: Archive) returns (ok: bool, tailOffset: nat, tail: array<byte>)
    requires |r.bytes| >= EOCD_LEN
    modifies r
    ensures Blamed(r, !ok, old(r.failures))
    ensures fresh(tail) && tailOffset == TailOffset(r.bytes) && tailOffset + tail.Length == |r.bytes|
    ensures tail.Length == TAIL_WINDOW || tailOffset == 0
    ensures ok ==> tail[..] == r.bytes[tailOffset..]
  {
    var tailLen := Min(TAIL_WINDOW, |r.bytes|);
    tailOffset, tail := |r.bytes| - tailLen, new byte[tailLen];
    var n, e := r.ReadAt(tail, 0, tailLen, tailOffset);
    ok := e.NoError? || (e.EOF? && n == tailLen);
  }

  /** readZipDirectory: one read of the tail, at most one of the zip64 record; unless a read fails, the
      result is what the whole file says. */
  method ReadZipDirectory(r: Archive) returns (o: Outcome, tailOffset: nat, tail: array<byte>)
    requires |r.bytes| < TWO_63
    modifies r
    ensures if o.Unreadable? then old(r.failures) < r.failures else o == Parse(r.bytes) && old(r.failures) <= r.failures
    ensures fresh(tail)
    ensures o.Found? ==>
              tailOffset == TailOffset(r.bytes) && tailOffset <= |r.bytes| && tail[..] == r.bytes[tailOffset..]
  {
    if |r.bytes| < EOCD_LEN {
      tailOffset, tail := 0, new byte[0];
      return NotZip, tailOffset, tail;
    }
    var ok;
    ok, tailOffset, tail := ReadTail(r);
    if !ok {
      return Unreadable, tailOffset, tail;
    }
    var pos := FindEnd(tail);
    ParseByTail(r.bytes, tailOffset, tail[..], pos);
    if pos < 0 {
      return NotZip, tailOffset, tail;
    }
    o := ReadRecords(r, tailOffset, tail, pos);
  }

  datatype Locator = NoLocator | LocatorAt(rec: int64) | LocatorUnreadable

  /** The 20 bytes before the end record, if there are as many. */
  method ReadLocator(r: Archive, tailOffset: nat, tail: array<byte>, eocd: nat) returns (loc: Locator)
    requires |r.bytes| < TWO_63 && tailOffset + tail.Length == |r.bytes| && tail[..] == r.bytes[tailOffset..]
    requires tailOffset <= eocd && eocd + EOCD_LEN <= |r.bytes|
    requires tail.Length == TAIL_WINDOW || tailOffset == 0
    modifies r
    ensures Blamed(r, loc.LocatorUnreadable?, old(r.failures))
    ensures loc.LocatorUnreadable? || (loc.LocatorAt? <==> HasLocator(r.bytes, eocd))
    ensures loc.LocatorAt? ==> loc.rec == RecordOffset(r.bytes, eocd)
  {
    if eocd < ZIP64_LOCATOR_LEN {
      return NoLocator;
    }
    var at := eocd - ZIP64_LOCATOR_LEN;
    var piece := ReadAtCached(r, tailOffset, tail, at, ZIP64_LOCATOR_LEN);
    if !piece.Piece? {
      return LocatorUnreadable;
    }
    Fields(r.bytes, at, eocd, 0);
    Fields(r.bytes, at, eocd, 8);
    if LE32(piece.bytes, 0) != ZIP64_LOCATOR_SIG {
      return NoLocator;
    }
    return LocatorAt(Wrap64(LE64(piece.bytes, 8)));
  }

  lemma TailFields(f: seq<byte>, off: nat, tail: seq<byte>, i: nat)
    requires off <= |f| && tail == f[off..] && i + 4 <= |tail|
    ensures LE16(tail, i) == LE16(f, off + i) && LE32(tail, i) == LE32(f, off + i)
  {
  }

  /** The plain end record, and the zip64 records where there is a locator. */
  method ReadRecords(r: Archive, tailOffset: nat, tail: array<byte>, pos: nat) returns (o: Outcome)
    requires |r.bytes| < TWO_63 && tailOffset + tail.Length == |r.bytes| && tail[..] == r.bytes[tailOffset..]
    requires pos + EOCD_LEN <= tail.Length && (tail.Length == TAIL_WINDOW || tailOffset == 0)
    modifies r
    ensures Blamed(r, o.Unreadable?, old(r.failures))
    ensures o.Unreadable? || o == ParseAt(r.bytes, tailOffset + pos)
  {
    var eocd := tailOffset + pos;
    var records, cdSize, cdOffset: int64 := LE16(tail[..], pos + 10), LE32(tail[..], pos + 12),
        LE32(tail[..], pos + 16);
    var loc := ReadLocator(r, tailOffset, tail, eocd);
    match loc
    case LocatorUnreadable => return Unreadable;
    case LocatorAt(rec) => o := FollowLocator(r, tailOffset, tail, eocd, rec);
    case NoLocator =>
      TailFields(r.bytes, tailOffset, tail[..], pos + 10);
      TailFields(r.bytes, tailOffset, tail[..], pos + 12);
      TailFields(r.bytes, tailOffset, tail[..], pos + 16);
      return Checked(eocd, cdOffset, cdSize, records, eocd);
  }

  method FollowLocator(r: Archive, tailOffset: nat, tail: array<byte>, eocd: nat, rec: int64) returns (o: Outcome)
    requires |r.bytes| < TWO_63 && tailOffset + tail.Length == |r.bytes| && tail[..] == r.bytes[tailOffset..]
    requires tail.Length == TAIL_WINDOW || tailOffset == 0
    requires HasLocator(r.bytes, eocd) && rec == RecordOffset(r.bytes, eocd)
    modifies r
    ensures Blamed(r, o.Unreadable?, old(r.failures))
    ensures o.Unreadable? || o == FromZip64(r.bytes, eocd)
  {
    if rec < 0 || Wrap64(rec + ZIP64_EOCD_LEN) > eocd - ZIP64_LOCATOR_LEN {
      return Corrupt;
    }
    o := ReadZip64(r, tailOffset, tail, eocd, rec);
  }

  lemma ZipRecordFields(f: seq<byte>, rec: nat, bytes: seq<byte>)
    requires rec + ZIP64_EOCD_LEN <= |f| && bytes == f[rec..rec + ZIP64_EOCD_LEN]
    ensures LE32(bytes, 0) == LE32(f, rec) && LE64(bytes, 32) == LE64(f, rec + 32)
    ensures LE64(bytes, 40) == LE64(f, rec + 40) && LE64(bytes, 48) == LE64(f, rec + 48)
  {
    Fields(f, rec, rec + ZIP64_EOCD_LEN, 0);
    Fields(f, rec, rec + ZIP64_EOCD_LEN, 32);
    Fields(f, rec, rec + ZIP64_EOCD_LEN, 40);
    Fields(f, rec, rec + ZIP64_EOCD_LEN, 48);
  }

  method ReadZip64(r: Archive, tailOffset: nat, tail: array<byte>, eocd: int, rec: int64) returns (o: Outcome)
    requires |r.bytes| < TWO_63 && tailOffset + tail.Length == |r.bytes| && tail[..] == r.bytes[tailOffset..]
    requires tail.Length == TAIL_WINDOW || tailOffset == 0
    requires HasLocator(r.bytes, eocd) && rec == RecordOffset(r.bytes, eocd)
    requires rec >= 0 && Wrap64(rec + ZIP64_EOCD_LEN) <= eocd - ZIP64_LOCATOR_LEN
    modifies r
    ensures Blamed(r, o.Unreadable?, old(r.failures))
    ensures o.Unreadable? || o == FromZip64(r.bytes, eocd)
  {
    var piece := ReadAtCached(r, tailOffset, tail, rec, ZIP64_EOCD_LEN);
    match piece
    case PieceUnreadable => return Unreadable;
    case PieceOutOfRange => return IndexOutOfRange;
    case Piece(bytes) =>
      ZipRecordFields(r.bytes, rec, bytes);
      if LE32(bytes, 0) != ZIP64_EOCD_SIGNATURE {
        return Corrupt;
      }
      return Checked(eocd, Wrap64(LE64(bytes, 48)), Wrap64(LE64(bytes, 40)), LE64(bytes, 32), rec);
  }

  // ---- What a found directory guarantees ----

  /** The directory found belongs to the last end record, and lies before it exactly when the sum of its
      offset and size is an int64. */
  lemma FoundIsSound(f: seq<byte>)
    requires Parse(f).Found? && |f| < TWO_63
    ensures var d := Parse(f).dir;
            && IsEnd(f, d.eocdOffset) && (forall j | j > d.eocdOffset :: !IsEnd(f, j))
            && d.cdOffset >= 0 && d.cdSize >= 0
            && (d.cdOffset + d.cdSize <= d.eocdOffset <==> d.cdOffset + d.cdSize < TWO_63)
  {
    LastEndIsLast(f, |f| - EOCD_LEN);
    var d := Parse(f).dir;
    forall j | j > d.eocdOffset ensures !IsEnd(f, j) {
      if j + EOCD_LEN <= |f| {
        assert j <= |f| - EOCD_LEN;
      }
    }
  }

  lemma RecordOutOfRangeIff(f: seq<byte>, eocd: int)
    requires |f| < TWO_63 && HasLocator(f, eocd)
    ensures FromZip64(f, eocd).IndexOutOfRange? <==>
              TWO_63 - ZIP64_EOCD_LEN <= LE64(f, eocd - ZIP64_LOCATOR_LEN + 8) < TWO_63
  {
    WrapOnce(LE64(f, eocd - ZIP64_LOCATOR_LEN + 8));
    var rec := RecordOffset(f, eocd);
    if rec >= 0 {
      WrapOnce(rec + ZIP64_EOCD_LEN);
    }
  }

  /** The slice of the cached tail is out of range exactly when the locator names an offset within 56 of
      2^63; every other input is answered. */
  lemma OutOfRangeIff(f: seq<byte>)
    requires |f| < TWO_63
    ensures Parse(f).IndexOutOfRange? <==>
              |f| >= EOCD_LEN &&
              var eocd := LastEnd(f, |f| - EOCD_LEN);
              HasLocator(f, eocd) && TWO_63 - ZIP64_EOCD_LEN <= LE64(f, eocd - ZIP64_LOCATOR_LEN + 8) < TWO_63
  {
    if |f| >= EOCD_LEN {
      var eocd := LastEnd(f, |f| - EOCD_LEN);
      LastEndIsLast(f, |f| - EOCD_LEN);
      if HasLocator(f, eocd) {
        RecordOutOfRangeIff(f, eocd);
      }
    }
  }
}
