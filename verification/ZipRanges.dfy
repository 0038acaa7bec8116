/** Serving the ZIP library from a cached, patched tail, and splitting an archive into part ranges
    (tsync/zip_utils.go cachedTailReaderAt, GetZipPartRanges). */
module ZipRanges {
  import opened Base
  import opened ZipDirectory

  /** The archive as shown to the library: it ends right after the validated end record, whose comment
      length reads zero. */
  function View(f: seq<byte>, eocd: int): seq<byte>
    requires 0 <= eocd && eocd + EOCD_LEN <= |f|
  {
    f[..eocd + 20] + [0, 0]
  }

  class CachedReader {
    const r: Archive
    const cacheOffset: nat
    const cache: array<byte>
    const len: nat           // the cache is cache[..len]

    /** Cache and archive together show this view. */
    ghost predicate Shows(view: seq<byte>)
      reads cache
    {
      && len <= cache.Length && cacheOffset + len == |view| <= |r.bytes| < TWO_63 && 0 < len
      && cache[..len] == view[cacheOffset..] && r.bytes[..cacheOffset] == view[..cacheOffset]
    }

    constructor (r: Archive, cacheOffset: nat, cache: array<byte>, len: nat)
      ensures this.r == r && this.cacheOffset == cacheOffset && this.cache == cache && this.len == len
    {
      this.r, this.cacheOffset, this.cache, this.len := r, cacheOffset, cache, len;
    }

    method CopyCached(p: array<byte>, lo: nat, hi: nat, from: nat) returns (n: nat)
      requires len <= cache.Length && p != cache && lo <= hi <= p.Length && from <= len
      modifies p
      ensures n == Min(hi - lo, len - from) && p[lo..lo + n] == cache[from..from + n]
      ensures forall k | 0 <= k < p.Length && !(lo <= k < hi) :: p[k] == old(p[k])
    {
      n := Min(hi - lo, len - from);
      forall k | lo <= k < lo + n {
        p[k] := cache[from + (k - lo)];
      }
    }

    lemma CacheIsView(view: seq<byte>, from: nat, n: nat)
      requires Shows(view) && from + n <= len
      ensures cache[from..from + n] == view[cacheOffset + from..cacheOffset + from + n]
    {
      var a, b := cache[from..from + n], view[cacheOffset + from..cacheOffset + from + n];
      forall i | 0 <= i < n ensures a[i] == b[i] {
        assert cache[..len][from + i] == view[cacheOffset..][from + i];
      }
    }

    /** From the cache on, no read of the archive is needed. */
    method ReadCached(p: array<byte>, lo: nat, hi: nat, off: nat, ghost view: seq<byte>) returns (n: nat, e: ReadError)
      requires Shows(view) && p != cache && lo <= hi <= p.Length && off >= cacheOffset
      modifies p
      ensures n <= hi - lo && forall k | 0 <= k < p.Length && !(lo <= k < hi) :: p[k] == old(p[k])
      ensures !e.ReadFailed? && Agrees(p[lo..lo + n], hi - lo, off, e, view)
    {
      var end := cacheOffset + len;
      if off >= end {
        return 0, EOF;
      }
      n := CopyCached(p, lo, hi, off - cacheOffset);
      CacheIsView(view, off - cacheOffset, n);
      e := if n < hi - lo then EOF else NoError;
    }

    /** The head of a read, from the archive itself. Below the cache it shows the view, and the end of the
        archive is not in sight. */
    method ReadHead(p: array<byte>, lo: nat, mid: nat, off: nat, ghost view: seq<byte>) returns (n: nat, e: ReadError)
      requires Shows(view) && p != cache && lo <= mid <= p.Length && off < cacheOffset
      modifies p, r
      ensures Blamed(r, e.ReadFailed?, old(r.failures))
      ensures n <= mid - lo && forall k | 0 <= k < p.Length && !(lo <= k < mid) :: p[k] == old(p[k])
      ensures off + (mid - lo) <= cacheOffset ==>
                !e.EOF? && (e.NoError? ==> n == mid - lo && p[lo..mid] == view[off..off + n])
      ensures off + (mid - lo) > |r.bytes| ==>
                !e.NoError? && (e.EOF? ==> Agrees(p[lo..lo + n], mid - lo, off, e, r.bytes))
    {
      n, e := r.ReadAt(p, lo, mid, off);
      if n > 0 && e.NoError? && off + (mid - lo) <= cacheOffset {
        Below(r.bytes, cacheOffset, off, off + n);
        Below(view, cacheOffset, off, off + n);
      }
    }

    /** The whole read is below the cache, or seems to be. */
    method ReadBelow(p: array<byte>, lo: nat, hi: nat, off: nat, ghost view: seq<byte>) returns (n: nat, e: ReadError)
      requires Shows(view) && p != cache && lo <= hi <= p.Length && off < cacheOffset
      requires off + (hi - lo) <= cacheOffset || SumWraps(off, hi - lo)
      modifies p, r
      ensures Blamed(r, e.ReadFailed?, old(r.failures))
      ensures n <= hi - lo && forall k | 0 <= k < p.Length && !(lo <= k < hi) :: p[k] == old(p[k])
      ensures !e.ReadFailed? ==>
                Agrees(p[lo..lo + n], hi - lo, off, e, if SumWraps(off, hi - lo) then r.bytes else view)
    {
      n, e := ReadHead(p, lo, hi, off, view);
    }

    /** The read crosses into the cache: its head comes from the archive, the rest from memory. */
    method ReadAcross(p: array<byte>, lo: nat, hi: nat, off: nat, ghost view: seq<byte>) returns (n: nat, e: ReadError)
      requires Shows(view) && p != cache && lo <= hi <= p.Length && off < cacheOffset < off + (hi - lo)
      modifies p, r
      ensures Blamed(r, e.ReadFailed?, old(r.failures))
      ensures n <= hi - lo && forall k | 0 <= k < p.Length && !(lo <= k < hi) :: p[k] == old(p[k])
      ensures !e.ReadFailed? ==> Agrees(p[lo..lo + n], hi - lo, off, e, view)
    {
      var mid := lo + (cacheOffset - off);
      n, e := ReadHead(p, lo, mid, off, view);
      if !e.NoError? {
        return;
      }
      ghost var head := p[lo..mid];
      var m;
      m, e := ReadCached(p, mid, hi, cacheOffset, view);
      assert p[lo..mid] == head;
      Straddle(head, p[mid..mid + m], hi - mid, off, cacheOffset, e, view);
      assert p[lo..mid + m] == head + p[mid..mid + m];
      n := n + m;
    }

    /** ReadAt(p[lo:hi], off), for every offset and every slice length: the bytes, the count and the EOF of
        reading the view, whichever side of the cache boundary they lie on; only a failing read of the
        archive itself shows. Where a read from below the cache asks for so much that offset plus length
        is no int64, the sum wraps and the archive is read past the view's end instead. */
    method ReadAt(p: array<byte>, lo: nat, hi: nat, off: int64, ghost view: seq<byte>) returns (n: nat, e: ReadError)
      requires Shows(view) && p != cache && lo <= hi <= p.Length && hi - lo < TWO_63
      modifies p, r
      ensures Blamed(r, off >= 0 && e.ReadFailed?, old(r.failures))
      ensures n <= hi - lo && forall k | 0 <= k < p.Length && !(lo <= k < hi) :: p[k] == old(p[k])
      ensures off < 0 ==> n == 0 && e.ReadFailed?
      ensures off >= 0 && !e.ReadFailed? ==>
                Agrees(p[lo..lo + n], hi - lo, off, e, if SumWraps(off, hi - lo) then r.bytes else view)
      ensures off >= cacheOffset ==> !e.ReadFailed?
    {
      if off < 0 {
        return 0, ReadFailed;
      }
      if off >= cacheOffset {
        n, e := ReadCached(p, lo, hi, off, view);
        return;
      }
      WrapOnce(off + (hi - lo));
      if Wrap64(off + (hi - lo)) > cacheOffset {
        n, e := ReadAcross(p, lo, hi, off, view);
      } else {
        n, e := ReadBelow(p, lo, hi, off, view);
      }
    }

    predicate SumWraps(off: int, room: nat)
    {
      0 <= off < cacheOffset && off + room >= TWO_63
    }
  }

  /** What a read past the archive's end delivers agrees with the view as well exactly when the view is the
      whole archive; with ViewIsWholeIff, exactly when the comment is empty. */
  lemma WrappedReadAgreesIff(got: seq<byte>, room: nat, off: nat, e: ReadError, bytes: seq<byte>, view: seq<byte>)
    requires off < |view| <= |bytes| < off + room && view[..off] == bytes[..off] && Agrees(got, room, off, e, bytes)
    ensures Agrees(got, room, off, e, view) <==> view == bytes
  {
    if Agrees(got, room, off, e, view) {
      assert view == view[..off] + view[off..] && bytes == bytes[..off] + bytes[off..];
      assert view[off..off + |got|] == view[off..] && bytes[off..off + |got|] == bytes[off..];
    }
  }

  lemma ViewIsWholeIff(f: seq<byte>, eocd: int)
    requires IsEnd(f, eocd)
    ensures View(f, eocd) == f <==> LE16(f, eocd + 20) == 0
  {
    if LE16(f, eocd + 20) == 0 {
      assert f == f[..eocd + 20] + [f[eocd + 20], f[eocd + 21]];
    } else {
      assert |View(f, eocd)| < |f|;
    }
  }

  lemma ViewAt(f: seq<byte>, eocd: int, i: nat)
    requires 0 <= eocd && eocd + EOCD_LEN <= |f| && i < eocd + EOCD_LEN
    ensures |View(f, eocd)| == eocd + EOCD_LEN
    ensures View(f, eocd)[i] == if i == eocd + 20 || i == eocd + 21 then 0 else f[i]
  {
  }

  /** In the view the end record closes the file: its comment is empty, and every other byte is the archive's. */
  lemma ViewEnds(f: seq<byte>, eocd: int)
    requires IsEnd(f, eocd)
    ensures var v := View(f, eocd);
            && IsEnd(v, eocd) && |v| == eocd + EOCD_LEN && LE16(v, eocd + 20) == 0
            && forall i | 0 <= i < |v| && i != eocd + 20 && i != eocd + 21 :: v[i] == f[i]
  {
    forall i | 0 <= i < eocd + EOCD_LEN
      ensures View(f, eocd)[i] == if i == eocd + 20 || i == eocd + 21 then 0 else f[i]
    {
      ViewAt(f, eocd, i);
    }
  }

  lemma ViewFields(f: seq<byte>, eocd: int, i: nat)
    requires 0 <= eocd && eocd + EOCD_LEN <= |f| && i + 4 <= eocd + 20
    ensures LE16(View(f, eocd), i) == LE16(f, i) && LE32(View(f, eocd), i) == LE32(f, i)
    ensures i + 8 <= eocd + 20 ==> LE64(View(f, eocd), i) == LE64(f, i)
  {
  }

  lemma ViewLocates(f: seq<byte>, eocd: int)
    requires 0 <= eocd && eocd + EOCD_LEN <= |f|
    ensures HasLocator(View(f, eocd), eocd) == HasLocator(f, eocd)
    ensures HasLocator(f, eocd) ==> RecordOffset(View(f, eocd), eocd) == RecordOffset(f, eocd)
  {
    if eocd >= ZIP64_LOCATOR_LEN {
      ViewFields(f, eocd, eocd - ZIP64_LOCATOR_LEN);
      ViewFields(f, eocd, eocd - ZIP64_LOCATOR_LEN + 8);
    }
  }

  lemma RecordBefore(f: seq<byte>, eocd: int)
    requires |f| < TWO_63 && eocd + EOCD_LEN <= |f| && HasLocator(f, eocd) && FromZip64(f, eocd).Found?
    ensures 0 <= RecordOffset(f, eocd) <= eocd - ZIP64_LOCATOR_LEN - ZIP64_EOCD_LEN
  {
    var rec := RecordOffset(f, eocd);
    if rec >= 0 {
      WrapOnce(rec + ZIP64_EOCD_LEN);
    }
  }

  /** The zip64 record at rec has the same fields in both. */
  predicate SameRecord(f: seq<byte>, g: seq<byte>, rec: nat)
    requires rec + ZIP64_EOCD_LEN <= |f| && rec + ZIP64_EOCD_LEN <= |g|
  {
    && LE32(g, rec) == LE32(f, rec) && LE64(g, rec + 32) == LE64(f, rec + 32)
    && LE64(g, rec + 40) == LE64(f, rec + 40) && LE64(g, rec + 48) == LE64(f, rec + 48)
  }

  lemma ViewRecord(f: seq<byte>, eocd: int, rec: nat)
    requires rec + ZIP64_EOCD_LEN <= eocd && eocd + EOCD_LEN <= |f|
    ensures |View(f, eocd)| == eocd + EOCD_LEN && SameRecord(f, View(f, eocd), rec)
  {
    ViewFields(f, eocd, rec);
    ViewFields(f, eocd, rec + 32);
    ViewFields(f, eocd, rec + 40);
    ViewFields(f, eocd, rec + 48);
  }

  lemma SameZip64(f: seq<byte>, g: seq<byte>, eocd: int, rec: nat)
    requires HasLocator(f, eocd) && HasLocator(g, eocd) && RecordOffset(f, eocd) == RecordOffset(g, eocd) == rec
    requires rec + ZIP64_EOCD_LEN <= eocd && SameRecord(f, g, rec)
    ensures FromZip64(g, eocd) == FromZip64(f, eocd)
  {
  }

  lemma ViewZip64(f: seq<byte>, eocd: int)
    requires |f| < TWO_63 && 0 <= eocd && eocd + EOCD_LEN <= |f| && HasLocator(f, eocd) && FromZip64(f, eocd).Found?
    ensures HasLocator(View(f, eocd), eocd) && FromZip64(View(f, eocd), eocd) == FromZip64(f, eocd)
  {
    ViewLocates(f, eocd);
    RecordBefore(f, eocd);
    ViewRecord(f, eocd, RecordOffset(f, eocd));
    SameZip64(f, View(f, eocd), eocd, RecordOffset(f, eocd));
  }

  lemma ViewParsesAt(f: seq<byte>, eocd: int)
    requires |f| < TWO_63 && 0 <= eocd && eocd + EOCD_LEN <= |f| && ParseAt(f, eocd).Found?
    ensures ParseAt(View(f, eocd), eocd) == ParseAt(f, eocd)
  {
    ViewLocates(f, eocd);
    if HasLocator(f, eocd) {
      ViewZip64(f, eocd);
    } else {
      ViewFields(f, eocd, eocd + 10);
      ViewFields(f, eocd, eocd + 12);
      ViewFields(f, eocd, eocd + 16);
    }
  }

  lemma ClosedParse(v: seq<byte>, eocd: int)
    requires IsEnd(v, eocd) && |v| == eocd + EOCD_LEN
    ensures Parse(v) == ParseAt(v, eocd)
  {
  }

  lemma FoundAt(f: seq<byte>)
    requires Parse(f).Found?
    ensures IsEnd(f, Parse(f).dir.eocdOffset) && Parse(f) == ParseAt(f, Parse(f).dir.eocdOffset)
  {
    LastEndIsLast(f, |f| - EOCD_LEN);
  }

  /** The library, which finds the end record for itself, is led to the directory that was validated. */
  lemma ViewParsesAlike(f: seq<byte>)
    requires |f| < TWO_63 && Parse(f).Found?
    ensures IsEnd(f, Parse(f).dir.eocdOffset) && Parse(View(f, Parse(f).dir.eocdOffset)) == Parse(f)
  {
    var eocd := Parse(f).dir.eocdOffset;
    FoundAt(f);
    ViewEnds(f, eocd);
    ViewParsesAt(f, eocd);
    ClosedParse(View(f, eocd), eocd);
  }

  /** What reading `room` bytes at `off` of the view must deliver. */
  ghost predicate Agrees(got: seq<byte>, room: nat, off: nat, e: ReadError, view: seq<byte>)
  {
    && |got| == Min(room, Max(0, |view| - off))
    && (e.EOF? <==> |got| < room || off >= |view|)
    && (|got| > 0 ==> off + |got| <= |view| && got == view[off..off + |got|])
  }

  lemma Below(s: seq<byte>, limit: nat, i: nat, j: nat)
    requires i <= j <= limit <= |s|
    ensures s[..limit][i..j] == s[i..j]
  {
  }

  /** A read over the cache boundary: a full head from below, then what the cache has. */
  lemma Straddle(head: seq<byte>, got: seq<byte>, room: nat, off: nat, boundary: nat, e: ReadError, view: seq<byte>)
    requires off + |head| == boundary < |view| && head == view[off..boundary] && Agrees(got, room, boundary, e, view)
    ensures Agrees(head + got, |head| + room, off, e, view)
  {
    assert view[off..boundary + |got|] == view[off..boundary] + view[boundary..boundary + |got|];
  }
}
