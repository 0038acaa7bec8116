/** Splitting an archive into the byte ranges of its parts (tsync/zip_utils.go GetZipPartRanges). What the
    ZIP library lists is any function of the bytes it is shown. */
module ZipParts {
  import opened Base
  import opened Counting
  import opened ZipDirectory
  import opened ZipRanges

  datatype Entry = Entry(name: string, offset: int64)

  datatype Range = Range(name: string, start: int64, end: int64)

  type Library = seq<byte> -> Option<seq<Entry>>

  datatype Split = Parts(ranges: seq<Range>) | Refused(why: Outcome)

  // ---- From header offsets to ranges ----

  predicate InDataArea(es: seq<Entry>, cdOffset: int)
  {
    forall i | 0 <= i < |es| :: 0 <= es[i].offset < cdOffset
  }

  predicate DistinctOffsets(es: seq<Entry>)
  {
    forall i, j | 0 <= i < j < |es| :: es[i].offset != es[j].offset
  }

  predicate Sorted(es: seq<Entry>)
  {
    forall i, j | 0 <= i < j < |es| :: es[i].offset <= es[j].offset
  }

  /** Entry i of the list and range i agree, ranges touch, and the last one ends at the directory. */
  ghost predicate Tiles(rs: seq<Range>, sorted: seq<Entry>, cdOffset: int)
  {
    && |rs| == |sorted|
    && (forall i | 0 <= i < |rs| ::
         rs[i].name == sorted[i].name && rs[i].start == sorted[i].offset && rs[i].start < rs[i].end)
    && (forall i, j | 0 <= i && j == i + 1 && j < |rs| :: rs[i].end == rs[j].start)
    && (rs != [] ==> rs[|rs| - 1].end == cdOffset)
  }

  /** Ranges that tile are sorted and pairwise disjoint. */
  lemma {:induction false} TilesAreDisjoint(rs: seq<Range>, sorted: seq<Entry>, cdOffset: int, i: nat, j: nat)
    requires Tiles(rs, sorted, cdOffset) && i < j < |rs|
    ensures rs[i].start < rs[i].end <= rs[j].start < rs[j].end <= cdOffset
    decreases |rs| - i
  {
    if i + 1 < j {
      TilesAreDisjoint(rs, sorted, cdOffset, i + 1, j);
    } else if j < |rs| - 1 {
      TilesAreDisjoint(rs, sorted, cdOffset, j, |rs| - 1);
    }
  }

  /** And they leave no gap: every offset from the first header to the directory is in a range. */
  lemma {:induction false} TilesCover(rs: seq<Range>, sorted: seq<Entry>, cdOffset: int, x: int, k: nat)
    returns (i: nat)
    requires Tiles(rs, sorted, cdOffset) && k < |rs| && rs[0].start <= x < rs[k].end
    ensures i < |rs| && rs[i].start <= x < rs[i].end
  {
    if rs[k].start <= x {
      i := k;
    } else {
      assert k > 0 && rs[k - 1].end == rs[k].start;
      i := TilesCover(rs, sorted, cdOffset, x, k - 1);
    }
  }

  /** sort.Slice by offset. */
  method SortByOffset(es: seq<Entry>) returns (sorted: seq<Entry>)
    ensures Sorted(sorted) && multiset(sorted) == multiset(es)
  {
    sorted := [];
    var i := 0;
    while i < |es|
      invariant 0 <= i <= |es| && Sorted(sorted) && multiset(sorted) == multiset(es[..i])
    {
      sorted := Insert(sorted, es[i]);
      assert es[..i + 1] == es[..i] + [es[i]];
      i := i + 1;
    }
    assert es[..i] == es;
  }

  method Place(es: seq<Entry>, e: Entry) returns (k: nat)
    ensures k <= |es|
    ensures k > 0 ==> es[k - 1].offset <= e.offset
    ensures k < |es| ==> e.offset < es[k].offset
  {
    k := |es|;
    while k > 0 && es[k - 1].offset > e.offset
      invariant 0 <= k <= |es| && (k < |es| ==> e.offset < es[k].offset)
    {
      k := k - 1;
    }
  }

  method Insert(es: seq<Entry>, e: Entry) returns (r: seq<Entry>)
    requires Sorted(es)
    ensures Sorted(r) && multiset(r) == multiset(es) + multiset{e}
  {
    var k := Place(es, e);
    var a, b := es[..k], es[k..];
    assert es == a + b;
    InsertedSorted(es, e, a, b);
    InsertedCounts(es, e, a, b);
    r := a + [e] + b;
  }

  lemma InsertedCounts(es: seq<Entry>, e: Entry, a: seq<Entry>, b: seq<Entry>)
    requires es == a + b
    ensures multiset(a + [e] + b) == multiset(es) + multiset{e}
  {
  }

  lemma InsertedSorted(es: seq<Entry>, e: Entry, a: seq<Entry>, b: seq<Entry>)
    requires es == a + b && Sorted(es)
    requires a != [] ==> a[|a| - 1].offset <= e.offset
    requires b != [] ==> e.offset < b[0].offset
    ensures Sorted(a + [e] + b)
  {
    SortedSplit(es, a, b, e);
    SortedJoin(a, b, e);
  }

  lemma SortedSplit(es: seq<Entry>, a: seq<Entry>, b: seq<Entry>, e: Entry)
    requires es == a + b && Sorted(es)
    requires a != [] ==> a[|a| - 1].offset <= e.offset
    requires b != [] ==> e.offset < b[0].offset
    ensures Sorted(a) && Sorted(b)
    ensures forall i | 0 <= i < |a| :: a[i].offset <= e.offset
    ensures forall j | 0 <= j < |b| :: e.offset <= b[j].offset
  {
    assert forall i | 0 <= i < |a| :: a[i] == es[i];
    forall i, j | 0 <= i < j < |b| ensures b[i].offset <= b[j].offset {
      assert b[i] == es[|a| + i] && b[j] == es[|a| + j];
    }
  }

  lemma SortedJoin(a: seq<Entry>, b: seq<Entry>, e: Entry)
    requires Sorted(a) && Sorted(b)
    requires forall i | 0 <= i < |a| :: a[i].offset <= e.offset
    requires forall j | 0 <= j < |b| :: e.offset <= b[j].offset
    ensures Sorted(a + [e] + b)
  {
    forall i, j | 0 <= i < j < |a + [e] + b| ensures (a + [e] + b)[i].offset <= (a + [e] + b)[j].offset {
      assert i <= |a| ==> (a + [e] + b)[i].offset <= e.offset;
      assert j >= |a| ==> (a + [e] + b)[j].offset >= e.offset;
    }
  }

  lemma {:induction false} OnceOnly(es: seq<Entry>, e: Entry)
    requires DistinctOffsets(es)
    ensures multiset(es)[e] <= 1
  {
    if es != [] {
      var n := |es| - 1;
      OnceOnly(es[..n], e);
      assert es == es[..n] + [es[n]];
      if es[n] == e {
        assert e !in es[..n];
      }
    }
  }

  lemma Twice(es: seq<Entry>, i: nat, j: nat)
    requires i < j < |es| && es[i] == es[j]
    ensures multiset(es)[es[i]] >= 2
  {
    assert es == es[..j] + [es[j]] + es[j + 1..];
    assert es[..j][i] in es[..j];
  }

  lemma DistinctPermuted(a: seq<Entry>, b: seq<Entry>)
    requires multiset(a) == multiset(b) && DistinctOffsets(a)
    ensures DistinctOffsets(b)
  {
    forall i, j | 0 <= i < j < |b| ensures b[i].offset != b[j].offset {
      if b[i] == b[j] {
        Twice(b, i, j);
        OnceOnly(a, b[i]);
      } else {
        var k := SameMembers(b, a, i);
        var l := SameMembers(b, a, j);
        assert k < l || l < k;
      }
    }
  }

  method CheckOffsets(es: seq<Entry>, cdOffset: int) returns (ok: bool)
    ensures ok <==> InDataArea(es, cdOffset)
  {
    var i := 0;
    while i < |es|
      invariant 0 <= i <= |es| && forall k | 0 <= k < i :: 0 <= es[k].offset < cdOffset
    {
      if es[i].offset < 0 || es[i].offset >= cdOffset {
        return false;
      }
      i := i + 1;
    }
    return true;
  }

  /** The loop over the sorted entries. On an overlap the error names the next entry, which exists: the
      last entry always ends after it starts. */
  method BuildRanges(files: seq<Entry>, cdOffset: int64) returns (ranges: seq<Range>, clash: Option<(string, string)>)
    requires Sorted(files) && InDataArea(files, cdOffset)
    ensures clash.None? <==> DistinctOffsets(files)
    ensures clash.None? ==> Tiles(ranges, files, cdOffset)
    ensures clash.Some? ==> exists i, j :: 0 <= i && j == i + 1 && j < |files| && files[i].offset == files[j].offset
                                           && clash.value == (files[i].name, files[j].name)
  {
    ranges := [];
    var i := 0;
    while i < |files|
      invariant 0 <= i <= |files| && |ranges| == i
      invariant forall k | 0 <= k < i :: ranges[k].name == files[k].name && ranges[k].start == files[k].offset
      invariant forall k | 0 <= k < i :: ranges[k].start < ranges[k].end
      invariant forall k | 0 <= k < i :: ranges[k].end == if k < |files| - 1 then files[k + 1].offset else cdOffset
    {
      var item := files[i];
      var end := cdOffset;
      if i < |files| - 1 {
        end := files[i + 1].offset;
      }
      if end <= item.offset {
        return ranges, Some((item.name, files[i + 1].name));
      }
      ranges := ranges + [Range(item.name, item.offset, end)];
      i := i + 1;
    }
    StrictlyUp(files, ranges);
    return ranges, None;
  }

  lemma StrictlyUp(files: seq<Entry>, ranges: seq<Range>)
    requires Sorted(files) && |ranges| == |files|
    requires forall k | 0 <= k < |files| :: files[k].offset == ranges[k].start < ranges[k].end
    requires forall k | 0 <= k < |files| - 1 :: ranges[k].end == files[k + 1].offset
    ensures DistinctOffsets(files)
  {
    forall i, j | 0 <= i < j < |files| ensures files[i].offset != files[j].offset {
      assert files[i].offset < ranges[i].end == files[i + 1].offset <= files[j].offset;
    }
  }

  /** The ranges of a listing; None if an offset lies outside the data area or two entries share one. */
  method PartRanges(es: seq<Entry>, cdOffset: int64) returns (r: Option<seq<Range>>)
    ensures r.Some? <==> InDataArea(es, cdOffset) && DistinctOffsets(es)
    ensures r.Some? ==> exists sorted ::
              multiset(sorted) == multiset(es) && Sorted(sorted) && Tiles(r.value, sorted, cdOffset)
  {
    var ok := CheckOffsets(es, cdOffset);
    if !ok {
      return None;
    }
    var sorted := SortByOffset(es);
    forall i | 0 <= i < |sorted| ensures 0 <= sorted[i].offset < cdOffset {
      var j := SameMembers(sorted, es, i);
    }
    if DistinctOffsets(es) {
      DistinctPermuted(es, sorted);
    }
    var ranges, clash := BuildRanges(sorted, cdOffset);
    if clash.Some? {
      return None;
    }
    DistinctPermuted(sorted, es);
    return Some(ranges);
  }

  // ---- The whole call ----

  /** The cache for the library: everything from the directory (or the tail, if that starts earlier) to
      the end of the end record, with the comment length cleared. */
  method BuildCache(r: Archive, d: Directory, tailOffset: nat, tail: array<byte>)
    returns (ok: bool, c: CachedReader)
    requires |r.bytes| < TWO_63 && tailOffset + tail.Length == |r.bytes| && tail[..] == r.bytes[tailOffset..]
    requires tailOffset <= d.eocdOffset && d.eocdOffset + EOCD_LEN <= |r.bytes| && d.cdOffset >= 0
    modifies tail, r
    ensures Blamed(r, !ok, old(r.failures))
    ensures ok ==> c.r == r && c.cacheOffset == Min(d.cdOffset, tailOffset) && c.Shows(View(r.bytes, d.eocdOffset))
  {
    var cacheOffset: nat := tailOffset;
    var cache := tail;
    ok := true;
    if d.cdOffset < tailOffset {
      cacheOffset := d.cdOffset;
      ok, cache := ReadHead(r, cacheOffset, tailOffset, tail);
    }
    var len := d.eocdOffset + EOCD_LEN - cacheOffset;
    c := new CachedReader(r, cacheOffset, cache, len);
    if ok {
      ClearComment(r, d.eocdOffset, cacheOffset, cache);
    }
  }

  method ReadHead(r: Archive, cacheOffset: nat, tailOffset: nat, tail: array<byte>)
    returns (ok: bool, cache: array<byte>)
    requires cacheOffset <= tailOffset && tailOffset + tail.Length == |r.bytes| && tail[..] == r.bytes[tailOffset..]
    modifies r
    ensures Blamed(r, !ok, old(r.failures))
    ensures fresh(cache) && cacheOffset + cache.Length == |r.bytes|
    ensures ok ==> cache[..] == r.bytes[cacheOffset..]
  {
    cache := new byte[|r.bytes| - cacheOffset];
    var head := tailOffset - cacheOffset;
    var n, e := r.ReadAt(cache, 0, head, cacheOffset);
    if !e.NoError? && !(e.EOF? && n == head) {
      return false, cache;
    }
    ghost var front := cache[..head];
    forall k | head <= k < cache.Length {
      cache[k] := tail[k - head];
    }
    assert front == r.bytes[cacheOffset..tailOffset];
    assert cache[..] == front + tail[..];
    return true, cache;
  }

  /** PutUint16 of zero over the comment length. */
  method ClearComment(r: Archive, eocd: nat, cacheOffset: nat, cache: array<byte>)
    requires |r.bytes| < TWO_63 && cacheOffset <= eocd && eocd + EOCD_LEN <= |r.bytes|
    requires cacheOffset + cache.Length == |r.bytes| && cache[..] == r.bytes[cacheOffset..]
    modifies cache
    ensures cache[..eocd + EOCD_LEN - cacheOffset] == View(r.bytes, eocd)[cacheOffset..]
    ensures View(r.bytes, eocd)[..cacheOffset] == r.bytes[..cacheOffset]
  {
    var at := eocd + 20 - cacheOffset;
    assert cache[..at] == r.bytes[cacheOffset..eocd + 20];
    ghost var front := cache[..at];
    cache[at] := 0;
    cache[at + 1] := 0;
    assert cache[..at] == front;
    assert cache[..at + 2] == front + [0, 0];
  }

  /** The ranges tile the area from the first header to the directory, one for each listed entry. */
  ghost predicate Covers(f: seq<byte>, library: Library, d: Directory, ranges: seq<Range>)
    requires Lists(f, library, d)
  {
    exists sorted :: multiset(sorted) == multiset(library(View(f, d.eocdOffset)).value) && Sorted(sorted)
                     && Tiles(ranges, sorted, d.cdOffset)
  }

  /** GetZipPartRanges: unless a read fails, ranges are returned exactly when the directory is found and
      the listing is consistent with it; otherwise the error says which of the two it was. */
  method GetZipPartRanges(r: Archive, library: Library) returns (o: Split)
    requires |r.bytes| < TWO_63
    modifies r
    ensures Blamed(r, o == Refused(Unreadable), old(r.failures))
    ensures o != Refused(Unreadable) ==>
              match Parse(r.bytes)
              case Found(d) => if Lists(r.bytes, library, d) then o.Parts? && Covers(r.bytes, library, d, o.ranges)
                               else o == Refused(Corrupt)
              case error => o == Refused(error)
  {
    var found, tailOffset, tail := ReadZipDirectory(r);
    if !found.Found? {
      return Refused(found);
    }
    var d := found.dir;
    FoundInTail(r.bytes);
    var ok, c := BuildCache(r, d, tailOffset, tail);
    if !ok {
      return Refused(Unreadable);
    }
    var listing := library(View(r.bytes, d.eocdOffset));
    if listing.None? || |listing.value| % 0x1_0000 != d.records % 0x1_0000 {
      return Refused(Corrupt);
    }
    var ranges := PartRanges(listing.value, d.cdOffset);
    if ranges.None? {
      return Refused(Corrupt);
    }
    return Parts(ranges.value);
  }

  /** The library accepts the view, and its listing is consistent with the directory. */
  ghost predicate Lists(f: seq<byte>, library: Library, d: Directory)
  {
    && 0 <= d.eocdOffset && d.eocdOffset + EOCD_LEN <= |f|
    && var listing := library(View(f, d.eocdOffset));
       listing.Some? && |listing.value| % 0x1_0000 == d.records % 0x1_0000
       && InDataArea(listing.value, d.cdOffset) && DistinctOffsets(listing.value)
  }

  lemma FoundInTail(f: seq<byte>)
    requires Parse(f).Found? && |f| < TWO_63
    ensures var d := Parse(f).dir;
            TailOffset(f) <= d.eocdOffset && d.eocdOffset + EOCD_LEN <= |f| && d.cdOffset >= 0
  {
    FoundIsSound(f);
    EndIsInTail(f, Parse(f).dir.eocdOffset);
  }
}
