/** The buffered multipart writer of an object store (tsync/storage.go objectStorageWriter): bytes are
    accepted into one buffer, full buffers ship as parts, and only Close makes the object visible. */
module ObjectWriter {
  import opened Base
  import opened PartSize
  import opened Bucket
  import opened Keys
  import opened Metadata

  datatype WriteError = WriterClosed | Rejected | TooManyParts

  /** partBufPool: buffers of at least the first part size; a buffer in the pool belongs to nobody. */
  class BufferPool {
    var free: set<array<byte>>

    ghost predicate Valid()
      reads this
    {
      forall b | b in free :: b.Length >= INITIAL_PART_SIZE
    }

    constructor ()
      ensures Valid() && free == {}
    {
      free := {};
    }

    /** A pooled buffer, which leaves the pool, or a new one. */
    method Get() returns (b: array<byte>)
      requires Valid()
      modifies this
      ensures Valid() && b.Length >= INITIAL_PART_SIZE && b !in free && free <= old(free)
      ensures fresh(b) || b in old(free)
    {
      var reuse: bool := *;
      if reuse && free != {} {
        b :| b in free;
        free := free - {b};
      } else {
        b := new byte[INITIAL_PART_SIZE];
      }
    }

    method Put(b: array<byte>)
      requires Valid() && b.Length >= INITIAL_PART_SIZE
      modifies this
      ensures Valid() && free == old(free) + {b}
    {
      free := free + {b};
    }
  }

  // ---- Shipped parts ----

  /** Every shipped part has exactly the size of its number. */
  predicate FullParts(parts: seq<seq<byte>>)
  {
    forall i | 0 <= i < |parts| :: |parts[i]| == SizeOf(i + 1)
  }

  lemma {:induction false} FullPartsHold(parts: seq<seq<byte>>)
    requires FullParts(parts)
    ensures |Flatten(parts)| == Capacity(|parts|)
  {
    if parts != [] {
      FullPartsHold(parts[..|parts| - 1]);
    }
  }

  /** Running out of part numbers takes an object beyond the provider's size limit. */
  lemma EnoughAccepted(parts: seq<seq<byte>>, rest: seq<byte>)
    requires FullParts(parts) && |parts| >= MAX_MULTIPART_PARTS
    ensures |Flatten(parts) + rest| > OBJECT_LIMIT
  {
    FullPartsHold(parts);
    CapacityCoversObjectLimit();
    AtLeast(MAX_MULTIPART_PARTS, |parts|);
  }

  lemma AtLeast(m: nat, n: nat)
    requires m <= n
    ensures Capacity(m) <= Capacity(n)
  {
    if m < n {
      CapacityGrows(m, n);
      SizesGrow(m + 1, m + 1);
    }
  }

  lemma Pieces(front: seq<byte>, p: seq<byte>, a: nat, n: nat)
    requires a + n <= |p|
    ensures (front + p[..a]) + p[a..][..n] == front + p[..a + n]
  {
    assert p[..a] + p[a..][..n] == p[..a + n];
  }

  lemma FlattenNext(parts: seq<seq<byte>>, next: seq<byte>)
    ensures Flatten(parts + [next]) == Flatten(parts) + next
  {
    assert (parts + [next])[..|parts|] == parts;
  }

  lemma ShippedNext(parts: seq<seq<byte>>, next: seq<byte>)
    requires FullParts(parts) && |next| == SizeOf(|parts| + 1)
    ensures FullParts(parts + [next]) && Flatten(parts + [next]) == Flatten(parts) + next
  {
    FlattenNext(parts, next);
    SizedNext(parts, next, SizeOf);
  }

  lemma SizedNext(parts: seq<seq<byte>>, next: seq<byte>, size: int -> int)
    requires forall i | 0 <= i < |parts| :: |parts[i]| == size(i + 1)
    requires |next| == size(|parts| + 1)
    ensures forall i | 0 <= i < |parts + [next]| :: |(parts + [next])[i]| == size(i + 1)
  {
  }

  lemma NothingNext(parts: seq<seq<byte>>, next: seq<byte>)
    requires next == []
    ensures Flatten(parts) + next == Flatten(parts)
  {
  }

  lemma FinalNext(parts: seq<seq<byte>>, next: seq<byte>)
    requires FullParts(parts) && 0 < |next| <= SizeOf(|parts| + 1)
    ensures Flatten(parts + [next]) == Flatten(parts) + next && FinalPartFits(parts, parts + [next])
  {
    FlattenNext(parts, next);
  }

  /** A finished multipart upload ends in one more part, which is not empty and not too large. */
  predicate FinalPartFits(before: seq<seq<byte>>, after: seq<seq<byte>>)
  {
    FullParts(before) && |after| == |before| + 1 && before <= after && 0 < |after[|before|]| <= SizeOf(|before| + 1)
  }

  lemma {:induction false} CapacityGrows(m: nat, n: nat)
    requires m < n
    ensures Capacity(m) + SizeOf(m + 1) <= Capacity(n)
  {
    if m < n - 1 {
      CapacityGrows(m, n - 1);
    }
    SizesGrow(n, n);
  }

  /** How the accepted bytes lie in parts and buffer: once something is shipped, the rest is not empty. */
  predicate Layout(parts: seq<seq<byte>>, rest: seq<byte>)
  {
    FullParts(parts) && |rest| <= SizeOf(|parts| + 1) && (parts != [] ==> rest != [])
  }

  /** The parts depend on the accepted bytes alone, not on how Write calls chunked them. */
  lemma LayoutUnique(p: seq<seq<byte>>, r: seq<byte>, q: seq<seq<byte>>, t: seq<byte>)
    requires Layout(p, r) && Layout(q, t) && Flatten(p) + r == Flatten(q) + t
    ensures p == q && r == t
  {
    FullPartsHold(p);
    FullPartsHold(q);
    assert |Flatten(p) + r| == Capacity(|p|) + |r| && |Flatten(q) + t| == Capacity(|q|) + |t|;
    if |p| < |q| {
      CapacityGrows(|p|, |q|);
    } else if |q| < |p| {
      CapacityGrows(|q|, |p|);
    }
    assert (Flatten(p) + r)[..|Flatten(p)|] == Flatten(p) && (Flatten(q) + t)[..|Flatten(p)|] == Flatten(q);
    assert (Flatten(p) + r)[|Flatten(p)|..] == r && (Flatten(q) + t)[|Flatten(p)|..] == t;
    FlattenInjective(p, q);
  }

  lemma {:induction false} FlattenInjective(p: seq<seq<byte>>, q: seq<seq<byte>>)
    requires FullParts(p) && FullParts(q) && |p| == |q| && Flatten(p) == Flatten(q)
    ensures p == q
  {
    if p != [] {
      var n := |p| - 1;
      FullPartsHold(p[..n]);
      FullPartsHold(q[..n]);
      var cut := Capacity(n);
      assert Flatten(p)[..cut] == Flatten(p[..n]) && Flatten(q)[..cut] == Flatten(q[..n]);
      assert Flatten(p)[cut..] == p[n] && Flatten(q)[cut..] == q[n];
      FlattenInjective(p[..n], q[..n]);
      assert p == p[..n] + [p[n]] && q == q[..n] + [q[n]];
    }
  }

  predicate HasPart(parts: Parts, etags: map<nat, string>, n: nat, data: seq<byte>)
  {
    n in parts && n in etags && parts[n] == Part(etags[n], data)
  }

  ghost predicate HoldsAll(parts: Parts, etags: map<nat, string>, shipped: seq<seq<byte>>)
  {
    && (forall n: nat :: n in etags <==> 1 <= n <= |shipped|)
    && (forall i {:trigger shipped[i]} | 0 <= i < |shipped| :: HasPart(parts, etags, i + 1, shipped[i]))
  }

  /** The client holds every shipped part under its number and etag, and no other etag is known. */
  ghost predicate Recorded(uploads: map<nat, Parts>, id: Option<nat>, etags: map<nat, string>, shipped: seq<seq<byte>>)
  {
    match id
    case None => shipped == [] && etags == map[]
    case Some(u) => u in uploads && HoldsAll(uploads[u], etags, shipped)
  }

  function Noted(etags: map<nat, string>, n: nat, etag: string): map<nat, string>
  {
    map m: nat | m in etags.Keys + {n} :: if m == n then etag else etags[m]
  }

  lemma HoldsNext(parts: Parts, etags: map<nat, string>, shipped: seq<seq<byte>>, n: nat, etag: string, data: seq<byte>)
    requires HoldsAll(parts, etags, shipped) && n == |shipped| + 1
    ensures HoldsAll(Added(parts, n, Part(etag, data)), Noted(etags, n, etag), shipped + [data])
  {
    var parts', etags', shipped' := Added(parts, n, Part(etag, data)), Noted(etags, n, etag), shipped + [data];
    forall i | 0 <= i < |shipped'| ensures HasPart(parts', etags', i + 1, shipped'[i]) {
      if i < |shipped| {
        assert HasPart(parts, etags, i + 1, shipped[i]);
      }
    }
  }

  /** A failed part upload may leave something under its own number only. */
  lemma HoldsStill(parts: Parts, etags: map<nat, string>, shipped: seq<seq<byte>>, after: Parts, n: nat)
    requires HoldsAll(parts, etags, shipped) && n == |shipped| + 1
    requires forall m | m in parts && m != n :: m in after && after[m] == parts[m]
    ensures HoldsAll(after, etags, shipped)
  {
    forall i | 0 <= i < |shipped| ensures HasPart(after, etags, i + 1, shipped[i]) {
      assert HasPart(parts, etags, i + 1, shipped[i]);
    }
  }

  lemma AssembledIsShipped(parts: Parts, etags: map<nat, string>, shipped: seq<seq<byte>>, content: seq<byte>)
    requires HoldsAll(parts, etags, shipped) && Assembles(parts, etags, content)
    ensures content == Flatten(shipped)
  {
    var order :| Lists(order, etags.Keys) && (forall i | 0 <= i < |order| :: order[i] in parts) &&
                 content == Flatten(Chosen(parts, order));
    OneToK(order, |shipped|);
    ChosenIsShipped(parts, etags, order, shipped);
  }

  lemma ChosenIsShipped(parts: Parts, etags: map<nat, string>, order: seq<nat>, shipped: seq<seq<byte>>)
    requires HoldsAll(parts, etags, shipped)
    requires |order| == |shipped| && forall i | 0 <= i < |order| :: order[i] == i + 1 && order[i] in parts
    ensures Chosen(parts, order) == shipped
  {
    forall i | 0 <= i < |order| ensures Chosen(parts, order)[i] == shipped[i] {
      assert HasPart(parts, etags, i + 1, shipped[i]);
    }
  }

  /** What the writer completes with is what it uploaded. */
  lemma AllConfirmed(parts: Parts, etags: map<nat, string>, shipped: seq<seq<byte>>)
    requires HoldsAll(parts, etags, shipped)
    ensures Confirmed(parts, etags)
  {
    forall n | n in etags ensures n in parts && parts[n].etag == etags[n] {
      assert HasPart(parts, etags, n - 1 + 1, shipped[n - 1]);
    }
  }

  class Writer {
    const client: Bucket
    const pool: BufferPool
    var uploadId: Option<nat>
    var partNumber: nat       // number of the part being buffered
    var buf: array<byte>
    var len: nat              // buf[..len] is buffered; buf.Length is the capacity
    var pooled: bool          // buf came from the pool
    var etags: map<nat, string>
    var err: Option<WriteError>
    var closed: bool
    ghost var accepted: seq<byte>
    ghost var shipped: seq<seq<byte>>

    /** The buffer is this writer's alone. */
    ghost predicate BufferOk()
      reads this, pool
    {
      && pool.Valid() && buf !in pool.free && len <= buf.Length
      && (pooled ==> buf.Length >= INITIAL_PART_SIZE)
    }

    ghost predicate UploadOk()
      reads this, client
    {
      && client.Valid() && partNumber == |shipped| + 1
      && Recorded(client.uploads, uploadId, etags, shipped)
    }

    /** What the writer has accepted is what it shipped plus what it buffers; appending never outgrows
        the buffer. */
    ghost predicate ContentOk()
      reads this, buf
      requires len <= buf.Length
    {
      && accepted == Flatten(shipped) + buf[..len]
      && FullParts(shipped) && len <= SizeOf(partNumber)
      && (len > 0 ==> SizeOf(partNumber) <= buf.Length)
    }

    ghost predicate Valid()
      reads this, client, pool, buf
    {
      BufferOk() && (!closed ==> UploadOk() && ContentOk() && (err.None? && shipped != [] ==> len > 0))
    }

    constructor (client: Bucket, pool: BufferPool)
      requires client.Valid() && pool.Valid()
      ensures Valid() && !closed && err.None? && accepted == [] && this.client == client && this.pool == pool
      ensures fresh(buf)
    {
      this.client, this.pool := client, pool;
      uploadId, partNumber, len, pooled, etags, err, closed := None, 1, 0, false, map[], None, false;
      accepted, shipped := [], [];
      buf := new byte[0];
      new;
      SizesGrow(1, 1);
    }

    /** A rejection comes from a call that failed since; the writer's own limit is the only other error. */
    ghost predicate Blamed(e: Option<WriteError>, failures: nat)
      reads client
    {
      && failures <= client.failures
      && (e.Some? ==> e == Some(TooManyParts) || (e == Some(Rejected) && failures < client.failures))
    }

    method ReleaseBuffer()
      requires BufferOk()
      modifies this`buf, this`len, this`pooled, pool
      ensures BufferOk() && len == 0 && !pooled && fresh(buf)
      ensures pool.free <= old(pool.free) + {old(buf)}
    {
      if pooled {
        pool.Put(buf);
        pooled := false;
      }
      buf, len := new byte[0], 0;
    }

    /** Called with an empty buffer only. */
    method EnsureBuffer(size: int)
      requires BufferOk() && len == 0 && size >= INITIAL_PART_SIZE
      modifies this`buf, this`len, this`pooled, pool
      ensures BufferOk() && len == 0 && size <= buf.Length
      ensures buf == old(buf) || buf in old(pool.free) || fresh(buf)
      ensures pool.free <= old(pool.free) + {old(buf)}
    {
      if buf.Length >= size {
        return;
      }
      ReleaseBuffer();
      if size == INITIAL_PART_SIZE {
        var b := pool.Get();
        buf, pooled := b, true;
      } else {
        buf := new byte[size];
      }
    }

    method UploadBufferedPart() returns (e: Option<WriteError>)
      requires UploadOk() && len <= buf.Length
      modifies this`uploadId, this`partNumber, this`len, this`etags, this`shipped
      modifies client`uploads, client`nextId, client`failures
      ensures UploadOk()
      ensures e.None? ==> shipped == old(shipped) + [old(buf[..len])] && len == 0 && uploadId.Some?
      ensures e.Some? ==> shipped == old(shipped) && len == old(len)
      ensures e == Some(TooManyParts) <==> old(|shipped|) >= MAX_MULTIPART_PARTS
      ensures Blamed(e, old(client.failures))
    {
      if partNumber > MAX_MULTIPART_PARTS {
        return Some(TooManyParts);
      }
      if uploadId.None? {
        var ok, id := client.Initiate();
        if !ok {
          return Some(Rejected);
        }
        uploadId, etags := Some(id), map[];
      }
      assert UploadOk();
      ghost var before := client.uploads;
      var done, etag := client.UploadPart(uploadId.value, partNumber, buf[..len]);
      if !done {
        HoldsStill(before[uploadId.value], etags, shipped, client.uploads[uploadId.value], partNumber);
        return Some(Rejected);
      }
      HoldsNext(before[uploadId.value], etags, shipped, partNumber, etag, buf[..len]);
      etags := Noted(etags, partNumber, etag);
      shipped := shipped + [buf[..len]];
      partNumber := partNumber + 1;
      len := 0;
      return None;
    }

    /** A full buffer becomes a part. */
    method ShipFull() returns (e: Option<WriteError>)
      requires BufferOk() && UploadOk() && ContentOk() && len == SizeOf(partNumber)
      modifies this`uploadId, this`partNumber, this`len, this`etags, this`shipped
      modifies client`uploads, client`nextId, client`failures
      ensures BufferOk() && UploadOk() && ContentOk()
      ensures if e.None? then len == 0 else len == SizeOf(partNumber)
      ensures Blamed(e, old(client.failures))
      ensures e == Some(TooManyParts) ==> |shipped| >= MAX_MULTIPART_PARTS
    {
      ghost var before, bytes := shipped, buf[..len];
      e := UploadBufferedPart();
      if e.None? {
        ShippedNext(before, bytes);
        SizesGrow(partNumber, partNumber);
      }
    }

    /** Ships a full buffer when more data follows, and gets a buffer for an empty one. */
    method MakeRoom() returns (e: Option<WriteError>, size: int)
      requires BufferOk() && UploadOk() && ContentOk()
      modifies this`uploadId, this`partNumber, this`len, this`etags, this`shipped, this`buf, this`pooled
      modifies client`uploads, client`nextId, client`failures, pool
      ensures BufferOk() && UploadOk() && ContentOk()
      ensures e.None? ==> size == SizeOf(partNumber) && len < size <= buf.Length
      ensures e.Some? ==> len == SizeOf(partNumber) > 0
      ensures Blamed(e, old(client.failures))
      ensures e == Some(TooManyParts) ==> |shipped| >= MAX_MULTIPART_PARTS
      ensures buf == old(buf) || buf in old(pool.free) || fresh(buf)
      ensures pool.free <= old(pool.free) + {old(buf)}
    {
      size := PartSizeFor(partNumber);
      e := None;
      if len == size {
        e := ShipFull();
        if e.Some? {
          return;
        }
        size := PartSizeFor(partNumber);
      }
      if len == 0 {
        EnsureBuffer(size);
      }
    }

    method Append(chunk: seq<byte>)
      requires BufferOk() && UploadOk() && ContentOk() && chunk != []
      requires len + |chunk| <= SizeOf(partNumber) <= buf.Length
      modifies this`len, this`accepted, buf
      ensures BufferOk() && UploadOk() && ContentOk()
      ensures accepted == old(accepted) + chunk && len == old(len) + |chunk|
    {
      forall i | 0 <= i < |chunk| {
        buf[len + i] := chunk[i];
      }
      len := len + |chunk|;
      accepted := accepted + chunk;
      assert buf[..len] == old(buf[..len]) + chunk;
    }

    /** One round of Write's loop. */
    method Accept(p: seq<byte>) returns (n: nat, e: Option<WriteError>)
      requires Valid() && !closed && err.None? && p != []
      modifies this`uploadId, this`partNumber, this`len, this`etags, this`shipped, this`buf, this`pooled
      modifies this`accepted, this`err
      modifies client`uploads, client`nextId, client`failures, pool, buf, pool.free
      ensures Valid() && err == e && n <= |p| && accepted == old(accepted) + p[..n]
      ensures if e.None? then n > 0 else n == 0
      ensures Blamed(e, old(client.failures))
      ensures e == Some(TooManyParts) ==> |accepted| > OBJECT_LIMIT
      ensures buf == old(buf) || buf in old(pool.free) || fresh(buf)
      ensures pool.free <= old(pool.free) + {old(buf)}
    {
      var size;
      e, size := MakeRoom();
      if e.Some? {
        if e.value.TooManyParts? {
          EnoughAccepted(shipped, buf[..len]);
        }
        err := e;
        return 0, e;
      }
      n := Min(|p|, size - len);
      Append(p[..n]);
    }

    /** Accepts a prefix of p, all of it unless an error is returned; nothing becomes visible. */
    method Write(p: seq<byte>) returns (written: nat, e: Option<WriteError>)
      requires Valid()
      modifies this, client`uploads, client`nextId, client`failures, pool, buf, pool.free
      ensures Valid() && closed == old(closed) && written <= |p| && client.visible == old(client.visible)
      ensures old(closed) ==> written == 0 && e == Some(WriterClosed) && accepted == old(accepted)
      ensures !old(closed) ==> accepted == old(accepted) + p[..written] && err == e
      ensures !old(closed) && old(err).Some? ==> written == 0 && e == old(err)
      ensures e.None? ==> written == |p|
      ensures e == Some(TooManyParts) && old(err) != e ==> |accepted| > OBJECT_LIMIT
      ensures !old(closed) && old(err).None? ==> Blamed(e, old(client.failures))
      ensures buf == old(buf) || buf in old(pool.free) || fresh(buf)
      ensures fresh(pool.free - old(pool.free) - {old(buf)})
    {
      if closed {
        return 0, Some(WriterClosed);
      }
      if err.Some? {
        return 0, err;
      }
      written, e := AcceptAll(p);
    }

    /** Accept, for the bytes of p from `from` on. */
    method AcceptFrom(p: seq<byte>, from: nat, ghost start: seq<byte>) returns (n: nat, e: Option<WriteError>)
      requires Valid() && !closed && err.None? && from < |p| && accepted == start + p[..from]
      modifies this`uploadId, this`partNumber, this`len, this`etags, this`shipped, this`buf, this`pooled
      modifies this`accepted, this`err, client`uploads, client`nextId, client`failures, pool, buf, pool.free
      ensures Valid() && err == e && from + n <= |p| && accepted == start + p[..from + n]
      ensures if e.None? then n > 0 else n == 0
      ensures Blamed(e, old(client.failures))
      ensures e == Some(TooManyParts) ==> |accepted| > OBJECT_LIMIT
      ensures buf == old(buf) || buf in old(pool.free) || fresh(buf)
      ensures pool.free <= old(pool.free) + {old(buf)}
    {
      n, e := Accept(p[from..]);
      Pieces(start, p, from, n);
    }

    /** Write's loop. */
    method AcceptAll(p: seq<byte>) returns (written: nat, e: Option<WriteError>)
      requires Valid() && !closed && err.None?
      modifies this, client`uploads, client`nextId, client`failures, pool, buf, pool.free
      ensures Valid() && !closed && written <= |p| && err == e
      ensures accepted == old(accepted) + p[..written]
      ensures e.None? ==> written == |p|
      ensures e == Some(TooManyParts) ==> |accepted| > OBJECT_LIMIT
      ensures Blamed(e, old(client.failures))
      ensures buf == old(buf) || buf in old(pool.free) || fresh(buf)
      ensures fresh(pool.free - old(pool.free) - {old(buf)})
    {
      written, e := 0, None;
      ghost var start, mine, failures := accepted, pool.free + {buf}, client.failures;
      assert start + p[..0] == start;
      while written < |p| && e.None?
        invariant Valid() && written <= |p| && !closed && err == e
        invariant accepted == start + p[..written]
        invariant e == Some(TooManyParts) ==> |accepted| > OBJECT_LIMIT
        invariant Blamed(e, failures)
        invariant buf in mine || fresh(buf)
        invariant fresh(pool.free - mine)
        decreases |p| - written, e.None?
      {
        var n;
        n, e := AcceptFrom(p, written, start);
        written := written + n;
      }
    }

    method AbortUpload() returns (ok: bool)
      requires client.Valid()
      modifies client`uploads, client`failures
      ensures client.Valid() && old(client.failures) <= client.failures
    {
      if uploadId.None? {
        return true;
      }
      ok := client.Abort(uploadId.value);
    }

    /** Discards the object. */
    method Abort() returns (ok: bool)
      requires Valid() && client.Valid()
      modifies this`closed, this`buf, this`len, this`pooled, client`uploads, client`failures, pool
      ensures Valid() && client.Valid() && closed && old(client.failures) <= client.failures
    {
      if closed {
        return true;
      }
      closed := true;
      ReleaseBuffer();
      ok := AbortUpload();
    }

    /** The object becomes visible with exactly the accepted bytes, or (an unclear failure aside) stays
        as it was. */
    method Close() returns (ok: bool)
      requires Valid() && client.Valid()
      modifies this, client, pool
      ensures Valid() && client.Valid() && closed && accepted == old(accepted)
      ensures old(closed) ==> ok && client.visible == old(client.visible)
      ensures !old(closed) && old(err).Some? ==> !ok && client.visible == old(client.visible)
      ensures !old(closed) && ok ==> client.visible == Some(accepted)
      ensures !ok ==> client.visible == old(client.visible) || client.visible == Some(accepted)
      ensures !ok && old(err).None? ==> old(client.failures) < client.failures || |accepted| > OBJECT_LIMIT
      ensures !old(closed) && ok && old(shipped) != [] ==>
                accepted == Flatten(shipped) && FinalPartFits(old(shipped), shipped)
    {
      if closed {
        return true;
      }
      closed := true;
      if err.Some? {
        var _ := AbortUpload();
        ok := false;
      } else if uploadId.None? {
        ok := PutWhole();
      } else {
        ok := FinishUpload();
      }
      ReleaseBuffer();
    }

    /** Nothing was shipped: one call stores the buffer. */
    method PutWhole() returns (ok: bool)
      requires BufferOk() && UploadOk() && ContentOk() && uploadId.None?
      modifies client`visible, client`failures
      ensures client.Valid() && client.failures == old(client.failures) + if ok then 0 else 1
      ensures ok ==> client.visible == Some(accepted)
      ensures !ok ==> client.visible == old(client.visible) || client.visible == Some(accepted)
    {
      assert Flatten(shipped) + buf[..len] == buf[..len];
      ok := client.PutObject(buf[..len]);
    }

    /** The last part, if anything is buffered. */
    method ShipFinal() returns (ok: bool)
      requires BufferOk() && UploadOk() && ContentOk() && uploadId.Some?
      requires shipped != [] ==> len > 0
      modifies this`uploadId, this`partNumber, this`len, this`etags, this`shipped
      modifies client`uploads, client`nextId, client`failures
      ensures BufferOk() && UploadOk() && (ok ==> uploadId.Some? && accepted == Flatten(shipped))
      ensures ok && old(shipped) != [] ==> FinalPartFits(old(shipped), shipped)
      ensures old(client.failures) <= client.failures
      ensures !ok ==> old(client.failures) < client.failures || |accepted| > OBJECT_LIMIT
    {
      ghost var before, bytes := shipped, buf[..len];
      if len == 0 {
        NothingNext(before, bytes);
        return true;
      }
      FinalNext(before, bytes);
      if |shipped| >= MAX_MULTIPART_PARTS {
        EnoughAccepted(shipped, bytes);
      }
      var e := UploadBufferedPart();
      return e.None?;
    }

    /** Complete, with the etags of all shipped parts. */
    method CompleteUpload() returns (ok: bool)
      requires UploadOk() && uploadId.Some? && accepted == Flatten(shipped)
      modifies client
      ensures client.Valid() && client.failures == old(client.failures) + if ok then 0 else 1
      ensures ok ==> client.visible == Some(accepted)
      ensures !ok ==> client.visible == old(client.visible) || client.visible == Some(accepted)
    {
      ghost var parts := client.uploads[uploadId.value];
      AllConfirmed(parts, etags, shipped);
      ok := client.Complete(uploadId.value, etags);
      if client.visible != old(client.visible) || ok {
        AssembledIsShipped(parts, etags, shipped, client.visible.value);
      }
    }

    /** The last part, then Complete; an upload that cannot be finished is aborted. */
    method FinishUpload() returns (ok: bool)
      requires BufferOk() && UploadOk() && ContentOk() && uploadId.Some?
      requires shipped != [] ==> len > 0
      modifies this`uploadId, this`partNumber, this`len, this`etags, this`shipped, client
      ensures BufferOk() && client.Valid()
      ensures !ok ==> old(client.failures) < client.failures || |accepted| > OBJECT_LIMIT
      ensures ok ==> client.visible == Some(accepted)
      ensures !ok ==> client.visible == old(client.visible) || client.visible == Some(accepted)
      ensures ok && old(shipped) != [] ==> accepted == Flatten(shipped) && FinalPartFits(old(shipped), shipped)
    {
      ok := ShipFinal();
      if ok {
        ok := CompleteUpload();
      }
      if !ok {
        var _ := AbortUpload();
      }
    }
  }

  /** What the part writer reports at its end: the checksum and sizes of what went through it. */
  datatype Written = Written(crc32: uint32, compressedSize: int64, size: int64)

  /** How uploadPart uses a writer: stream the part, then compare the key of the content that actually
      went into it with the key it was started for; commit on a match, abort on any error. `done` is None
      when producing the part failed. The record returned is the one the pool shares. */
  method StorePart(w: Writer, chunks: seq<seq<byte>>, key: Key, seal: Seal, done: Option<Written>)
    returns (rec: Option<FileRecord>)
    requires w.Valid() && !w.closed && w.err.None? && w.accepted == []
    modifies w, w.client, w.pool, w.buf, w.pool.free
    ensures w.closed
    ensures rec.Some? ==>
              && RecordKey(rec.value) == key && rec.value.seal == seal
              && done == Some(Written(rec.value.crc32, rec.value.compressedSize, rec.value.size))
              && w.client.visible == Some(Flatten(chunks))
    ensures done.None? || FileKeyFor(done.value.crc32, done.value.size) != key ==>
              rec.None? && w.client.visible == old(w.client.visible)
    ensures rec.None? ==> w.client.visible == old(w.client.visible) || w.client.visible == Some(Flatten(chunks))
    ensures rec.None? ==>
              || done.None? || FileKeyFor(done.value.crc32, done.value.size) != key
              || old(w.client.failures) < w.client.failures || |Flatten(chunks)| > OBJECT_LIMIT
  {
    var failed := StreamChunks(w, chunks);
    if failed || done.None? || FileKeyFor(done.value.crc32, done.value.size) != key {
      var _ := w.Abort();
      return None;
    }
    var ok := w.Close();
    if !ok {
      return None;
    }
    return Some(FileRecord(done.value.crc32, done.value.compressedSize, done.value.size, seal));
  }

  method StreamChunks(w: Writer, chunks: seq<seq<byte>>) returns (failed: bool)
    requires w.Valid() && !w.closed && w.err.None? && w.accepted == []
    modifies w, w.client`uploads, w.client`nextId, w.client`failures, w.pool, w.buf, w.pool.free
    ensures w.Valid() && !w.closed && (failed <==> w.err.Some?)
    ensures !failed ==> w.accepted == Flatten(chunks)
    ensures old(w.client.failures) <= w.client.failures
    ensures failed ==> old(w.client.failures) < w.client.failures || |Flatten(chunks)| > OBJECT_LIMIT
  {
    failed := false;
    var i := 0;
    while i < |chunks| && !failed
      invariant w.Valid() && i <= |chunks| && !w.closed && (failed <==> w.err.Some?)
      invariant !failed ==> w.accepted == Flatten(chunks[..i])
      invariant old(w.client.failures) <= w.client.failures
      invariant failed ==> old(w.client.failures) < w.client.failures || |Flatten(chunks[..i])| > OBJECT_LIMIT
      invariant w.buf == old(w.buf) || w.buf in old(w.pool.free) || fresh(w.buf)
      invariant fresh(w.pool.free - old(w.pool.free) - {old(w.buf)})
      decreases |chunks| - i, !failed
    {
      assert chunks[..i] + [chunks[i]] == chunks[..i + 1];
      failed := StreamOne(w, chunks[..i], chunks[i]);
      i := i + 1;
    }
    assert chunks[..|chunks|] == chunks;
    FlattenGrows(chunks, i);
  }

  method StreamOne(w: Writer, ghost before: seq<seq<byte>>, chunk: seq<byte>) returns (failed: bool)
    requires w.Valid() && !w.closed && w.err.None? && w.accepted == Flatten(before)
    modifies w, w.client`uploads, w.client`nextId, w.client`failures, w.pool, w.buf, w.pool.free
    ensures w.Valid() && !w.closed && (failed <==> w.err.Some?)
    ensures !failed ==> w.accepted == Flatten(before + [chunk])
    ensures old(w.client.failures) <= w.client.failures
    ensures failed ==> old(w.client.failures) < w.client.failures || |Flatten(before + [chunk])| > OBJECT_LIMIT
    ensures w.buf == old(w.buf) || w.buf in old(w.pool.free) || fresh(w.buf)
    ensures fresh(w.pool.free - old(w.pool.free) - {old(w.buf)})
  {
    var n, e := w.Write(chunk);
    FlattenNext(before, chunk);
    assert chunk[..|chunk|] == chunk;
    return e.Some?;
  }

  lemma {:induction false} FlattenGrows(parts: seq<seq<byte>>, n: nat)
    requires n <= |parts|
    ensures |Flatten(parts[..n])| <= |Flatten(parts)|
  {
    if n < |parts| {
      FlattenGrows(parts[..|parts| - 1], n);
      assert parts[..|parts| - 1][..n] == parts[..n];
    } else {
      assert parts[..n] == parts;
    }
  }
}
