/** The verifying stream of one archive entry (tsync/source.go zipEntryStream): it fails at the end, and
    for good, unless exactly the declared bytes went through it. */
module EntryStream {
  import opened Base

  const TWO_64: int := 0x1_0000_0000_0000_0000

  datatype Error = EOF | BeyondSize | TooShort | ChecksumMismatch | Underlying

  /** The decoded entry body: a Read delivers a prefix of what is left, with or without an error. */
  class Body {
    var rest: seq<byte>
    ghost var failures: nat    // reads that failed

    constructor (content: seq<byte>)
      ensures rest == content
    {
      rest, failures := content, 0;
    }

    method Read(room: nat) returns (chunk: seq<byte>, e: Option<Error>)
      modifies this
      ensures |chunk| <= room && old(rest) == chunk + rest
      ensures e == None || e == Some(EOF) || e == Some(Underlying)
      ensures e == Some(EOF) ==> rest == []
      ensures failures == old(failures) + if e == Some(Underlying) then 1 else 0
    {
      var k: int := *;
      var take := if 0 <= k <= |rest| && k <= room then k else 0;
      chunk := rest[..take];
      rest := rest[take..];
      var fails: bool, ends: bool := *, *;
      failures := failures + if fails then 1 else 0;
      e := if fails then Some(Underlying) else if ends && rest == [] then Some(EOF) else None;
    }
  }

  /** The content the central directory declares. */
  predicate Declared(crc: seq<byte> -> uint32, size: nat, crc32: uint32, content: seq<byte>)
  {
    |content| == size && crc(content) == crc32
  }

  /** An uint64 sum. */
  function Advance(n: nat, k: nat): nat { (n + k) % TWO_64 }

  /** What the stream can tell of it: the count is an uint64. */
  predicate Accepts(crc: seq<byte> -> uint32, size: nat, crc32: uint32, content: seq<byte>)
  {
    |content| % TWO_64 == size && crc(content) == crc32
  }

  class Stream {
    const body: Body
    const crc: seq<byte> -> uint32
    const size: nat              // UncompressedSize64
    const crc32: uint32
    var n: nat                   // uint64 count of the bytes so far
    var err: Option<Error>
    var passed: seq<byte>        // the state of the hash: everything written to it

    ghost predicate Valid()
      reads this
    {
      && size < TWO_64 && n == |passed| % TWO_64
      && (err.None? ==> n <= size)
      && (err == Some(EOF) ==> Accepts(crc, size, crc32, passed))
    }

    constructor (body: Body, crc: seq<byte> -> uint32, size: nat, crc32: uint32)
      requires size < TWO_64
      ensures Valid() && err.None? && passed == [] && this.body == body
      ensures this.crc == crc && this.size == size && this.crc32 == crc32
    {
      this.body, this.crc, this.size, this.crc32 := body, crc, size, crc32;
      n, err, passed := 0, None, [];
    }

    /** Bytes are handed on as they come. An error is sticky, and the end is only reported when the 64-bit
        count and the checksum match. The bound on room is Go's on the length of a slice. */
    method Read(room: nat) returns (chunk: seq<byte>, e: Option<Error>)
      requires Valid() && room < TWO_64 / 2
      modifies this`n, this`err, this`passed, body
      ensures Valid() && err == e && |chunk| <= room
      ensures old(err).Some? ==> e == old(err) && chunk == [] && body.rest == old(body.rest) && passed == old(passed)
      ensures old(err).None? ==> passed == old(passed) + chunk && old(body.rest) == chunk + body.rest
      ensures old(err).None? ==> Reports(e, body.rest == [])
      ensures old(body.failures) <= body.failures
      ensures old(err).None? && e == Some(Underlying) ==> old(body.failures) < body.failures
    {
      if err.Some? {
        return [], err;
      }
      chunk, e := body.Read(room);
      ghost var before := |passed|;
      passed := passed + chunk;
      CountStep(before, n, |chunk|);
      n := Advance(n, |chunk|);
      if n > size {
        err := Some(BeyondSize);
        return chunk, err;
      }
      if e == Some(EOF) {
        if n != size {
          e := Some(TooShort);
        } else if crc(passed) != crc32 {
          e := Some(ChecksumMismatch);
        }
      }
      if e.Some? {
        err := e;
      }
    }

    /** What an outcome says about the bytes that went through, and whether the body has ended. */
    ghost predicate Reports(e: Option<Error>, ended: bool)
      reads this
    {
      match e
      case None => n <= size
      case Some(BeyondSize) => n > size
      case Some(Underlying) => n <= size
      case Some(EOF) => ended && n == size && crc(passed) == crc32
      case Some(TooShort) => ended && n < size
      case Some(ChecksumMismatch) => ended && n == size && crc(passed) != crc32
    }
  }

  /** A caller that copies the stream to its end gets a content the stream accepts, or an error: never a
      clean end after anything else, and a size or checksum error only for an entry that is not the
      declared content. Reads may be empty, so only `rounds` of them are made. */
  method CopyAll(z: Stream, room: nat, rounds: nat) returns (content: seq<byte>, e: Option<Error>)
    requires z.Valid() && z.err.None? && z.passed == [] && room < TWO_64 / 2
    modifies z`n, z`err, z`passed, z.body
    ensures old(z.body.rest) == content + z.body.rest
    ensures e == Some(EOF) ==> content == old(z.body.rest) && Accepts(z.crc, z.size, z.crc32, content)
    ensures e == Some(EOF) && z.size + room < TWO_64 ==> Declared(z.crc, z.size, z.crc32, content)
    ensures e == Some(BeyondSize) || e == Some(TooShort) || e == Some(ChecksumMismatch) ==>
              !Declared(z.crc, z.size, z.crc32, old(z.body.rest))
    ensures e == Some(Underlying) ==> old(z.body.failures) < z.body.failures
  {
    content, e := [], None;
    var i := 0;
    while i < rounds && e.None?
      invariant z.Valid() && z.err == e && z.passed == content
      invariant old(z.body.rest) == content + z.body.rest
      invariant i > 0 ==> z.Reports(e, z.body.rest == [])
      invariant z.size + room < TWO_64 && (e.None? || e == Some(EOF)) ==> |content| == z.n <= z.size
      invariant e.Some? ==> i > 0
      invariant if e == Some(Underlying) then old(z.body.failures) < z.body.failures
                else old(z.body.failures) <= z.body.failures
      decreases rounds - i, e.None?
    {
      var chunk;
      ghost var before := z.n;
      chunk, e := z.Read(room);
      CountStep(|content|, before, |chunk|);
      content := content + chunk;
      i := i + 1;
    }
    if e.Some? && z.body.rest == [] {
      assert content + z.body.rest == content;
    }
  }

  lemma CountStep(total: nat, n: nat, k: nat)
    requires n == total % TWO_64 && k < TWO_64
    ensures (total + k) % TWO_64 == Advance(n, k)
    ensures Advance(n, k) == if n + k < TWO_64 then n + k else n + k - TWO_64
  {
  }

  /** The count after a read of k bytes; None is the error for too many. */
  function Counted(size: nat, n: nat, k: nat): Option<nat>
  {
    var m := Advance(n, k);
    if m > size then None else Some(m)
  }

  /** For a declared size so large that one more slice can take the count past 2^64, a longer content
      passes: here 2^64 bytes too many, read in slices below 2^63. */
  lemma WrappedCountExample()
    ensures var size, big := TWO_64 - 1, TWO_64 / 2 - 1;
            && Counted(size, 0, big) == Some(big) && Counted(size, big, big) == Some(2 * big)
            && Counted(size, 2 * big, big) == Some(big - 2) && Counted(size, big - 2, big) == Some(2 * big - 2)
            && Counted(size, 2 * big - 2, 3) == Some(size)
            && big + big + big + big + 3 == size + TWO_64
  {
  }

  /** The count can pass 2^64 unnoticed exactly when declared size and slice length reach it together. */
  lemma WrapPossibleIff(size: nat, room: nat)
    requires size < TWO_64 && room < TWO_64 / 2
    ensures size + room >= TWO_64 <==>
              exists n: nat, k: nat :: n <= size && k <= room && n + k >= TWO_64 && Counted(size, n, k).Some?
  {
    if size + room >= TWO_64 {
      assert Counted(size, size, TWO_64 - size) == Some(0);
    }
  }
}
