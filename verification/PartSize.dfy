/** Multipart part sizes (tsync/storage.go partSizeFor). */
module PartSize {
  import opened Base

  const INITIAL_PART_SIZE: int := 8388608       // 8 MiB
  const MAX_PART_SIZE: int := 5368709120        // 5 GiB
  const PART_SIZE_STEP: int := 1000
  const MAX_MULTIPART_PARTS: int := 10000
  const OBJECT_LIMIT: int := 5497558138880      // 5 TiB, the largest object of S3 and OCI

  function Pow2(k: nat): (r: nat)
    ensures r >= 1
  {
    if k == 0 then 1 else 2 * Pow2(k - 1)
  }

  /** Go's `/` truncates towards zero. */
  function Quotient(a: int, b: int): int
    requires b > 0
  {
    if a >= 0 then a / b else -(-a / b)
  }

  /** The closed form: doubling every 1000 parts, capped. */
  function SizeOf(n: int): int
  {
    Min(INITIAL_PART_SIZE * Pow2(Max(0, Quotient(n - 1, PART_SIZE_STEP))), MAX_PART_SIZE)
  }

  /** The loop computes the closed form, and no value on the way leaves int64. */
  method PartSizeFor(n: int) returns (r: int)
    ensures r == SizeOf(n)
    ensures INITIAL_PART_SIZE <= r <= MAX_PART_SIZE
  {
    var shift := Quotient(n - 1, PART_SIZE_STEP);
    if shift < 0 {
      shift := 0;
    }
    ghost var k := shift;
    var size: int64 := INITIAL_PART_SIZE;
    while shift > 0 && size < MAX_PART_SIZE
      invariant 0 <= shift <= k
      invariant size == INITIAL_PART_SIZE * Pow2(k - shift)
      invariant INITIAL_PART_SIZE <= size < 2 * MAX_PART_SIZE
    {
      size := size * 2;
      shift := shift - 1;
    }
    Pow2Grows(k - shift, k);
    if size > MAX_PART_SIZE {
      size := MAX_PART_SIZE;
    }
    return size;
  }

  lemma {:induction false} Pow2Grows(a: nat, b: nat)
    requires a <= b
    ensures Pow2(a) <= Pow2(b)
  {
    if a < b {
      Pow2Grows(a, b - 1);
    }
  }

  lemma SizesGrow(m: int, n: int)
    requires m <= n
    ensures INITIAL_PART_SIZE <= SizeOf(m) <= SizeOf(n) <= MAX_PART_SIZE
  {
    QuotientGrows(m - 1, n - 1);
    var j, k := Max(0, Quotient(m - 1, PART_SIZE_STEP)), Max(0, Quotient(n - 1, PART_SIZE_STEP));
    Pow2Grows(0, j);
    Pow2Grows(j, k);
  }

  lemma QuotientGrows(a: int, b: int)
    requires a <= b
    ensures Quotient(a, PART_SIZE_STEP) <= Quotient(b, PART_SIZE_STEP)
  {
  }

  /** What the first n full parts hold together. */
  function Capacity(n: nat): nat
  {
    if n == 0 then 0
    else
      SizesGrow(n, n);
      Capacity(n - 1) + SizeOf(n)
  }

  lemma {:induction false} CapacityOfRun(a: nat, i: nat, c: int)
    requires forall n | a < n <= a + i :: SizeOf(n) == c
    ensures Capacity(a + i) == Capacity(a) + i * c
  {
    if i > 0 {
      CapacityOfRun(a, i - 1, c);
      assert SizeOf(a + i) == c;
      assert i * c == (i - 1) * c + c;
    }
  }

  /** The size of the parts from 1000 j + 1 to 1000 j + 1000. */
  function BlockSize(j: nat): int { Min(INITIAL_PART_SIZE * Pow2(j), MAX_PART_SIZE) }

  lemma SizeInBlock(j: nat, a: nat, n: int)
    requires a == PART_SIZE_STEP * j && a < n <= a + PART_SIZE_STEP
    ensures SizeOf(n) == BlockSize(j)
  {
    assert (n - 1) / PART_SIZE_STEP == j;
  }

  lemma CapacityOfBlock(j: nat, a: nat, step: nat)
    requires a == PART_SIZE_STEP * j && step == PART_SIZE_STEP
    ensures Capacity(a + step) == Capacity(a) + step * BlockSize(j)
  {
    forall n | a < n <= a + step ensures SizeOf(n) == BlockSize(j) {
      SizeInBlock(j, a, n);
    }
    CapacityOfRun(a, step, BlockSize(j));
  }

  /** The full 10,000 parts hold about 7.8 TiB, so no object within the 5 TiB limit runs out of parts. */
  lemma CapacityCoversObjectLimit()
    ensures Capacity(MAX_MULTIPART_PARTS) == 1000 * 1023 * INITIAL_PART_SIZE > OBJECT_LIMIT
  {
    assert Pow2(9) == 512;
    var total := 0;
    for j := 0 to 10
      invariant total == Capacity(PART_SIZE_STEP * j) == 1000 * (Pow2(j) - 1) * INITIAL_PART_SIZE
    {
      CapacityOfBlock(j, PART_SIZE_STEP * j, PART_SIZE_STEP);
      Pow2Grows(j, 9);
      total := total + 1000 * INITIAL_PART_SIZE * Pow2(j);
    }
    assert Pow2(10) == 1024;
  }
}
