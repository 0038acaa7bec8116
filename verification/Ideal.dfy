/** The hash hypotheses can be met: an encoding that is its own hash is injective, and ranks by
    length (the role SHA-256 over deterministic marshalling plays in tsync/backup.go buildAndHash). */
module Ideal {
  import opened Metadata

  function Unary(n: nat): string
  {
    if n == 0 then "0" else "1" + Unary(n - 1)
  }

  function OfString(x: string): string { Unary(|x|) + x }

  function OfInt(i: int): string { if i < 0 then "-" + Unary(-i) else "+" + Unary(i) }

  function Tag(r: Ref): char
  {
    match r case File(_) => 'f' case NilFile => 'n' case Subtree(_) => 's' case Unset => 'u'
  }

  function Body(r: Ref): string
  {
    match r
    case File(leaf) => OfInt(leaf.crc32) + OfInt(leaf.size)
    case Subtree(h) => OfString(h)
    case _ => ""
  }

  function OfRef(r: Ref): string { [Tag(r)] + Body(r) }

  function OfEntries(es: seq<TreeEntry>): string
  {
    if es == [] then "." else "," + (OfString(es[0].name) + (OfRef(es[0].node) + OfEntries(es[1..])))
  }

  function IdealScheme(): Scheme
  {
    Scheme((n: TreeNode) => OfEntries(n.entries), (h: Hash) => |h|)
  }

  // ---- Each code can be read off the front of a string in one way ----

  lemma {:induction false} UnaryReads(a: nat, b: nat, r: string, t: string)
    requires Unary(a) + r == Unary(b) + t
    ensures a == b && r == t
  {
    assert (Unary(a) + r)[0] == (Unary(b) + t)[0];
    if a > 0 && b > 0 {
      assert (Unary(a) + r)[1..] == Unary(a - 1) + r;
      assert (Unary(b) + t)[1..] == Unary(b - 1) + t;
      UnaryReads(a - 1, b - 1, r, t);
    } else if a == 0 && b == 0 {
      assert (Unary(a) + r)[1..] == r && (Unary(b) + t)[1..] == t;
    }
  }

  lemma StringReads(a: string, b: string, r: string, t: string)
    requires OfString(a) + r == OfString(b) + t
    ensures a == b && r == t
  {
    assert OfString(a) + r == Unary(|a|) + (a + r);
    assert OfString(b) + t == Unary(|b|) + (b + t);
    UnaryReads(|a|, |b|, a + r, b + t);
    assert (a + r)[..|a|] == a && (b + t)[..|a|] == b;
    assert (a + r)[|a|..] == r && (b + t)[|a|..] == t;
  }

  lemma HeadReads(c: char, x: string, r: string, d: char, y: string, t: string)
    requires ([c] + x) + r == ([d] + y) + t
    ensures c == d && x + r == y + t
  {
    assert (([c] + x) + r)[0] == c && (([d] + y) + t)[0] == d;
    assert (([c] + x) + r)[1..] == x + r && (([d] + y) + t)[1..] == y + t;
  }

  lemma IntReads(a: int, b: int, r: string, t: string)
    requires OfInt(a) + r == OfInt(b) + t
    ensures a == b && r == t
  {
    var c, m := if a < 0 then '-' else '+', if a < 0 then -a else a;
    var d, n := if b < 0 then '-' else '+', if b < 0 then -b else b;
    assert OfInt(a) == [c] + Unary(m) && OfInt(b) == [d] + Unary(n);
    HeadReads(c, Unary(m), r, d, Unary(n), t);
    UnaryReads(m, n, r, t);
  }

  lemma RefReads(a: Ref, b: Ref, r: string, t: string)
    requires OfRef(a) + r == OfRef(b) + t
    ensures a == b && r == t
  {
    HeadReads(Tag(a), Body(a), r, Tag(b), Body(b), t);
    match a
    case Subtree(h) => StringReads(h, b.hash, r, t);
    case File(leaf) => LeafReads(leaf, b.leaf, r, t);
    case NilFile => assert "" + r == r && "" + t == t;
    case Unset => assert "" + r == r && "" + t == t;
  }

  lemma Associative(x: string, y: string, z: string)
    ensures (x + y) + z == x + (y + z)
  {
  }

  lemma LeafReads(a: FileLeaf, b: FileLeaf, r: string, t: string)
    requires (OfInt(a.crc32) + OfInt(a.size)) + r == (OfInt(b.crc32) + OfInt(b.size)) + t
    ensures a == b && r == t
  {
    var ra, rb := OfInt(a.size) + r, OfInt(b.size) + t;
    Associative(OfInt(a.crc32), OfInt(a.size), r);
    Associative(OfInt(b.crc32), OfInt(b.size), t);
    IntReads(a.crc32, b.crc32, ra, rb);
    IntReads(a.size, b.size, r, t);
  }

  lemma {:induction false} EntriesInjective(a: seq<TreeEntry>, b: seq<TreeEntry>)
    requires OfEntries(a) == OfEntries(b)
    ensures a == b
  {
    assert OfEntries(a)[0] == OfEntries(b)[0];
    if a != [] {
      var ra, rb := OfRef(a[0].node) + OfEntries(a[1..]), OfRef(b[0].node) + OfEntries(b[1..]);
      assert OfEntries(a)[1..] == OfString(a[0].name) + ra && OfEntries(b)[1..] == OfString(b[0].name) + rb;
      StringReads(a[0].name, b[0].name, ra, rb);
      RefReads(a[0].node, b[0].node, OfEntries(a[1..]), OfEntries(b[1..]));
      EntriesInjective(a[1..], b[1..]);
      assert a == [a[0]] + a[1..] && b == [b[0]] + b[1..];
    }
  }

  lemma {:induction false} EntriesLong(es: seq<TreeEntry>, i: nat)
    requires i < |es| && es[i].node.Subtree?
    ensures |es[i].node.hash| < |OfEntries(es)|
  {
    if i > 0 {
      EntriesLong(es[1..], i - 1);
    }
  }

  /** So the hypotheses of the main theorems are consistent. */
  lemma HypothesesHold()
    ensures CollisionFree(IdealScheme()) && WellFounded(IdealScheme())
  {
    var s := IdealScheme();
    forall m: TreeNode, n: TreeNode | s.hash(m) == s.hash(n) ensures m == n {
      EntriesInjective(m.entries, n.entries);
    }
    forall n: TreeNode ensures s.hash(n) != "" {
      assert |OfEntries(n.entries)| > 0;
    }
    forall n: TreeNode, i: nat | i < |n.entries| && n.entries[i].node.Subtree?
      ensures s.rank(n.entries[i].node.hash) < s.rank(s.hash(n))
    {
      EntriesLong(n.entries, i);
    }
  }
}
