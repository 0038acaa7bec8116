/** Sums over the workers of a pool, and the pigeonhole argument behind "every task has a result". */
module Counting {
  predicate Distinct<T(==)>(xs: seq<T>)
  {
    forall i, j | 0 <= i < j < |xs| :: xs[i] != xs[j]
  }

  function Sum<T>(ws: seq<T>, f: T -> nat): nat
  {
    if ws == [] then 0 else f(ws[0]) + Sum(ws[1..], f)
  }

  lemma {:induction false} SumMove<T>(ws: seq<T>, f: T -> nat, w: nat, x: T)
    requires w < |ws|
    ensures Sum(ws[w := x], f) + f(ws[w]) == Sum(ws, f) + f(x)
  {
    if w == 0 {
      assert ws[0 := x][1..] == ws[1..];
    } else {
      SumMove(ws[1..], f, w - 1, x);
      assert ws[w := x][1..] == ws[1..][w - 1 := x];
    }
  }

  lemma {:induction false} SumConstant<T>(ws: seq<T>, f: T -> nat, c: nat)
    requires forall w | 0 <= w < |ws| :: f(ws[w]) == c
    ensures Sum(ws, f) == c * |ws|
  {
    if ws != [] {
      SumConstant(ws[1..], f, c);
    }
  }

  function Below(n: nat): set<nat>
  {
    if n == 0 then {} else Below(n - 1) + {n - 1}
  }

  lemma {:induction false} BelowCount(n: nat)
    ensures |Below(n)| == n && forall u: nat :: u in Below(n) <==> u < n
  {
    if n > 0 {
      BelowCount(n - 1);
    }
  }

  lemma {:induction false} SubsetCardinality(a: set<nat>, b: set<nat>)
    requires a <= b
    ensures |a| <= |b|
  {
    if a != {} {
      var x :| x in a;
      SubsetCardinality(a - {x}, b - {x});
    }
  }

  lemma {:induction false} DistinctCount(ids: seq<nat>)
    requires forall i, j | 0 <= i < j < |ids| :: ids[i] != ids[j]
    ensures |set i | 0 <= i < |ids| :: ids[i]| == |ids|
  {
    if ids != [] {
      var front, last := ids[..|ids| - 1], ids[|ids| - 1];
      DistinctCount(front);
      assert (set i | 0 <= i < |ids| :: ids[i]) == (set i | 0 <= i < |front| :: front[i]) + {last};
    }
  }

  /** n distinct numbers below n are all of them. */
  lemma AllBelow(ids: seq<nat>, n: nat, t: nat) returns (i: nat)
    requires forall i, j | 0 <= i < j < |ids| :: ids[i] != ids[j]
    requires |ids| == n && (forall i | 0 <= i < |ids| :: ids[i] < n) && t < n
    ensures i < |ids| && ids[i] == t
  {
    var s := set i | 0 <= i < |ids| :: ids[i];
    DistinctCount(ids);
    BelowCount(n);
    if t !in s {
      assert s <= Below(n) - {t};
      SubsetCardinality(s, Below(n) - {t});
    }
    i :| 0 <= i < |ids| && ids[i] == t;
  }

  /** A permutation has every element somewhere. */
  lemma SameMembers<T>(a: seq<T>, b: seq<T>, i: nat) returns (j: nat)
    requires multiset(a) == multiset(b) && i < |a|
    ensures j < |b| && b[j] == a[i]
  {
    assert a[i] in multiset(a);
    assert a[i] in b;
    j :| 0 <= j < |b| && b[j] == a[i];
  }
}
