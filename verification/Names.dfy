/** Entry names, their byte order, and slash-separated paths (tsync/backup.go, tsync/restore.go).
    A Go string is a byte sequence; every char of a model string stands for one byte. */
module Names {
  type Path = seq<string>

  /** Go's `<` on strings: lexicographic order of the bytes. */
  predicate Less(a: string, b: string)
  {
    b != [] && (a == [] || a[0] < b[0] || (a[0] == b[0] && Less(a[1..], b[1..])))
  }

  lemma {:induction false} LessTransitive(a: string, b: string, c: string)
    requires Less(a, b) && Less(b, c)
    ensures Less(a, c)
  {
    if a != [] && a[0] == b[0] && b[0] == c[0] {
      LessTransitive(a[1..], b[1..], c[1..]);
    }
  }

  lemma {:induction false} LessTotal(a: string, b: string)
    ensures a == b || Less(a, b) || Less(b, a)
    ensures !(Less(a, b) && Less(b, a))
    ensures Less(a, b) ==> a != b
  {
    if a != [] && b != [] {
      LessTotal(a[1..], b[1..]);
      assert a == [a[0]] + a[1..] && b == [b[0]] + b[1..];
    }
  }

  /** validateName: the single path components a store accepts. */
  predicate ValidName(name: string)
  {
    && 0 < |name| <= 255
    && (forall i | 0 <= i < |name| :: name[i] != '/' && name[i] != '\0')
    && name != "." && name != ".."
  }

  predicate ValidPath(p: Path)
  {
    forall i | 0 <= i < |p| :: ValidName(p[i])
  }

  /** strings.Split(s, "/"). */
  function Split(s: string): (r: Path)
    ensures |r| >= 1
  {
    if s == [] then [""]
    else
      var r := Split(s[1..]);
      if s[0] == '/' then [""] + r else [[s[0]] + r[0]] + r[1..]
  }

  function Join(p: Path): string
  {
    if p == [] then "" else if |p| == 1 then p[0] else p[0] + "/" + Join(p[1..])
  }

  /** fullPath of walkTree: the prefix is empty only at the root. */
  function Extend(prefix: string, name: string): string
  {
    if prefix != "" then prefix + "/" + name else name
  }

  lemma {:induction false} JoinSplit(s: string)
    ensures Join(Split(s)) == s
  {
    if s != [] {
      JoinSplit(s[1..]);
      var r := Split(s[1..]);
      if s[0] == '/' {
        assert ([""] + r)[1..] == r;
        assert Join([""] + r) == "" + "/" + Join(r);
        assert "" + "/" + s[1..] == s;
      } else {
        var t := [[s[0]] + r[0]] + r[1..];
        assert t[1..] == r[1..];
        assert Join(t) == [s[0]] + Join(r);
        assert [s[0]] + s[1..] == s;
      }
    }
  }

  lemma {:induction false} SplitHead(name: string, rest: string)
    requires forall i | 0 <= i < |name| :: name[i] != '/'
    ensures Split(name) == [name]
    ensures Split(name + "/" + rest) == [name] + Split(rest)
  {
    var s := name + "/" + rest;
    if name == "" {
      assert s[0] == '/' && s[1..] == rest;
    } else {
      SplitHead(name[1..], rest);
      assert s[1..] == name[1..] + "/" + rest;
      assert s[0] == name[0];
      assert [name[0]] + name[1..] == name;
    }
  }

  lemma {:induction false} SplitJoin(p: Path)
    requires ValidPath(p) && p != []
    ensures Split(Join(p)) == p
  {
    SplitHead(p[0], Join(p[1..]));
    if |p| > 1 {
      SplitJoin(p[1..]);
      assert p == [p[0]] + p[1..];
    }
  }

  /** Distinct lists of valid components never render to the same string. */
  lemma {:induction false} JoinInjective(p: Path, q: Path)
    requires ValidPath(p) && ValidPath(q) && Join(p) == Join(q)
    ensures p == q
  {
    JoinNonEmpty(p);
    JoinNonEmpty(q);
    if p != [] && q != [] {
      SplitJoin(p);
      SplitJoin(q);
    }
  }

  lemma JoinNonEmpty(p: Path)
    requires ValidPath(p)
    ensures Join(p) == "" <==> p == []
  {
    if p != [] {
      assert |p[0]| > 0;
    }
  }

  lemma {:induction false} JoinExtend(p: Path, name: string)
    requires ValidPath(p)
    ensures Join(p + [name]) == Extend(Join(p), name)
  {
    JoinNonEmpty(p);
    if p == [] {
      assert p + [name] == [name];
    } else {
      JoinExtend(p[1..], name);
      JoinNonEmpty(p[1..]);
      assert (p + [name])[1..] == p[1..] + [name];
      if |p| == 1 {
        assert p[1..] == [];
      } else {
        assert p[0] + "/" + (Join(p[1..]) + "/" + name) == (p[0] + "/" + Join(p[1..])) + "/" + name;
      }
    }
  }

  /** p is an ancestor of q, or q itself. */
  predicate Covers(p: Path, q: Path)
  {
    |p| <= |q| && q[..|p|] == p
  }

  predicate Above(p: Path, q: Path)
  {
    |p| < |q| && q[..|p|] == p
  }

  /** Something lies below dir at p, as path strings: p continues after dir and a slash. */
  predicate Under(dir: string, p: string)
  {
    |p| > |dir| + 1 && p[..|dir| + 1] == dir + "/"
  }

  lemma {:induction false} SplitConcat(a: string, b: string)
    ensures Split(a + "/" + b) == Split(a) + Split(b)
  {
    var s := a + "/" + b;
    if a == "" {
      assert s[0] == '/' && s[1..] == b;
    } else {
      SplitConcat(a[1..], b);
      assert s[0] == a[0] && s[1..] == a[1..] + "/" + b;
      var x, y := Split(a[1..]), Split(b);
      if a[0] == '/' {
        assert [""] + (x + y) == ([""] + x) + y;
      } else {
        HeadExtends([a[0]], x, y);
      }
    }
  }

  lemma HeadExtends(c: string, x: Path, y: Path)
    requires x != []
    ensures [c + (x + y)[0]] + (x + y)[1..] == ([c + x[0]] + x[1..]) + y
  {
    assert (x + y)[0] == x[0] && (x + y)[1..] == x[1..] + y;
  }

  lemma {:induction false} JoinAppend(p: Path, r: Path)
    requires p != [] && r != []
    ensures Join(p + r) == Join(p) + "/" + Join(r)
  {
    assert (p + r)[0] == p[0] && (p + r)[1..] == p[1..] + r;
    if |p| == 1 {
      assert p[1..] + r == r;
    } else {
      JoinAppend(p[1..], r);
      assert p[0] + "/" + (Join(p[1..]) + "/" + Join(r)) == (p[0] + "/" + Join(p[1..])) + "/" + Join(r);
    }
  }

  /** Ancestry of component lists and of path strings is the same. */
  lemma AboveUnder(p: Path, q: Path)
    requires ValidPath(p) && ValidPath(q) && p != [] && q != []
    ensures Above(p, q) <==> Under(Join(p), Join(q))
  {
    var a, b := Join(p), Join(q);
    if Above(p, q) {
      var r := q[|p|..];
      assert q == p + r;
      JoinAppend(p, r);
      JoinNonEmpty(r);
      assert b[..|a| + 1] == a + "/";
    }
    if Under(a, b) {
      var rest := b[|a| + 1..];
      assert b == a + "/" + rest;
      SplitConcat(a, rest);
      SplitJoin(p);
      SplitJoin(q);
      assert q[..|p|] == p;
    }
  }

  /** Go's `<` on strings, said without recursion: b continues a, or is larger at the first difference. */
  lemma {:induction false} LessIff(a: string, b: string)
    ensures Less(a, b) <==>
              exists i :: 0 <= i <= |a| && i < |b| && a[..i] == b[..i] && (i == |a| || a[i] < b[i])
  {
    if Less(a, b) {
      if a == [] || a[0] < b[0] {
        assert a[..0] == b[..0];
      } else {
        LessIff(a[1..], b[1..]);
        var i :| 0 <= i <= |a| - 1 && i < |b| - 1 && a[1..][..i] == b[1..][..i]
                 && (i == |a| - 1 || a[1..][i] < b[1..][i]);
        assert a[..i + 1] == [a[0]] + a[1..][..i] && b[..i + 1] == [b[0]] + b[1..][..i];
      }
    }
    if i :| 0 <= i <= |a| && i < |b| && a[..i] == b[..i] && (i == |a| || a[i] < b[i]) {
      if i > 0 {
        assert a[0] == a[..i][0] && b[0] == b[..i][0];
        LessIff(a[1..], b[1..]);
        assert a[1..][..i - 1] == a[..i][1..] && b[1..][..i - 1] == b[..i][1..];
      }
    }
  }

  // ---- Components, said of the string alone ----

  /** A stretch of s without slashes that a slash or an end of s bounds on both sides. */
  ghost predicate Component(s: string, c: string)
  {
    exists i, j :: IsComponent(s, i, j) && c == s[i..j]
  }

  predicate IsComponent(s: string, i: int, j: int)
  {
    && 0 <= i <= j <= |s| && (i == 0 || s[i - 1] == '/') && (j == |s| || s[j] == '/')
    && forall k | i <= k < j :: s[k] != '/'
  }

  /** Split, at any slash-free head. */
  lemma SplitAt(s: string, m: nat)
    requires m <= |s| && (m == |s| || s[m] == '/') && forall k | 0 <= k < m :: s[k] != '/'
    ensures Split(s) == if m == |s| then [s] else [s[..m]] + Split(s[m + 1..])
  {
    if m == |s| {
      SplitHead(s, "");
    } else {
      assert s == s[..m] + "/" + s[m + 1..];
      SplitHead(s[..m], s[m + 1..]);
    }
  }

  lemma ComponentInSplit(s: string, i: int, j: int)
    requires IsComponent(s, i, j)
    ensures s[i..j] in Split(s)
  {
    var rest := s[i..];
    assert s[i..j] == rest[..j - i];
    SplitAt(rest, j - i);
    assert Split(rest)[0] == s[i..j];
    if i > 0 {
      assert s == s[..i - 1] + "/" + rest;
      SplitConcat(s[..i - 1], rest);
    }
  }

  lemma {:induction false} SplitIsComponent(s: string, k: nat) returns (i: int, j: int)
    requires k < |Split(s)|
    ensures IsComponent(s, i, j) && Split(s)[k] == s[i..j]
  {
    var m := FirstSlash(s);
    SplitAt(s, m);
    i, j := 0, m;
    if k > 0 {
      i, j := SplitIsComponent(s[m + 1..], k - 1);
      Shifted(s, m + 1, i, j);
      i, j := i + m + 1, j + m + 1;
    } else {
      assert s[..m] == s[0..m];
    }
  }

  lemma Shifted(s: string, d: nat, i: int, j: int)
    requires 0 < d <= |s| && s[d - 1] == '/' && IsComponent(s[d..], i, j)
    ensures IsComponent(s, i + d, j + d) && s[d..][i..j] == s[i + d..j + d]
  {
    forall k | i + d <= k < j + d ensures s[k] != '/' {
      assert s[d..][k - d] != '/';
    }
  }

  function FirstSlash(s: string): (m: nat)
    ensures m <= |s| && (m < |s| ==> s[m] == '/') && forall k | 0 <= k < m :: s[k] != '/'
  {
    if s == "" || s[0] == '/' then 0 else 1 + FirstSlash(s[1..])
  }

  /** validateName, by length and bytes. */
  predicate Acceptable(c: string)
  {
    1 <= |c| <= 255 && '\0' !in c && c != "." && c != ".."
  }

  lemma ComponentIsName(s: string, c: string)
    requires ValidPath(Split(s)) && Component(s, c)
    ensures Acceptable(c)
  {
    var i, j :| IsComponent(s, i, j) && c == s[i..j];
    ComponentInSplit(s, i, j);
    assert ValidName(c);
  }

  /** A path is valid exactly when each stretch between slashes is a name of 1 to 255 bytes without NUL that
      is neither "." nor "..". */
  lemma ValidPathIff(s: string)
    ensures ValidPath(Split(s)) <==> forall c | Component(s, c) :: Acceptable(c)
  {
    if ValidPath(Split(s)) {
      forall c | Component(s, c) ensures Acceptable(c) {
        ComponentIsName(s, c);
      }
    } else {
      var k :| 0 <= k < |Split(s)| && !ValidName(Split(s)[k]);
      var i, j := SplitIsComponent(s, k);
      NameOf(s, i, j);
      assert Component(s, s[i..j]);
    }
  }

  lemma NameOf(s: string, i: int, j: int)
    requires IsComponent(s, i, j)
    ensures ValidName(s[i..j]) <==> Acceptable(s[i..j])
  {
    assert forall l | 0 <= l < j - i :: s[i..j][l] == s[i + l];
  }
}
