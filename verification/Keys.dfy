/** Content keys and part object names (tsync/backup.go, tsync/client.go). */
module Keys {
  import opened Base

  type Key = string

  predicate IsHexDigit(c: char) { '0' <= c <= '9' || 'a' <= c <= 'f' }

  predicate IsDigit(c: char) { '0' <= c <= '9' }

  predicate AllHex(s: string) { forall i | 0 <= i < |s| :: IsHexDigit(s[i]) }

  predicate AllDigits(s: string) { forall i | 0 <= i < |s| :: IsDigit(s[i]) }

  function HexDigit(d: nat): (c: char)
    requires d < 16
    ensures IsHexDigit(c) && HexValue(c) == d
  {
    if d < 10 then '0' + d as char else 'a' + (d - 10) as char
  }

  function HexValue(c: char): (d: nat)
    requires IsHexDigit(c)
  {
    if c <= '9' then (c - '0') as nat else (c - 'a') as nat + 10
  }

  /** The low `width` hex digits of n: "%08x" for width 8 and a 32-bit n. */
  function Hex(n: nat, width: nat): (s: string)
    ensures |s| == width && AllHex(s)
  {
    if width == 0 then "" else Hex(n / 16, width - 1) + [HexDigit(n % 16)]
  }

  function Unhex(s: string): nat
    requires AllHex(s)
  {
    if s == "" then 0 else 16 * Unhex(s[..|s| - 1]) + HexValue(s[|s| - 1])
  }

  function Pow16(w: nat): nat { if w == 0 then 1 else 16 * Pow16(w - 1) }

  lemma {:induction false} UnhexHex(n: nat, width: nat)
    requires n < Pow16(width)
    ensures Unhex(Hex(n, width)) == n
  {
    if width > 0 {
      UnhexHex(n / 16, width - 1);
      var s := Hex(n, width);
      assert s[..|s| - 1] == Hex(n / 16, width - 1);
    }
  }

  /** "%d" of a non-negative integer. */
  function Decimal(n: nat): (s: string)
    ensures |s| >= 1 && AllDigits(s)
  {
    if n < 10 then [HexDigit(n)] else Decimal(n / 10) + [HexDigit(n % 10)]
  }

  function Undecimal(s: string): nat
    requires AllDigits(s)
  {
    if s == "" then 0 else 10 * Undecimal(s[..|s| - 1]) + HexValue(s[|s| - 1])
  }

  lemma {:induction false} UndecimalDecimal(n: nat)
    ensures Undecimal(Decimal(n)) == n
  {
    var s := Decimal(n);
    if n >= 10 {
      UndecimalDecimal(n / 10);
      assert s[..|s| - 1] == Decimal(n / 10);
    } else {
      assert s[..|s| - 1] == "";
    }
  }

  /** "%d" of a signed integer. */
  function Signed(n: int): string
  {
    if n < 0 then "-" + Decimal(-n) else Decimal(n)
  }

  /** fileKeyFor: "%08x_%d". */
  function FileKeyFor(crc: uint32, size: int64): (k: Key)
    ensures |k| >= 10
  {
    Hex(crc, 8) + "_" + Signed(size)
  }

  predicate IsValidFileKey(k: string)
  {
    && |k| >= 10 && k[8] == '_'
    && (forall i | 0 <= i < 8 :: IsHexDigit(k[i]))
    && (forall i | 9 <= i < |k| :: IsDigit(k[i]))
  }

  /** fileKeyRegex, ^[0-9a-f]{8}_[0-9]+$, as a language. */
  ghost predicate MatchesFileKeyRegex(k: string)
  {
    exists h: string, d: string :: |h| == 8 && AllHex(h) && |d| >= 1 && AllDigits(d) && k == h + "_" + d
  }

  /** partKeyRegex, ^[0-9a-f]{2}/[0-9a-f]{8}_[0-9]+$. */
  predicate MatchesPartKeyRegex(name: string)
  {
    && |name| >= 3 && IsHexDigit(name[0]) && IsHexDigit(name[1]) && name[2] == '/'
    && IsValidFileKey(name[3..])
  }

  function PartKeyFor(k: Key): string
    requires |k| >= 2
  {
    k[0..2] + "/" + k
  }

  /** path.Base of a name that does not end in a slash. */
  function BaseName(name: string): string
  {
    if name == "" then ""
    else
      var r := BaseName(name[1..]);
      if name[0] == '/' then r else if NoSlash(name[1..]) then name else r
  }

  predicate NoSlash(s: string) { forall i | 0 <= i < |s| :: s[i] != '/' }

  /** The key determines the checksum and the size, for every int64 size. */
  lemma FileKeyInjective(c1: uint32, s1: int64, c2: uint32, s2: int64)
    requires FileKeyFor(c1, s1) == FileKeyFor(c2, s2)
    ensures c1 == c2 && s1 == s2
  {
    var k1, k2 := FileKeyFor(c1, s1), FileKeyFor(c2, s2);
    assert Hex(c1, 8) == k1[..8] == k2[..8] == Hex(c2, 8);
    assert Signed(s1) == k1[9..] == k2[9..] == Signed(s2);
    assert Pow16(8) == 0x1_0000_0000;
    UnhexHex(c1, 8);
    UnhexHex(c2, 8);
    SignedInjective(s1, s2);
  }

  lemma SignedInjective(a: int, b: int)
    requires Signed(a) == Signed(b)
    ensures a == b
  {
    var m, n := if a < 0 then -a else a, if b < 0 then -b else b;
    UndecimalDecimal(m);
    UndecimalDecimal(n);
    assert IsDigit(Decimal(m)[0]) && IsDigit(Decimal(n)[0]);
    if a < 0 && b < 0 {
      assert Decimal(m) == Signed(a)[1..] == Signed(b)[1..] == Decimal(n);
    }
  }

  /** A computed key is well formed exactly when the size is not negative. */
  lemma FileKeyValidIff(crc: uint32, size: int64)
    ensures IsValidFileKey(FileKeyFor(crc, size)) <==> size >= 0
  {
    var k := FileKeyFor(crc, size);
    assert k[..8] == Hex(crc, 8) && k[8] == '_' && k[9..] == Signed(size);
    if size >= 0 {
      forall i | 9 <= i < |k| ensures IsDigit(k[i]) {
        assert k[i] == Decimal(size)[i - 9];
      }
      forall i | 0 <= i < 8 ensures IsHexDigit(k[i]) {
        assert k[i] == Hex(crc, 8)[i];
      }
    } else {
      assert k[9] == Signed(size)[0] == '-';
    }
  }

  /** The hand-written check and the regular expression accept the same strings. */
  lemma ValidIffRegex(k: string)
    ensures IsValidFileKey(k) <==> MatchesFileKeyRegex(k)
  {
    if IsValidFileKey(k) {
      var h, d := k[..8], k[9..];
      assert k == h + "_" + d;
      assert AllHex(h) && AllDigits(d);
    }
    if MatchesFileKeyRegex(k) {
      var h: string, d: string :| |h| == 8 && AllHex(h) && |d| >= 1 && AllDigits(d) && k == h + "_" + d;
      forall i | 9 <= i < |k| ensures IsDigit(k[i]) {
        assert k[i] == d[i - 9];
      }
    }
  }

  /** A key spells out the checksum in eight hex digits and the size in decimal. */
  lemma FileKeyDecodes(crc: uint32, size: int64) returns (h: string, d: string)
    ensures FileKeyFor(crc, size) == h + "_" + (if size < 0 then "-" + d else d)
    ensures |h| == 8 && AllHex(h) && Unhex(h) == crc
    ensures AllDigits(d) && (size < 0 ==> size + Undecimal(d) == 0) && (size >= 0 ==> size == Undecimal(d))
  {
    var n: int := size;
    h, d := Hex(crc, 8), Decimal(if n < 0 then -n else n);
    assert Pow16(8) == 0x1_0000_0000;
    UnhexHex(crc, 8);
    UndecimalDecimal(if n < 0 then -n else n);
  }

  /** The documented example of a part's name. */
  lemma PartKeyExample()
    ensures PartKeyFor("1a2b3c4d_12345") == "1a/1a2b3c4d_12345"
  {
  }

  ghost predicate IsPartName(name: string, dir: string, k: Key)
  {
    |dir| == 2 && AllHex(dir) && MatchesFileKeyRegex(k) && name == dir + "/" + k
  }

  /** The names GC looks at, as a language; the base of such a name is the key in it. */
  lemma PartKeyRegexIff(name: string)
    ensures MatchesPartKeyRegex(name) <==> exists dir, k :: IsPartName(name, dir, k)
    ensures forall dir, k | IsPartName(name, dir, k) :: BaseName(name) == k
  {
    if MatchesPartKeyRegex(name) {
      ValidIffRegex(name[3..]);
      assert name == name[..2] + "/" + name[3..];
      assert IsPartName(name, name[..2], name[3..]);
    }
    forall dir, k | IsPartName(name, dir, k) ensures MatchesPartKeyRegex(name) && BaseName(name) == k {
      ValidIffRegex(k);
      assert name[3..] == k;
      PartKeyBase(name);
    }
  }

  lemma PartKeyInjective(k1: Key, k2: Key)
    requires |k1| >= 2 && |k2| >= 2 && PartKeyFor(k1) == PartKeyFor(k2)
    ensures k1 == k2
  {
    assert PartKeyFor(k1)[3..] == k1 && PartKeyFor(k2)[3..] == k2;
  }

  /** A part object of a valid key has the name GC looks for, and its base name is the key. */
  lemma PartKeyShape(k: Key)
    requires IsValidFileKey(k)
    ensures MatchesPartKeyRegex(PartKeyFor(k)) && BaseName(PartKeyFor(k)) == k
  {
    var p := PartKeyFor(k);
    assert p[3..] == k;
    PartKeyBase(p);
  }

  lemma PartKeyBase(name: string)
    requires MatchesPartKeyRegex(name)
    ensures BaseName(name) == name[3..]
  {
    var k := name[3..];
    assert NoSlash(k) by {
      forall i | 0 <= i < |k| ensures k[i] != '/' {
        assert i < 8 || i == 8 || i >= 9;
      }
    }
    BaseOfSlashFree(k);
    assert name[1..][1..] == name[2..] && name[2..][1..] == k;
    assert name[1..][1] == '/' && name[2..][0] == '/';
    assert BaseName(name[2..]) == BaseName(k);
    assert !NoSlash(name[2..]) && !NoSlash(name[1..]);
  }

  lemma {:induction false} BaseOfSlashFree(k: string)
    requires NoSlash(k)
    ensures BaseName(k) == k
  {
    if k != "" {
      assert NoSlash(k[1..]);
    }
  }

  /** No part-shaped name with another base can be the part object of k. */
  lemma PartKeyOfLive(name: string, k: Key)
    requires |k| >= 2 && MatchesPartKeyRegex(name) && BaseName(name) != k
    ensures name != PartKeyFor(k)
  {
    PartKeyBase(name);
    assert PartKeyFor(k)[3..] == k;
  }
}
