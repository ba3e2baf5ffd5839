/** The few QString / QFileInfo operations the auditor relies on, written out
    on `seq<char>`: ASCII case folding, substring search, remove-all,
    base names and suffixes, the lexicographic order used by `sort`/`qSort`,
    and the zero-padded hexadecimal formatting of a CRC. */
module Strings {

  /** Case folding of one character (ASCII letters only). */
  function LowerChar(c: char): char
  {
    if 'A' <= c <= 'Z' then (c as int + 32) as char else c
  }

  /** `QString::toLower`, restricted to ASCII letters. */
  function ToLower(s: string): (r: string)
    ensures |r| == |s|
    ensures forall i :: 0 <= i < |s| ==> r[i] == LowerChar(s[i])
  {
    seq(|s|, i requires 0 <= i < |s| => LowerChar(s[i]))
  }

  /** `QString::contains(p)`: `p` occurs somewhere in `s`. */
  predicate Contains(s: string, p: string)
  {
    exists i :: 0 <= i <= |s| && OccursAt(s, p, i)
  }

  /** `p` occurs in `s` starting at index `i`. */
  predicate OccursAt(s: string, p: string, i: int)
  {
    0 <= i && i + |p| <= |s| && s[i..i + |p|] == p
  }

  /** `QString::remove(p)`: every occurrence of `p`, scanning from the left
      and never overlapping, is deleted. */
  function RemoveAll(s: string, p: string): (r: string)
    requires p != []
    ensures |r| <= |s|
    decreases |s|
  {
    if |s| < |p| then s
    else if s[..|p|] == p then RemoveAll(s[|p|..], p)
    else [s[0]] + RemoveAll(s[1..], p)
  }

  /** An extension such as ".zip" or ".7z": a dot followed by no further dot. */
  predicate IsExtension(p: string)
  {
    |p| > 0 && p[0] == '.' && '.' !in p[1..]
  }

  /** The archive extensions of the rom paths (ZIP_EXT and SZIP_EXT). */
  const ZipExt: string := ".zip"
  const SevenZipExt: string := ".7z"

  /** The name of an archive `base + ext`, with `ext` an extension that does
      not otherwise occur in `base`, loses exactly its extension. */
  lemma {:induction false} RemoveExtension(base: string, ext: string)
    requires IsExtension(ext) && !Contains(base, ext)
    ensures RemoveAll(base + ext, ext) == base
  {
    var s := base + ext;
    if base == [] {
      assert s == ext && s[|ext|..] == [];
    } else {
      if |base| >= |ext| {
        assert s[..|ext|] == base[..|ext|];
        assert !OccursAt(base, ext, 0);
      } else {
        assert ext[|base|] == ext[1..][|base| - 1];
        assert s[..|ext|][|base|] == ext[0];
      }
      assert s[..|ext|] != ext;
      if Contains(base[1..], ext) {
        var i :| 0 <= i <= |base[1..]| && OccursAt(base[1..], ext, i);
        assert base[1..][i..i + |ext|] == base[i + 1..i + 1 + |ext|];
        assert OccursAt(base, ext, i + 1);
      }
      RemoveExtension(base[1..], ext);
      assert s[1..] == base[1..] + ext;
      assert base == [base[0]] + base[1..];
    }
  }

  /** Only the first extension-looking run is an extension to `QString::remove`:
      every occurrence goes, so "a.zip.zip" names game "a". */
  lemma RemoveAllEveryOccurrence()
    ensures RemoveAll("a.zip.zip", ZipExt) == "a"
  {
    assert "a.zip.zip"[1..] == ".zip.zip";
    assert ".zip.zip"[4..] == ".zip";
  }

  /** `QFileInfo::baseName`: the name up to (not including) its first dot. */
  function BaseName(f: string): (r: string)
    ensures r <= f && '.' !in r
    ensures |r| < |f| ==> f[|r|] == '.'
  {
    if f == [] || f[0] == '.' then [] else [f[0]] + BaseName(f[1..])
  }

  /** `QFileInfo::completeBaseName`: the name up to (not including) its last dot. */
  function CompleteBaseName(f: string): string
  {
    if '.' !in f then f
    else if f[|f| - 1] == '.' then f[..|f| - 1]
    else CompleteBaseName(f[..|f| - 1])
  }

  /** `QFileInfo::suffix`: what follows the last dot, empty without a dot. */
  function Suffix(f: string): string
  {
    if '.' !in f then []
    else if f[|f| - 1] == '.' then []
    else Suffix(f[..|f| - 1]) + [f[|f| - 1]]
  }

  /** A name with a dot is its complete base name, the last dot and its suffix. */
  lemma {:induction false} SplitAtLastDot(f: string)
    requires '.' in f
    ensures CompleteBaseName(f) + "." + Suffix(f) == f
    ensures '.' !in Suffix(f)
  {
    var n := |f|;
    if f[n - 1] != '.' {
      assert f == f[..n - 1] + [f[n - 1]];
      assert '.' in f[..n - 1];
      SplitAtLastDot(f[..n - 1]);
    }
  }

  /** The file-name part of a path stored in an archive (after its last '/'). */
  function FileNamePart(f: string): (r: string)
    ensures '/' !in r
  {
    if f == [] then []
    else if f[|f| - 1] == '/' then []
    else FileNamePart(f[..|f| - 1]) + [f[|f| - 1]]
  }

  /** `QString::operator<` / `<=`: lexicographic order of code points. */
  predicate LexLe(a: string, b: string)
  {
    a == [] || (b != [] && (a[0] < b[0] || (a[0] == b[0] && LexLe(a[1..], b[1..]))))
  }

  /** `m` is the smallest element of `s`. */
  predicate IsLeast(m: string, s: set<string>)
  {
    m in s && forall x :: x in s ==> LexLe(m, x)
  }

  /** A sequence in strictly increasing order. */
  ghost predicate StrictlySorted(r: seq<string>)
  {
    forall i, j :: 0 <= i < j < |r| ==> LexLe(r[i], r[j]) && r[i] != r[j]
  }

  /** The sorted enumeration of a set of names: what `sort()` yields on a
      list of distinct names. */
  ghost function SortedSeq(s: set<string>): (r: seq<string>)
    decreases |s|
  {
    if s == {} then []
    else
      var m := Least(s);
      [m] + SortedSeq(s - {m})
  }

  /** The smallest element of a non-empty set of names. */
  ghost function Least(s: set<string>): (m: string)
    requires s != {}
    ensures IsLeast(m, s)
    decreases |s|
  {
    var x :| x in s;
    if s == {x} then
      LexLeReflexive(x);
      assert forall y :: y in s ==> y == x;
      x
    else
      var m := Least(s - {x});
      LexLeTotal(x, m);
      if LexLe(x, m) then
        LexLeTransitiveAll(x, m, s - {x});
        LexLeReflexive(x);
        x
      else
        m
  }

  /** Every element of `s` is at least `m`'s successor `x` when `x <= m`. */
  lemma LexLeTransitiveAll(x: string, m: string, s: set<string>)
    requires LexLe(x, m)
    requires forall y :: y in s ==> LexLe(m, y)
    ensures forall y :: y in s ==> LexLe(x, y)
  {
    forall y | y in s ensures LexLe(x, y) {
      LexLeTransitive(x, m, y);
    }
  }

  lemma {:induction false} LexLeReflexive(a: string)
    ensures LexLe(a, a)
  {
    if a != [] {
      LexLeReflexive(a[1..]);
    }
  }

  lemma {:induction false} LexLeTotal(a: string, b: string)
    ensures LexLe(a, b) || LexLe(b, a)
  {
    if a != [] && b != [] && a[0] == b[0] {
      LexLeTotal(a[1..], b[1..]);
    }
  }

  lemma {:induction false} LexLeTransitive(a: string, b: string, c: string)
    requires LexLe(a, b) && LexLe(b, c)
    ensures LexLe(a, c)
  {
    if a != [] && b != [] && c != [] && a[0] == b[0] && b[0] == c[0] {
      LexLeTransitive(a[1..], b[1..], c[1..]);
    }
  }

  lemma {:induction false} LexLeAntisymmetric(a: string, b: string)
    requires LexLe(a, b) && LexLe(b, a)
    ensures a == b
  {
    if a != [] && b != [] {
      LexLeAntisymmetric(a[1..], b[1..]);
      assert a == [a[0]] + a[1..];
      assert b == [b[0]] + b[1..];
    }
  }

  /** The least element of a set is unique. */
  lemma LeastUnique(m: string, s: set<string>)
    requires IsLeast(m, s)
    ensures m == Least(s)
  {
    LexLeAntisymmetric(m, Least(s));
  }

  /** `SortedSeq(s)` lists each element of `s` exactly once, in strictly
      increasing order: the result of sorting a list of distinct names. */
  lemma {:induction false} SortedSeqSpec(s: set<string>)
    ensures StrictlySorted(SortedSeq(s))
    ensures |SortedSeq(s)| == |s|
    ensures forall x :: x in SortedSeq(s) <==> x in s
    decreases |s|
  {
    if s != {} {
      var m := Least(s);
      SortedSeqSpec(s - {m});
      var r := SortedSeq(s);
      assert r == [m] + SortedSeq(s - {m});
      forall i, j | 0 <= i < j < |r| ensures LexLe(r[i], r[j]) && r[i] != r[j] {
        if i == 0 {
          assert r[j] in SortedSeq(s - {m});
        }
      }
    }
  }

  /** Sorting a set of distinct names by repeatedly taking the smallest. */
  method SortNames(s: set<string>) returns (r: seq<string>)
    ensures r == SortedSeq(s)
  {
    r := [];
    var rest := s;
    while rest != {}
      invariant r + SortedSeq(rest) == SortedSeq(s)
      decreases |rest|
    {
      assert IsLeast(Least(rest), rest);
      var m :| IsLeast(m, rest);
      LeastUnique(m, rest);
      assert SortedSeq(rest) == [m] + SortedSeq(rest - {m});
      r := r + [m];
      rest := rest - {m};
    }
  }

  /** Lower-case hexadecimal digit of a value below 16. */
  function HexDigit(d: int): char
    requires 0 <= d < 16
  {
    if d < 10 then ('0' as int + d) as char else ('a' as int + d - 10) as char
  }

  /** The value of a hexadecimal digit (either case); -1 for other characters. */
  function DigitValue(c: char): int
  {
    if '0' <= c <= '9' then c as int - '0' as int
    else if 'a' <= c <= 'f' then c as int - 'a' as int + 10
    else if 'A' <= c <= 'F' then c as int - 'A' as int + 10
    else -1
  }

  function Pow16(n: nat): nat
  {
    if n == 0 then 1 else 16 * Pow16(n - 1)
  }

  /** `QString("%1").arg(n, width, 16, QLatin1Char('0'))` for a value that
      fits in `width` digits: lower-case hexadecimal, zero-padded on the left. */
  function HexPadded(n: nat, width: nat): (r: string)
    ensures |r| == width
  {
    if width == 0 then [] else HexPadded(n / 16, width - 1) + [HexDigit(n % 16)]
  }

  /** Reading a hexadecimal numeral back (the inverse of `HexPadded`). */
  function ParseHex(s: string): int
  {
    if s == [] then 0 else ParseHex(s[..|s| - 1]) * 16 + DigitValue(s[|s| - 1])
  }

  /** A digit written by `HexDigit` is a lower-case hexadecimal digit that
      `DigitValue` reads back. */
  lemma HexDigitRoundTrip(d: int)
    requires 0 <= d < 16
    ensures HexDigit(d) in "0123456789abcdef"
    ensures DigitValue(HexDigit(d)) == d
  {
    assert HexDigit(d) == "0123456789abcdef"[d];
  }

  /** Every character of `HexPadded` is a lower-case hexadecimal digit, and
      reading it back gives the value again when it fits in `width` digits. */
  lemma {:induction false} HexPaddedRoundTrip(n: nat, width: nat)
    requires n < Pow16(width)
    ensures forall i :: 0 <= i < width ==> HexPadded(n, width)[i] in "0123456789abcdef"
    ensures ParseHex(HexPadded(n, width)) == n
  {
    if width > 0 {
      var q, d := n / 16, n % 16;
      assert n == q * 16 + d;
      assert q < Pow16(width - 1);
      HexPaddedRoundTrip(q, width - 1);
      HexDigitRoundTrip(d);
      var s := HexPadded(n, width);
      assert s == HexPadded(q, width - 1) + [HexDigit(d)];
      assert s[..width - 1] == HexPadded(q, width - 1);
      assert ParseHex(s) == ParseHex(HexPadded(q, width - 1)) * 16 + d;
    }
  }
}
