/** POSIX path helpers the module-file filters and the folder sessions rely on:
    Node's `path.extname`, `path.basename` of the last segment, `path.join`
    of a directory and a plain entry name, `path.isAbsolute`, and the
    ASCII part of `String.prototype.toLowerCase`. */
module Paths {

  type Path = string

  /** `toLowerCase` on one character. Only ASCII capitals are mapped: no other
      character lower-cases to one of the characters `.`, `/`, `c`, `j`, `m`,
      `n`, `o`, `s`, `t` that the extension allow-lists are made of. */
  function LowerChar(c: char): char
  {
    if 'A' <= c <= 'Z' then (c as int + 32) as char else c
  }

  function Lower(s: string): (r: string)
    ensures |r| == |s|
  {
    seq(|s|, i requires 0 <= i < |s| => LowerChar(s[i]))
  }

  predicate IsAbsolute(p: Path)
  {
    |p| > 0 && p[0] == '/'
  }

  /** `path.join(dir, name)` for an already normalised directory and a plain
      directory entry name (no separator, not `.` or `..`). */
  function Join(dir: Path, name: string): Path
  {
    DirPrefix(dir) + name
  }

  /** The directory followed by one separator; nothing for the empty one. */
  function DirPrefix(dir: Path): Path
  {
    if dir == [] || dir[|dir| - 1] == '/' then dir else dir + "/"
  }

  /** The length of the first `n` characters of `p` once the separators they
      end in are dropped. */
  function TrimmedLength(p: Path, n: nat): (r: nat)
    requires n <= |p|
    ensures r <= n
    ensures r == 0 || p[r - 1] != '/'
    decreases n
  {
    if n > 0 && p[n - 1] == '/' then TrimmedLength(p, n - 1) else n
  }

  /** Only separators are dropped. */
  lemma {:induction false} TrimmedOnlySeparators(p: Path, n: nat)
    requires n <= |p|
    ensures forall i :: TrimmedLength(p, n) <= i < n ==> p[i] == '/'
    decreases n
  {
    if n > 0 && p[n - 1] == '/' {
      TrimmedOnlySeparators(p, n - 1);
    }
  }

  /** The path without the separators it ends in. */
  function TrimTrailingSlashes(p: Path): (r: Path)
    ensures |r| <= |p| && r == p[..|r|]
    ensures r == [] || r[|r| - 1] != '/'
  {
    p[..TrimmedLength(p, |p|)]
  }

  /** Index of the last occurrence of `c` among the first `n` characters of
      `s`, or -1 when there is none. */
  function LastIndexBefore(s: string, c: char, n: nat): (r: int)
    requires n <= |s|
    ensures -1 <= r < n
    ensures 0 <= r ==> s[r] == c
    decreases n
  {
    if n == 0 then -1 else if s[n - 1] == c then n - 1 else LastIndexBefore(s, c, n - 1)
  }

  /** No `c` follows the one found. */
  lemma {:induction false} NoneAfter(s: string, c: char, n: nat)
    requires n <= |s|
    ensures forall i :: LastIndexBefore(s, c, n) < i < n ==> s[i] != c
    decreases n
  {
    if n > 0 && s[n - 1] != c {
      NoneAfter(s, c, n - 1);
    }
  }

  /** Index of the last occurrence of `c` in `s`, or -1 when there is none. */
  function LastIndexOf(s: string, c: char): (r: int)
    ensures -1 <= r < |s|
    ensures 0 <= r ==> s[r] == c
  {
    LastIndexBefore(s, c, |s|)
  }

  /** `LastIndexOf` is the only index holding `c` with no `c` after it. */
  lemma LastIndexUnique(u: string, c: char, r: int)
    requires -1 <= r < |u| && (r >= 0 ==> u[r] == c)
    requires forall i :: r < i < |u| ==> u[i] != c
    ensures LastIndexOf(u, c) == r
  {
    NoneAfter(u, c, |u|);
  }

  /** The characters after the last separator: the base name of a path that
      does not end in a separator. */
  function LastSegment(t: Path): (r: string)
    ensures |r| <= |t| && r == t[|t| - |r|..]
    ensures |r| < |t| ==> t[|t| - |r| - 1] == '/'
  {
    t[LastIndexOf(t, '/') + 1..]
  }

  /** The last segment holds no separator. */
  lemma LastSegmentHasNoSeparator(t: Path)
    ensures forall i :: 0 <= i < |LastSegment(t)| ==> LastSegment(t)[i] != '/'
  {
    NoneAfter(t, '/', |t|);
    var k := LastIndexOf(t, '/') + 1;
    forall i | 0 <= i < |LastSegment(t)| ensures LastSegment(t)[i] != '/' {
      assert LastSegment(t)[i] == t[k + i];
    }
  }

  /** A path `t` ends in `e` and at least one character of the same segment
      precedes it. */
  predicate EndsWithExtension(t: Path, e: string)
  {
    |e| < |t| && t[|t| - |e|..] == e && t[|t| - |e| - 1] != '/'
  }

  /** A dot followed by at least one character that is neither a dot nor a separator. */
  predicate IsExtension(e: string)
  {
    |e| >= 2 && e[0] == '.' && forall i :: 1 <= i < |e| ==> e[i] != '.' && e[i] != '/'
  }

  /** The extension of one path segment: from its last dot to its end; empty
      when the segment has no dot, starts with its only dot, or is `..`. */
  function SegmentExt(b: string): (r: string)
    ensures |r| <= |b| && r == b[|b| - |r|..]
    ensures r == [] || (|r| < |b| && r[0] == '.')
  {
    var d := LastIndexOf(b, '.');
    if d <= 0 || (|b| == 2 && b[0] == '.' && b[1] == '.') then [] else b[d..]
  }

  /** The extension of a segment is a dot followed by characters that are
      neither dots nor separators: an extension, unless it is the dot alone. */
  lemma SegmentExtIsExtension(b: string)
    requires forall i :: 0 <= i < |b| ==> b[i] != '/'
    ensures |SegmentExt(b)| >= 2 ==> IsExtension(SegmentExt(b))
  {
    var r := SegmentExt(b);
    if r != [] {
      var d := LastIndexOf(b, '.');
      NoneAfter(b, '.', |b|);
      forall i | 1 <= i < |r| ensures r[i] != '.' && r[i] != '/' {
        assert r[i] == b[d + i];
      }
    }
  }

  /** `path.extname(p)`: the extension of the last segment once trailing
      separators are dropped. */
  function ExtName(p: Path): (r: string)
    ensures r == [] || EndsWithExtension(TrimTrailingSlashes(p), r)
  {
    SegmentExtOf(TrimTrailingSlashes(p))
  }

  /** The extension of the last segment of `t`. */
  function SegmentExtOf(t: Path): (r: string)
    ensures r == [] || EndsWithExtension(t, r)
  {
    var b := LastSegment(t);
    var r := SegmentExt(b);
    LastSegmentHasNoSeparator(t);
    SuffixInSegment(t, b, r);
    r
  }

  /** A path's extension of two characters or more is well formed. */
  lemma ExtNameIsExtension(p: Path)
    ensures |ExtName(p)| >= 2 ==> IsExtension(ExtName(p))
  {
    var t := TrimTrailingSlashes(p);
    LastSegmentHasNoSeparator(t);
    SegmentExtIsExtension(LastSegment(t));
  }

  /** A proper suffix `r` of the last segment `b` of `t` ends `t` inside that segment. */
  lemma SuffixInSegment(t: Path, b: string, r: string)
    requires |b| <= |t| && b == t[|t| - |b|..]
    requires forall i :: 0 <= i < |b| ==> b[i] != '/'
    requires |r| <= |b| && r == b[|b| - |r|..]
    requires r == [] || |r| < |b|
    ensures r == [] || EndsWithExtension(t, r)
  {
    if r == [] { return; }
    var k := |t| - |b|;
    assert t[|t| - |r|..] == b[|b| - |r|..];
    assert t[|t| - |r| - 1] == b[|b| - |r| - 1];
  }

  /** The extension of a path is `e` exactly when the path, trailing separators
      removed, ends in `e` with something of the same segment before it. */
  lemma {:induction false} ExtNameMatches(p: Path, e: string)
    requires IsExtension(e)
    ensures ExtName(p) == e <==> EndsWithExtension(TrimTrailingSlashes(p), e)
  {
    var t := TrimTrailingSlashes(p);
    if EndsWithExtension(t, e) {
      SegmentEndingIn(t, e);
    }
  }

  /** A path not ending in a separator whose last characters are `e`, preceded
      by a non-separator, has a last segment whose extension is `e`. */
  lemma SegmentEndingIn(t: Path, e: string)
    requires IsExtension(e) && EndsWithExtension(t, e)
    ensures SegmentExt(LastSegment(t)) == e
  {
    var b := LastSegment(t);
    var n := |e|;
    var d := |b| - n;
    assert b[d..] == e;
    SegmentExtAt(b, e);
  }

  /** A segment ending in an extension `e` and longer than it has extension `e`. */
  lemma SegmentExtAt(b: string, e: string)
    requires IsExtension(e) && |e| < |b| && b[|b| - |e|..] == e
    ensures SegmentExt(b) == e
  {
    var d := |b| - |e|;
    assert b[d] == e[0] == '.';
    forall i | d < i < |b| ensures b[i] != '.' {
      assert b[i] == e[i - d];
    }
    LastIndexUnique(b, '.', d);
  }

  /** Lower-casing commutes with taking the extension: the allow-list of the
      TypeScript generation compares `Lower(ExtName(p))`, and this is the same
      as looking for a lower-case extension at the end of the lower-cased path. */
  lemma {:induction false} LowerExtNameMatches(p: Path, e: string)
    requires IsExtension(e) && Lower(e) == e
    ensures Lower(ExtName(p)) == e <==> EndsWithExtension(Lower(TrimTrailingSlashes(p)), e)
  {
    var t := TrimTrailingSlashes(p);
    var x := ExtName(p);
    if Lower(x) == e {
      ExtNameIsExtension(p);
      ExtNameMatches(p, x);
      LowerKeepsExtension(t, x);
    }
    if EndsWithExtension(Lower(t), e) {
      var y := UpperCaseExtension(t, e);
      ExtNameMatches(p, y);
    }
  }

  /** Lower-casing a path keeps any extension it ends in, lower-cased. */
  lemma LowerKeepsExtension(t: Path, x: string)
    requires EndsWithExtension(t, x)
    ensures EndsWithExtension(Lower(t), Lower(x))
  {
    var k := |t| - |x|;
    LowerSuffix(t, k);
    assert Lower(t)[k - 1] == LowerChar(t[k - 1]);
  }

  /** Lower-casing commutes with dropping a prefix. */
  lemma LowerSuffix(t: string, k: nat)
    requires k <= |t|
    ensures Lower(t[k..]) == Lower(t)[k..]
  {
  }

  /** Lower-casing turns no other character into a dot or a separator. */
  lemma LowerCharKeepsSeparators(c: char)
    ensures LowerChar(c) == '.' <==> c == '.'
    ensures LowerChar(c) == '/' <==> c == '/'
  {
  }

  /** The characters of `t` that lower-case to the extension `e` it ends in
      form an extension themselves. */
  lemma UpperCaseExtension(t: Path, e: string) returns (y: string)
    requires IsExtension(e) && EndsWithExtension(Lower(t), e)
    ensures IsExtension(y) && Lower(y) == e && EndsWithExtension(t, y)
  {
    var k := |t| - |e|;
    y := t[k..];
    LowerSuffix(t, k);
    ExtensionFromLower(y, e);
    LowerKeepsSeparatorAt(t, k - 1);
    assert |y| < |t| && t[|t| - |y|..] == y;
  }

  /** Lower-casing keeps a non-separator a non-separator. */
  lemma LowerKeepsSeparatorAt(t: string, k: nat)
    requires k < |t|
    ensures Lower(t)[k] == '/' <==> t[k] == '/'
  {
    LowerCharKeepsSeparators(t[k]);
  }

  /** A string that lower-cases to an extension is an extension. */
  lemma ExtensionFromLower(y: string, e: string)
    requires IsExtension(e) && Lower(y) == e
    ensures IsExtension(y)
  {
    forall i | 0 <= i < |y| ensures (y[i] == '.' <==> e[i] == '.') && (y[i] == '/' <==> e[i] == '/') {
      LowerCharKeepsSeparators(y[i]);
    }
  }

  /** The last segment of `pre + y`, where `pre` is empty or ends in a separator
      and `y` has none, is `y`. */
  lemma LastSegmentAfterSeparator(pre: Path, y: string)
    requires pre == [] || pre[|pre| - 1] == '/'
    requires forall i :: 0 <= i < |y| ==> y[i] != '/'
    ensures LastSegment(pre + y) == y
  {
    var t := pre + y;
    var k := LastIndexOf(t, '/');
    if pre == [] {
      assert t == y;
      LastIndexUnique(t, '/', -1);
    } else {
      assert t[|pre| - 1] == '/';
      forall i | |pre| <= i < |t| ensures t[i] != '/' {
        assert t[i] == y[i - |pre|];
      }
      LastIndexUnique(t, '/', |pre| - 1);
      assert t[k + 1..] == y;
    }
  }
}
