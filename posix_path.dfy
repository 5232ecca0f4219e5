/**
 * The three POSIX path helpers the directory scan relies on: `os.path.join`
 * (two arguments), `os.path.basename` and `os.path.splitext`, over `/`
 * separated paths and the `.` extension separator.
 */
module PosixPath {

  /** True when `p` is an absolute path, i.e. starts with the separator. */
  predicate IsAbsolute(p: string) {
    |p| > 0 && p[0] == '/'
  }

  /** True when every character of `s` is the extension separator. */
  predicate AllDots(s: string) {
    forall i :: 0 <= i < |s| ==> s[i] == '.'
  }

  /** `str.rfind` for one character: the index of its last occurrence, or -1. */
  function RFind(s: string, c: char): (r: int)
    ensures -1 <= r < |s|
  {
    RFindBelow(s, c, |s|)
  }

  /** The last occurrence of `c` among the first `n` characters of `s`, or -1. */
  function RFindBelow(s: string, c: char, n: nat): (r: int)
    requires n <= |s|
    ensures -1 <= r < n
  {
    if n == 0 then -1
    else if s[n - 1] == c then n - 1
    else RFindBelow(s, c, n - 1)
  }

  /** `RFind` finds `c` at its result and nowhere after it. */
  lemma RFindLaws(s: string, c: char)
    ensures var r := RFind(s, c);
      forall j :: 0 <= j < |s| && r <= j ==> (s[j] == c <==> j == r)
  {
    RFindBelowLaws(s, c, |s|);
  }

  lemma {:induction false} RFindBelowLaws(s: string, c: char, n: nat)
    requires n <= |s|
    ensures var r := RFindBelow(s, c, n);
      forall j :: 0 <= j < n && r <= j ==> (s[j] == c <==> j == r)
  {
    if n > 0 && s[n - 1] != c {
      RFindBelowLaws(s, c, n - 1);
    }
  }

  /** `os.path.basename`: the text after the last separator. */
  function Basename(p: string): string {
    p[RFind(p, '/') + 1..]
  }

  /** The base name is the longest suffix of `p` without a separator. */
  lemma BasenameLaws(p: string)
    ensures var r := Basename(p);
      '/' !in r &&
      |r| <= |p| && (forall i :: 0 <= i < |r| ==> r[i] == p[|p| - |r| + i]) &&
      (|r| < |p| ==> p[|p| - |r| - 1] == '/')
  {
    RFindLaws(p, '/');
    var k := RFind(p, '/') + 1;
    assert forall i :: k <= i < |p| ==> p[i] != '/';
  }

  /**
   * `os.path.join(a, b)`: an absolute `b` replaces `a`; otherwise a separator
   * is put between the two unless `a` is empty or already ends with one.
   */
  function Join(a: string, b: string): string {
    if IsAbsolute(b) then b
    else if a == "" || a[|a| - 1] == '/' then a + b
    else a + "/" + b
  }

  /**
   * A relative `b` is appended to `a`, with exactly one separator between
   * them unless `a` is empty; an absolute `b` is the result.
   */
  lemma JoinLaws(a: string, b: string)
    ensures var r := Join(a, b);
      (IsAbsolute(b) ==> r == b) &&
      (!IsAbsolute(b) ==>
        |r| == |a| + |b| + (if a == "" || a[|a| - 1] == '/' then 0 else 1) &&
        a <= r && (forall i :: 0 <= i < |b| ==> r[|r| - |b| + i] == b[i]) &&
        (a != "" ==> r[|r| - |b| - 1] == '/'))
  {
  }

  /** What `join(a, b)` puts before a relative `b`: `a`, ending in a separator unless it is empty. */
  function JoinPrefix(a: string): string {
    if a == "" || a[|a| - 1] == '/' then a else a + "/"
  }

  /** A relative `b` is joined by appending it to `JoinPrefix(a)`. */
  lemma JoinRelative(a: string, b: string)
    requires !IsAbsolute(b)
    ensures Join(a, b) == JoinPrefix(a) + b
  {
  }

  /** A path ending in a component `name` is followed by one added separator. */
  lemma JoinPrefixOfName(q: string, name: string)
    requires name != "" && '/' !in name
    ensures JoinPrefix(q + name) == q + name + "/"
  {
    assert (q + name)[|q + name| - 1] == name[|name| - 1];
  }

  /**
   * `os.path.splitext`: split at the last `.` of the last path component,
   * unless everything in that component before the dot is dots too (so
   * ".bashrc" and "..x" have no extension, and "a." splits as ("a", ".")).
   */
  function SplitExt(p: string): (r: (string, string))
  {
    var sepIndex := RFind(p, '/');
    var dotIndex := RFind(p, '.');
    if dotIndex > sepIndex && !AllDots(p[sepIndex + 1..dotIndex]) then
      (p[..dotIndex], p[dotIndex..])
    else
      (p, "")
  }

  /** The two parts `SplitExt` returns put `p` back together, and a non-empty extension is one dot and no separator. */
  lemma SplitExtParts(p: string)
    ensures SplitExt(p).0 + SplitExt(p).1 == p
    ensures var ext := SplitExt(p).1; ext != "" ==> ext[0] == '.' && '.' !in ext[1..] && '/' !in ext
  {
    var sepIndex := RFind(p, '/');
    var dotIndex := RFind(p, '.');
    if dotIndex > sepIndex && !AllDots(p[sepIndex + 1..dotIndex]) {
      ExtensionPart(p, sepIndex, dotIndex);
    } else {
      assert p + "" == p;
    }
  }

  /** The facts `SplitExt` needs about the cut it makes at the last dot. */
  lemma ExtensionPart(p: string, sep: int, dot: int)
    requires sep == RFind(p, '/') && dot == RFind(p, '.')
    requires dot > sep
    ensures p[dot..][0] == '.' && '.' !in p[dot..][1..] && '/' !in p[dot..]
    ensures p[..dot] + p[dot..] == p
  {
    RFindLaws(p, '/');
    RFindLaws(p, '.');
    var e := p[dot..];
    assert p[dot] == '.';
    forall j | 0 <= j < |e|
      ensures e[j] == p[dot + j] && e[j] != '/' && (j > 0 ==> e[j] != '.')
    {
      assert p[dot + j] == e[j];
    }
  }

  /** `RFind` returns the unique index that is `c` with no `c` after it. */
  lemma RFindIsLast(s: string, c: char, k: int)
    requires -1 <= k < |s|
    requires k >= 0 ==> s[k] == c
    requires forall j :: k < j < |s| ==> s[j] != c
    ensures RFind(s, c) == k
  {
    RFindLaws(s, c);
    var r := RFind(s, c);
    if r >= 0 {
      assert s[r] == c;
    }
    if k >= 0 {
      assert s[k] == c;
    }
  }

  /** The last component of `p` has a dot somewhere after a character that is not a dot. */
  predicate DotAfterNonDot(p: string) {
    exists i, j :: RFind(p, '/') < i < j < |p| && p[i] != '.' && p[j] == '.'
  }

  /**
   * Independent characterisation of when `SplitExt` finds an extension: the
   * last component has a dot that is not part of its run of leading dots.
   */
  lemma SplitExtHasExtension(p: string)
    ensures SplitExt(p).1 != "" <==> DotAfterNonDot(p)
  {
    var sep := RFind(p, '/');
    var dot := RFind(p, '.');
    RFindLaws(p, '.');
    if SplitExt(p).1 != "" {
      assert dot > sep && !AllDots(p[sep + 1..dot]);
      var i :| 0 <= i < dot - sep - 1 && p[sep + 1..dot][i] != '.';
      assert p[sep + 1 + i] != '.' && p[dot] == '.';
    }
    if DotAfterNonDot(p) {
      var i, j :| sep < i < j < |p| && p[i] != '.' && p[j] == '.';
      assert j <= dot;
      assert p[sep + 1..dot][i - sep - 1] == p[i];
    }
  }

  /** `basename(join(a, b))` gives back a name `b` that has no separator. */
  lemma BasenameOfJoin(a: string, b: string)
    requires '/' !in b
    ensures Basename(Join(a, b)) == b
  {
    var r := Join(a, b);
    JoinLaws(a, b);
    var k := |r| - |b| - 1;
    forall j | k < j < |r|
      ensures r[j] == b[j - k - 1] && r[j] != '/'
    {
      assert r[|r| - |b| + (j - k - 1)] == b[j - k - 1];
    }
    RFindIsLast(r, '/', k);
    assert r[k + 1..] == b;
  }
}
