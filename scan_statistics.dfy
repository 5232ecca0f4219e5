/**
 * The statistics `main` prints after a walk: how many records are
 * directories, how many are files, and the file extensions found, counted
 * case-sensitively in a dictionary and listed by decreasing count.
 *
 * Counts run over the first `n` records, the part of `files_info` a loop has
 * seen; the whole list is `n == |files|`.
 */
module ScanStatistics {
  import opened DirectoryScan
  import opened ScanProperties

  // ---------------------------------------------------------------------
  // Directory and file counts

  /** The number of directory records among the first `n`. */
  function DirsIn(files: seq<FileInfo>, n: nat): nat
    requires n <= |files|
  {
    if n == 0 then 0 else DirsIn(files, n - 1) + (if files[n - 1].isDirectory then 1 else 0)
  }

  /** The number of records that are not directories among the first `n`. */
  function NonDirsIn(files: seq<FileInfo>, n: nat): nat
    requires n <= |files|
  {
    if n == 0 then 0 else NonDirsIn(files, n - 1) + (if files[n - 1].isDirectory then 0 else 1)
  }

  /** The number of records among the first `n` whose extension is not empty. */
  function WithExtensionIn(files: seq<FileInfo>, n: nat): nat
    requires n <= |files|
  {
    if n == 0 then 0 else WithExtensionIn(files, n - 1) + (if files[n - 1].extension != "" then 1 else 0)
  }

  /** The number of records among the first `n` whose extension is exactly `e`. */
  function Occurrences(files: seq<FileInfo>, e: string, n: nat): nat
    requires n <= |files|
  {
    if n == 0 then 0 else Occurrences(files, e, n - 1) + (if files[n - 1].extension == e then 1 else 0)
  }

  /**
   * `file_count = len(files_info) - dir_count` is the number of records that
   * are not directories: every record is one or the other.
   */
  lemma {:induction false} DirsAndFiles(files: seq<FileInfo>, n: nat)
    requires n <= |files|
    ensures DirsIn(files, n) + NonDirsIn(files, n) == n
  {
    if n > 0 {
      DirsAndFiles(files, n - 1);
    }
  }

  /** Only files carry an extension, so at most `file_count` records have one. */
  lemma {:induction false} ExtensionsOnFiles(files: seq<FileInfo>, n: nat)
    requires n <= |files|
    requires AllWellFormed(files)
    ensures WithExtensionIn(files, n) <= NonDirsIn(files, n)
  {
    if n > 0 {
      ExtensionsOnFiles(files, n - 1);
      assert WellFormedRecord(files[n - 1]);
    }
  }

  // ---------------------------------------------------------------------
  // The `extensions` dictionary

  /** One `(extension, count)` item of the dictionary. */
  datatype ExtCount = ExtCount(ext: string, count: nat)

  /** No key occurs twice: the items of a dictionary, in insertion order. */
  predicate DistinctKeys(h: seq<ExtCount>) {
    forall i, j :: 0 <= i < j < |h| ==> h[i].ext != h[j].ext
  }

  /** The position of key `e` among the items, or -1 when it is absent. */
  function KeyIndex(h: seq<ExtCount>, e: string): (r: int)
    ensures -1 <= r < |h|
  {
    KeyIndexBelow(h, e, |h|)
  }

  /** The last position of key `e` among the first `n` items, or -1. */
  function KeyIndexBelow(h: seq<ExtCount>, e: string, n: nat): (r: int)
    requires n <= |h|
    ensures -1 <= r < n
  {
    if n == 0 then -1
    else if h[n - 1].ext == e then n - 1
    else KeyIndexBelow(h, e, n - 1)
  }

  lemma {:induction false} KeyIndexBelowLaws(h: seq<ExtCount>, e: string, n: nat)
    requires n <= |h|
    ensures var r := KeyIndexBelow(h, e, n);
      (r >= 0 ==> h[r].ext == e) &&
      (r < 0 ==> forall j :: 0 <= j < n ==> h[j].ext != e)
  {
    if n > 0 && h[n - 1].ext != e {
      KeyIndexBelowLaws(h, e, n - 1);
    }
  }

  /** `KeyIndex` finds the key where it occurs, and reports -1 only when it occurs nowhere. */
  lemma KeyIndexLaws(h: seq<ExtCount>, e: string)
    ensures var r := KeyIndex(h, e);
      (r >= 0 ==> h[r].ext == e) &&
      (r < 0 <==> forall j :: 0 <= j < |h| ==> h[j].ext != e)
  {
    KeyIndexBelowLaws(h, e, |h|);
  }

  /** `extensions.get(e, 0)`. */
  function Get(h: seq<ExtCount>, e: string): nat {
    var i := KeyIndex(h, e);
    if i >= 0 then h[i].count else 0
  }

  /** `extensions[e] = v`: a present key keeps its place, a new key goes last. */
  function Put(h: seq<ExtCount>, e: string, v: nat): seq<ExtCount> {
    var i := KeyIndex(h, e);
    if i >= 0 then h[i := ExtCount(e, v)] else h + [ExtCount(e, v)]
  }

  /**
   * Reading after writing: the written key reads back the written value,
   * every other key reads what it did before, and the keys stay distinct.
   */
  lemma GetPut(h: seq<ExtCount>, e: string, v: nat, e': string)
    requires DistinctKeys(h)
    ensures DistinctKeys(Put(h, e, v))
    ensures Get(Put(h, e, v), e') == if e' == e then v else Get(h, e')
  {
    var h' := Put(h, e, v);
    KeyIndexLaws(h, e);
    KeyIndexLaws(h, e');
    KeyIndexLaws(h', e');
    var i := KeyIndex(h, e);
    if i >= 0 {
      assert forall j :: 0 <= j < |h| ==> h'[j].ext == h[j].ext;
    } else {
      assert forall j :: 0 <= j < |h| ==> h'[j] == h[j];
    }
    var k := KeyIndex(h, e');
    var k' := KeyIndex(h', e');
    if e' == e {
      assert h'[if i >= 0 then i else |h|].ext == e';
    } else if k >= 0 {
      assert h'[k].ext == e';
    }
  }

  // ---------------------------------------------------------------------
  // Building the dictionary

  /** The position of the first record among the first `n` whose extension is `e`, or `n` if there is none. */
  function First(files: seq<FileInfo>, e: string, n: nat): (r: nat)
    requires n <= |files|
    ensures r <= n
  {
    if n == 0 then 0
    else
      var f := First(files, e, n - 1);
      if f < n - 1 then f
      else if files[n - 1].extension == e then n - 1
      else n
  }

  lemma {:induction false} FirstLaws(files: seq<FileInfo>, e: string, n: nat)
    requires n <= |files|
    ensures var r := First(files, e, n);
      (r < n ==> files[r].extension == e) &&
      (forall i :: 0 <= i < r ==> files[i].extension != e)
  {
    if n > 0 {
      FirstLaws(files, e, n - 1);
    }
  }

  /** `e` occurs among the first `n` records exactly when it has a first occurrence there. */
  lemma {:induction false} OccurrencesFirst(files: seq<FileInfo>, e: string, n: nat)
    requires n <= |files|
    ensures Occurrences(files, e, n) > 0 <==> First(files, e, n) < n
  {
    if n > 0 {
      OccurrencesFirst(files, e, n - 1);
    }
  }

  /** One turn of the loop: a record with an extension adds one to that extension's count. */
  function Step(h: seq<ExtCount>, info: FileInfo): seq<ExtCount> {
    if info.extension != "" then Put(h, info.extension, Get(h, info.extension) + 1) else h
  }

  /** The dictionary after the first `n` records. */
  function HistogramOf(files: seq<FileInfo>, n: nat): seq<ExtCount>
    requires n <= |files|
  {
    if n == 0 then [] else Step(HistogramOf(files, n - 1), files[n - 1])
  }

  /**
   * `h` is the dictionary of the first `n` records: distinct keys, exactly
   * the non-empty extensions seen, each counted, in order of first occurrence.
   */
  predicate IsHistogram(h: seq<ExtCount>, files: seq<FileInfo>, n: nat)
    requires n <= |files|
  {
    DistinctKeys(h) &&
    (forall j :: 0 <= j < |h| ==>
      h[j].ext != "" && h[j].count == Occurrences(files, h[j].ext, n) && First(files, h[j].ext, n) < n) &&
    (forall i :: 0 <= i < n && files[i].extension != "" ==> KeyIndex(h, files[i].extension) >= 0) &&
    (forall j1, j2 :: 0 <= j1 < j2 < |h| ==> First(files, h[j1].ext, n) < First(files, h[j2].ext, n))
  }

  /** What one more record changes in the counts, for every extension. */
  lemma StepCounts(files: seq<FileInfo>, n: nat)
    requires 0 < n <= |files|
    ensures forall k ::
      Occurrences(files, k, n) == Occurrences(files, k, n - 1) + (if files[n - 1].extension == k then 1 else 0)
    ensures forall k :: First(files, k, n - 1) < n - 1 ==> First(files, k, n) == First(files, k, n - 1)
  {
  }

  /** One turn of the loop keeps `IsHistogram`, for the one record more. */
  lemma StepPreserves(h: seq<ExtCount>, files: seq<FileInfo>, n: nat)
    requires 0 < n <= |files|
    requires IsHistogram(h, files, n - 1)
    ensures IsHistogram(Step(h, files[n - 1]), files, n)
  {
    StepCounts(files, n);
    var e := files[n - 1].extension;
    if e == "" {
      StepWithoutExtension(h, files, n);
    } else if KeyIndex(h, e) >= 0 {
      StepKnownExtension(h, files, n);
    } else {
      StepNewExtension(h, files, n);
    }
  }

  lemma StepWithoutExtension(h: seq<ExtCount>, files: seq<FileInfo>, n: nat)
    requires 0 < n <= |files| && files[n - 1].extension == ""
    requires IsHistogram(h, files, n - 1)
    ensures IsHistogram(Step(h, files[n - 1]), files, n)
  {
    StepCounts(files, n);
  }

  lemma StepKnownExtension(h: seq<ExtCount>, files: seq<FileInfo>, n: nat)
    requires 0 < n <= |files|
    requires files[n - 1].extension != "" && KeyIndex(h, files[n - 1].extension) >= 0
    requires IsHistogram(h, files, n - 1)
    ensures IsHistogram(Step(h, files[n - 1]), files, n)
  {
    StepCounts(files, n);
    var e := files[n - 1].extension;
    KeyIndexLaws(h, e);
    var idx := KeyIndex(h, e);
    var h' := Step(h, files[n - 1]);
    assert h' == h[idx := ExtCount(e, h[idx].count + 1)];
    forall j | 0 <= j < |h'|
      ensures h'[j].ext == h[j].ext
      ensures h'[j].ext != "" && h'[j].count == Occurrences(files, h'[j].ext, n) && First(files, h'[j].ext, n) < n
    {
    }
    forall i | 0 <= i < n && files[i].extension != ""
      ensures KeyIndex(h', files[i].extension) >= 0
    {
      var k := files[i].extension;
      KeyIndexLaws(h, k);
      KeyIndexLaws(h', k);
      if i < n - 1 {
        assert h'[KeyIndex(h, k)].ext == k;
      } else {
        assert h'[idx].ext == k;
      }
    }
  }

  lemma StepNewExtension(h: seq<ExtCount>, files: seq<FileInfo>, n: nat)
    requires 0 < n <= |files|
    requires files[n - 1].extension != "" && KeyIndex(h, files[n - 1].extension) < 0
    requires IsHistogram(h, files, n - 1)
    ensures IsHistogram(Step(h, files[n - 1]), files, n)
  {
    StepCounts(files, n);
    var e := files[n - 1].extension;
    KeyIndexLaws(h, e);
    assert First(files, e, n - 1) == n - 1 by {
      FirstLaws(files, e, n - 1);
    }
    OccurrencesFirst(files, e, n - 1);
    var h' := Step(h, files[n - 1]);
    assert h' == h + [ExtCount(e, 1)];
    forall j | 0 <= j < |h'|
      ensures h'[j].ext != "" && h'[j].count == Occurrences(files, h'[j].ext, n) && First(files, h'[j].ext, n) < n
      ensures j < |h| ==> First(files, h'[j].ext, n) < n - 1
      ensures j == |h| ==> First(files, h'[j].ext, n) == n - 1
    {
    }
    forall i | 0 <= i < n && files[i].extension != ""
      ensures KeyIndex(h', files[i].extension) >= 0
    {
      var k := files[i].extension;
      KeyIndexLaws(h, k);
      KeyIndexLaws(h', k);
      if i < n - 1 {
        assert h'[KeyIndex(h, k)].ext == k;
      } else {
        assert h'[|h|].ext == k;
      }
    }
  }

  lemma {:induction false} HistogramInvariant(files: seq<FileInfo>, n: nat)
    requires n <= |files|
    ensures IsHistogram(HistogramOf(files, n), files, n)
  {
    if n > 0 {
      HistogramInvariant(files, n - 1);
      StepPreserves(HistogramOf(files, n - 1), files, n);
    }
  }

  /**
   * The dictionary after the first `n` records: its keys are distinct and
   * are exactly the non-empty extensions seen, compared case-sensitively;
   * `get` gives each extension's number of occurrences (0 for the empty
   * extension and for one never seen); every count is positive; and the keys
   * come in the order in which their extensions first occurred.
   */
  lemma HistogramCounts(files: seq<FileInfo>, n: nat)
    requires n <= |files|
    ensures var h := HistogramOf(files, n);
      DistinctKeys(h) &&
      (forall e :: Get(h, e) == if e == "" then 0 else Occurrences(files, e, n)) &&
      (forall e :: KeyIndex(h, e) >= 0 <==> e != "" && Occurrences(files, e, n) > 0) &&
      (forall j :: 0 <= j < |h| ==> h[j].count > 0) &&
      (forall j1, j2 :: 0 <= j1 < j2 < |h| ==> First(files, h[j1].ext, n) < First(files, h[j2].ext, n))
  {
    var h := HistogramOf(files, n);
    HistogramInvariant(files, n);
    forall e
      ensures Get(h, e) == (if e == "" then 0 else Occurrences(files, e, n))
      ensures KeyIndex(h, e) >= 0 <==> e != "" && Occurrences(files, e, n) > 0
    {
      KeyIndexLaws(h, e);
      OccurrencesFirst(files, e, n);
      FirstLaws(files, e, n);
      var f := First(files, e, n);
      if e != "" && f < n {
        assert files[f].extension == e;
      }
    }
    forall j | 0 <= j < |h|
      ensures h[j].count > 0
    {
      OccurrencesFirst(files, h[j].ext, n);
    }
  }

  // ---------------------------------------------------------------------
  // The total of the counts

  /** The sum of the counts of the first `m` items. */
  function TotalBelow(h: seq<ExtCount>, m: nat): nat
    requires m <= |h|
  {
    if m == 0 then 0 else TotalBelow(h, m - 1) + h[m - 1].count
  }

  function Total(h: seq<ExtCount>): nat {
    TotalBelow(h, |h|)
  }

  lemma {:induction false} TotalBelowUpdate(h: seq<ExtCount>, i: nat, x: ExtCount, m: nat)
    requires i < |h| && m <= |h|
    ensures TotalBelow(h[i := x], m) == if i < m then TotalBelow(h, m) - h[i].count + x.count else TotalBelow(h, m)
  {
    if m > 0 {
      TotalBelowUpdate(h, i, x, m - 1);
    }
  }

  lemma {:induction false} TotalBelowAppend(h: seq<ExtCount>, x: ExtCount, m: nat)
    requires m <= |h|
    ensures TotalBelow(h + [x], m) == TotalBelow(h, m)
  {
    if m > 0 {
      TotalBelowAppend(h, x, m - 1);
    }
  }

  /** Each turn of the loop adds one to the total exactly when the record has an extension. */
  lemma StepTotal(h: seq<ExtCount>, info: FileInfo)
    ensures Total(Step(h, info)) == Total(h) + (if info.extension != "" then 1 else 0)
  {
    var e := info.extension;
    if e != "" {
      var i := KeyIndex(h, e);
      if i >= 0 {
        TotalBelowUpdate(h, i, ExtCount(e, h[i].count + 1), |h|);
      } else {
        TotalBelowAppend(h, ExtCount(e, 1), |h|);
      }
    }
  }

  /** The counts add up to the number of records that have an extension. */
  lemma {:induction false} HistogramTotal(files: seq<FileInfo>, n: nat)
    requires n <= |files|
    ensures Total(HistogramOf(files, n)) == WithExtensionIn(files, n)
  {
    if n > 0 {
      HistogramTotal(files, n - 1);
      StepTotal(HistogramOf(files, n - 1), files[n - 1]);
    }
  }

  // ---------------------------------------------------------------------
  // Listing by decreasing count

  /** Counts never increase along `s`. */
  predicate NonIncreasing(s: seq<ExtCount>) {
    forall i, j :: 0 <= i < j < |s| ==> s[i].count >= s[j].count
  }

  /** The items of `s` whose count is `c`, in the order of `s`. */
  function WithCount(s: seq<ExtCount>, c: nat): seq<ExtCount> {
    if s == [] then [] else (if s[0].count == c then [s[0]] else []) + WithCount(s[1..], c)
  }

  /** `x` goes before the first item whose count is not larger than its own. */
  function InsertByCount(x: ExtCount, s: seq<ExtCount>): seq<ExtCount> {
    if s == [] || s[0].count <= x.count then [x] + s else [s[0]] + InsertByCount(x, s[1..])
  }

  /**
   * `sorted(extensions.items(), key=lambda x: x[1], reverse=True)`: items by
   * decreasing count; the sort is stable, so items with equal counts keep
   * their order in the dictionary.
   */
  function SortByCount(h: seq<ExtCount>): seq<ExtCount> {
    if h == [] then [] else InsertByCount(h[0], SortByCount(h[1..]))
  }

  lemma {:induction false} InsertPermutes(x: ExtCount, s: seq<ExtCount>)
    ensures multiset(InsertByCount(x, s)) == multiset(s) + multiset{x}
  {
    if s != [] && s[0].count > x.count {
      InsertPermutes(x, s[1..]);
      assert s == [s[0]] + s[1..];
    }
  }

  lemma {:induction false} InsertSorted(x: ExtCount, s: seq<ExtCount>)
    requires NonIncreasing(s)
    ensures NonIncreasing(InsertByCount(x, s))
  {
    if s == [] || s[0].count <= x.count {
      ConsNonIncreasing(x, s);
    } else {
      var t := s[1..];
      TailNonIncreasing(s);
      InsertSorted(x, t);
      InsertPermutes(x, t);
      var r := InsertByCount(x, t);
      assert AllAtMost(r, s[0].count) by {
        forall j | 0 <= j < |r|
          ensures r[j].count <= s[0].count
        {
          assert r[j] in multiset(r);
          if r[j] != x {
            assert r[j] in multiset(t);
            var k :| 0 <= k < |t| && t[k] == r[j];
            assert t[k] == s[k + 1];
          }
        }
      }
      ConsNonIncreasing(s[0], r);
    }
  }

  /** Every count in `s` is at most `c`. */
  predicate AllAtMost(s: seq<ExtCount>, c: nat) {
    forall j :: 0 <= j < |s| ==> s[j].count <= c
  }

  lemma TailNonIncreasing(s: seq<ExtCount>)
    requires s != [] && NonIncreasing(s)
    ensures NonIncreasing(s[1..]) && AllAtMost(s[1..], s[0].count)
  {
    var t := s[1..];
    forall i, j | 0 <= i < j < |t|
      ensures t[i].count >= t[j].count
    {
      assert t[i] == s[i + 1] && t[j] == s[j + 1];
    }
    forall j | 0 <= j < |t|
      ensures t[j].count <= s[0].count
    {
      assert t[j] == s[j + 1];
    }
  }

  lemma ConsNonIncreasing(y: ExtCount, r: seq<ExtCount>)
    requires NonIncreasing(r) && AllAtMost(r, y.count)
    ensures NonIncreasing([y] + r)
  {
    var r' := [y] + r;
    forall i, j | 0 <= i < j < |r'|
      ensures r'[i].count >= r'[j].count
    {
      assert r'[j] == r[j - 1];
      if i > 0 {
        assert r'[i] == r[i - 1];
      }
    }
  }

  /** Inserting `x` puts it before every item with the same count, and changes nothing for other counts. */
  lemma {:induction false} InsertStable(x: ExtCount, s: seq<ExtCount>, c: nat)
    ensures WithCount(InsertByCount(x, s), c) == (if x.count == c then [x] else []) + WithCount(s, c)
  {
    if s == [] || s[0].count <= x.count {
      WithCountCons(x, s, c);
    } else {
      var t := s[1..];
      var xs: seq<ExtCount> := if x.count == c then [x] else [];
      InsertStable(x, t, c);
      WithCountCons(s[0], InsertByCount(x, t), c);
      assert s == [s[0]] + t;
      WithCountCons(s[0], t, c);
      if s[0].count == c {
        assert xs == [];
      } else {
        assert WithCount(s, c) == WithCount(t, c);
      }
    }
  }

  lemma WithCountCons(y: ExtCount, u: seq<ExtCount>, c: nat)
    ensures WithCount([y] + u, c) == (if y.count == c then [y] else []) + WithCount(u, c)
  {
    assert ([y] + u)[1..] == u;
  }

  /**
   * The listing is a permutation of the dictionary's items with counts that
   * never increase, and for every count the items with that count appear in
   * the same order as in the dictionary: the sort is stable.
   */
  lemma {:induction false} SortByCountLaws(h: seq<ExtCount>)
    ensures var r := SortByCount(h);
      NonIncreasing(r) && multiset(r) == multiset(h) &&
      forall c :: WithCount(r, c) == WithCount(h, c)
  {
    if h != [] {
      var t := h[1..];
      SortByCountLaws(t);
      InsertSorted(h[0], SortByCount(t));
      InsertPermutes(h[0], SortByCount(t));
      assert h == [h[0]] + t;
      forall c
        ensures WithCount(SortByCount(h), c) == WithCount(h, c)
      {
        InsertStable(h[0], SortByCount(t), c);
      }
    }
  }

  // ---------------------------------------------------------------------
  // Ties are listed in order of first occurrence

  /** The keys of `s` come in the order in which they first occur among the first `n` records. */
  predicate InFirstOrder(s: seq<ExtCount>, files: seq<FileInfo>, n: nat)
    requires n <= |files|
  {
    forall i, j :: 0 <= i < j < |s| ==> First(files, s[i].ext, n) < First(files, s[j].ext, n)
  }

  /** Items of `s` with equal counts come in the order in which their keys first occur. */
  predicate TiesInFirstOrder(s: seq<ExtCount>, files: seq<FileInfo>, n: nat)
    requires n <= |files|
  {
    forall i, j :: 0 <= i < j < |s| && s[i].count == s[j].count ==>
      First(files, s[i].ext, n) < First(files, s[j].ext, n)
  }

  /** `WithCount(s, c)` holds exactly the items of `s` whose count is `c`. */
  lemma {:induction false} WithCountMembers(s: seq<ExtCount>, c: nat, x: ExtCount)
    ensures x in WithCount(s, c) <==> x in s && x.count == c
  {
    if s != [] {
      WithCountMembers(s[1..], c, x);
      assert s == [s[0]] + s[1..];
    }
  }

  lemma {:induction false} WithCountInFirstOrder(s: seq<ExtCount>, c: nat, files: seq<FileInfo>, n: nat)
    requires n <= |files|
    requires InFirstOrder(s, files, n)
    ensures InFirstOrder(WithCount(s, c), files, n)
  {
    if s != [] {
      var t := s[1..];
      assert InFirstOrder(t, files, n) by {
        forall i, j | 0 <= i < j < |t| ensures First(files, t[i].ext, n) < First(files, t[j].ext, n) {
          assert t[i] == s[i + 1] && t[j] == s[j + 1];
        }
      }
      WithCountInFirstOrder(t, c, files, n);
      var w := WithCount(t, c);
      if s[0].count == c {
        var r := [s[0]] + w;
        forall i, j | 0 <= i < j < |r|
          ensures First(files, r[i].ext, n) < First(files, r[j].ext, n)
        {
          assert r[j] == w[j - 1];
          if i == 0 {
            WithCountMembers(t, c, w[j - 1]);
            var k :| 0 <= k < |t| && t[k] == w[j - 1];
            assert s[k + 1] == r[j];
          } else {
            assert r[i] == w[i - 1];
          }
        }
      }
    }
  }

  lemma {:induction false} TiesFromFilters(s: seq<ExtCount>, files: seq<FileInfo>, n: nat)
    requires n <= |files|
    requires forall c :: InFirstOrder(WithCount(s, c), files, n)
    ensures TiesInFirstOrder(s, files, n)
  {
    if s != [] {
      var t := s[1..];
      forall c
        ensures InFirstOrder(WithCount(t, c), files, n)
      {
        var w := WithCount(t, c);
        var ws := WithCount(s, c);
        if s[0].count == c {
          assert ws == [s[0]] + w;
          forall i, j | 0 <= i < j < |w| ensures First(files, w[i].ext, n) < First(files, w[j].ext, n) {
            assert w[i] == ws[i + 1] && w[j] == ws[j + 1];
          }
        } else {
          assert ws == w;
        }
      }
      TiesFromFilters(t, files, n);
      forall i, j | 0 <= i < j < |s| && s[i].count == s[j].count
        ensures First(files, s[i].ext, n) < First(files, s[j].ext, n)
      {
        if i == 0 {
          var c := s[0].count;
          var ws := WithCount(s, c);
          var w := WithCount(t, c);
          assert ws == [s[0]] + w;
          assert s[j] == t[j - 1];
          WithCountMembers(t, c, s[j]);
          var k :| 0 <= k < |w| && w[k] == s[j];
          assert InFirstOrder(ws, files, n);
          assert ws[0] == s[0] && ws[k + 1] == s[j];
        } else {
          assert s[i] == t[i - 1] && s[j] == t[j - 1];
        }
      }
    }
  }

  /**
   * In the listing, extensions with the same count appear in the order in
   * which they first occur among the records.
   */
  lemma RankingTies(files: seq<FileInfo>)
    ensures TiesInFirstOrder(SortByCount(HistogramOf(files, |files|)), files, |files|)
  {
    var n := |files|;
    var h := HistogramOf(files, n);
    var r := SortByCount(h);
    HistogramCounts(files, n);
    SortByCountLaws(h);
    forall c
      ensures InFirstOrder(WithCount(r, c), files, n)
    {
      WithCountInFirstOrder(h, c, files, n);
    }
    TiesFromFilters(r, files, n);
  }

  // ---------------------------------------------------------------------
  // The statistics block of `main`

  /**
   * The statistics `main` prints for `files_info`: the number of directory
   * records, the number of the others, and the extensions with their counts
   * as the `for` loop collects them and `sorted` lists them.
   */
  method Statistics(filesInfo: seq<FileInfo>) returns (dirCount: nat, fileCount: nat, ranking: seq<ExtCount>)
    ensures dirCount == DirsIn(filesInfo, |filesInfo|)
    ensures fileCount == NonDirsIn(filesInfo, |filesInfo|)
    ensures dirCount + fileCount == |filesInfo|
    ensures ranking == SortByCount(HistogramOf(filesInfo, |filesInfo|))
  {
    dirCount := DirsIn(filesInfo, |filesInfo|);
    DirsAndFiles(filesInfo, |filesInfo|);
    fileCount := |filesInfo| - dirCount;
    var extensions: seq<ExtCount> := [];
    for i := 0 to |filesInfo|
      invariant extensions == HistogramOf(filesInfo, i)
    {
      var info := filesInfo[i];
      if info.extension != "" {
        extensions := Put(extensions, info.extension, Get(extensions, info.extension) + 1);
      }
    }
    ranking := SortByCount(extensions);
  }

  /**
   * For the records of any walk, the extension counts add up to the number
   * of records with an extension, which is at most `file_count`.
   */
  lemma ScanExtensionTotal(path: string, node: Node, recursive: bool)
    ensures var files := Scan(path, node, recursive);
      Total(HistogramOf(files, |files|)) == WithExtensionIn(files, |files|) <= NonDirsIn(files, |files|)
  {
    var files := Scan(path, node, recursive);
    ScanWellFormed(path, node, recursive);
    HistogramTotal(files, |files|);
    ExtensionsOnFiles(files, |files|);
  }
}
