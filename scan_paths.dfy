/**
 * The full paths of a walk. When every directory lists names as
 * `os.listdir` yields them (non-empty, without a separator, neither `.` nor
 * `..`, each at most once), no two records of a walk share a full path, and
 * the records a subdirectory's own scan makes name that subdirectory as
 * their parent.
 */
module ScanPaths {
  import opened PosixPath
  import opened DirectoryScan
  import opened ScanProperties

  /** A name `os.listdir` can yield. */
  predicate ValidName(name: string) {
    name != "" && '/' !in name && name != "." && name != ".."
  }

  /** Every directory in the tree lists valid names, each at most once. */
  predicate ValidNames(node: Node)
    decreases node
  {
    IsDir(node) ==>
      (forall i :: 0 <= i < |node.children| ==>
        ValidName(node.children[i].name) && ValidNames(node.children[i].node)) &&
      (forall i, j :: 0 <= i < j < |node.children| ==> node.children[i].name != node.children[j].name)
  }

  /** No two records of `rs` have the same full path. */
  predicate PathsDistinct(rs: seq<FileInfo>) {
    forall i, j :: 0 <= i < j < |rs| ==> rs[i].fullPath != rs[j].fullPath
  }

  /** Every full path in `rs` starts with `q`. */
  predicate AllUnder(rs: seq<FileInfo>, q: string) {
    forall k :: 0 <= k < |rs| ==> q <= rs[k].fullPath
  }

  /** The text of `s` before its first separator. */
  function UpToSeparator(s: string): string {
    if s == [] || s[0] == '/' then [] else [s[0]] + UpToSeparator(s[1..])
  }

  /** The first component of `fp` after the prefix `q`, or "" when `fp` does not start with `q`. */
  function Head(q: string, fp: string): string {
    if q <= fp then UpToSeparator(fp[|q|..]) else ""
  }

  /** Every full path in `rs` has `name` as its first component after `q`. */
  predicate HeadsAre(rs: seq<FileInfo>, q: string, name: string) {
    forall k :: 0 <= k < |rs| ==> Head(q, rs[k].fullPath) == name
  }

  /** No full path in `rs` has, as its first component after `q`, the name of a child of `dir` from `n` on. */
  predicate HeadsAvoid(rs: seq<FileInfo>, q: string, dir: Node, n: nat)
    requires dir.Dir?
  {
    forall k, j :: 0 <= k < |rs| && n <= j < |dir.children| ==> Head(q, rs[k].fullPath) != dir.children[j].name
  }

  /** Every full path in `rs` is longer than `m` characters. */
  predicate AllLonger(rs: seq<FileInfo>, m: nat) {
    forall k :: 0 <= k < |rs| ==> |rs[k].fullPath| > m
  }

  lemma {:induction false} UpToSeparatorOf(name: string, rest: string)
    requires '/' !in name && (rest == [] || rest[0] == '/')
    ensures UpToSeparator(name + rest) == name
  {
    if name == [] {
      assert name + rest == rest;
    } else {
      assert (name + rest)[1..] == name[1..] + rest;
      UpToSeparatorOf(name[1..], rest);
      assert name == [name[0]] + name[1..];
    }
  }

  /** The first component after `q` of `q + name + rest` is `name`, when `rest` is empty or starts a new component. */
  lemma HeadOf(q: string, name: string, rest: string)
    requires '/' !in name && (rest == [] || rest[0] == '/')
    ensures Head(q, q + name + rest) == name
  {
    var fp := q + name + rest;
    assert fp[..|q|] == q;
    assert fp[|q|..] == name + rest;
    UpToSeparatorOf(name, rest);
  }

  /** A path below `q + name + "/"` has the first component `name` after `q`, and is longer than `q + name`. */
  lemma UnderName(q: string, name: string, fp: string)
    requires '/' !in name && q + name + "/" <= fp
    ensures q <= fp && Head(q, fp) == name && |fp| > |q + name|
  {
    var m := |q + name|;
    var rest := fp[m..];
    assert fp[..m] == q + name;
    assert fp == q + name + rest;
    assert rest[0] == fp[m] == '/';
    assert fp[..|q|] == q;
    HeadOf(q, name, rest);
  }

  /**
   * The records of one child `item` of a directory scanned at `path`: their
   * full paths are distinct, and each has the child's name as its first
   * component after the prefix `join` gives `path`.
   */
  lemma {:induction false} BlockPaths(path: string, parentDir: string, item: Entry, recursive: bool)
    requires ValidName(item.name) && ValidNames(item.node)
    decreases item.node, 3, 0
    ensures var b := Block(path, parentDir, item, recursive);
      PathsDistinct(b) && AllUnder(b, JoinPrefix(path)) && HeadsAre(b, JoinPrefix(path), item.name)
  {
    var q := JoinPrefix(path);
    var p := Join(path, item.name);
    JoinRelative(path, item.name);
    var sub := SubScan(path, item, recursive);
    var own := Classify(parentDir, p, item);
    ClassifyLaws(parentDir, p, item);
    assert own.fullPath == q + item.name;
    assert q <= own.fullPath && Head(q, own.fullPath) == item.name by {
      assert own.fullPath[..|q|] == q;
      HeadOf(q, item.name, "");
      assert q + item.name + "" == q + item.name;
    }
    if IsDir(item.node) && recursive {
      ScanPathsDistinct(p, item.node, recursive);
      JoinPrefixOfName(q, item.name);
      forall k | 0 <= k < |sub|
        ensures q <= sub[k].fullPath && Head(q, sub[k].fullPath) == item.name && |sub[k].fullPath| > |own.fullPath|
      {
        UnderName(q, item.name, sub[k].fullPath);
      }
    }
    AppendOwn(sub, own, q, item.name);
  }

  lemma AppendOwn(sub: seq<FileInfo>, own: FileInfo, q: string, name: string)
    requires PathsDistinct(sub) && AllUnder(sub, q) && HeadsAre(sub, q, name) && AllLonger(sub, |own.fullPath|)
    requires q <= own.fullPath && Head(q, own.fullPath) == name
    ensures var b := sub + [own];
      PathsDistinct(b) && AllUnder(b, q) && HeadsAre(b, q, name)
  {
    var b := sub + [own];
    forall i, j | 0 <= i < j < |b|
      ensures b[i].fullPath != b[j].fullPath
    {
      assert b[i] == sub[i];
      if j < |sub| {
        assert b[j] == sub[j];
      }
    }
    forall k | 0 <= k < |b|
      ensures q <= b[k].fullPath && Head(q, b[k].fullPath) == name
    {
      if k < |sub| {
        assert b[k] == sub[k];
      }
    }
  }

  /**
   * The records after the first `n` children: distinct full paths, all
   * below `JoinPrefix(path)`, none of them under a later child's name.
   */
  lemma {:induction false} LevelPaths(path: string, parentDir: string, dir: Node, n: nat, recursive: bool)
    requires dir.Dir? && ValidNames(dir) && n <= |dir.children|
    decreases dir, 0, n
    ensures var l := Level(path, parentDir, dir, n, recursive);
      PathsDistinct(l) && AllUnder(l, JoinPrefix(path)) && HeadsAvoid(l, JoinPrefix(path), dir, n)
  {
    if n > 0 {
      var item := dir.children[n - 1];
      var a := Level(path, parentDir, dir, n - 1, recursive);
      var b := Block(path, parentDir, item, recursive);
      assert Level(path, parentDir, dir, n, recursive) == a + b;
      ChildValid(dir, n - 1);
      LevelPaths(path, parentDir, dir, n - 1, recursive);
      BlockPaths(path, parentDir, item, recursive);
      AppendBlock(a, b, JoinPrefix(path), dir, n);
    }
  }

  lemma ChildValid(dir: Node, i: nat)
    requires dir.Dir? && ValidNames(dir) && i < |dir.children|
    ensures ValidName(dir.children[i].name) && ValidNames(dir.children[i].node)
  {
  }

  lemma AppendBlock(a: seq<FileInfo>, b: seq<FileInfo>, q: string, dir: Node, n: nat)
    requires dir.Dir? && ValidNames(dir) && 0 < n <= |dir.children|
    requires PathsDistinct(a) && AllUnder(a, q) && HeadsAvoid(a, q, dir, n - 1)
    requires PathsDistinct(b) && AllUnder(b, q) && HeadsAre(b, q, dir.children[n - 1].name)
    ensures var l := a + b;
      PathsDistinct(l) && AllUnder(l, q) && HeadsAvoid(l, q, dir, n)
  {
    var l := a + b;
    var name := dir.children[n - 1].name;
    forall i, j | 0 <= i < j < |l|
      ensures l[i].fullPath != l[j].fullPath
    {
      if j < |a| {
        assert l[i] == a[i] && l[j] == a[j];
      } else if i >= |a| {
        assert l[i] == b[i - |a|] && l[j] == b[j - |a|];
      } else {
        assert l[i] == a[i] && l[j] == b[j - |a|];
        assert Head(q, a[i].fullPath) != name;
        assert Head(q, b[j - |a|].fullPath) == name;
      }
    }
    forall k, j | 0 <= k < |l| && n <= j < |dir.children|
      ensures q <= l[k].fullPath && Head(q, l[k].fullPath) != dir.children[j].name
    {
      if k < |a| {
        assert l[k] == a[k];
      } else {
        assert l[k] == b[k - |a|];
        assert dir.children[n - 1].name != dir.children[j].name;
      }
    }
  }

  /**
   * No two records of a walk have the same full path, and every full path
   * starts with the scanned path followed by a separator (none is added
   * when the path is empty or already ends with one).
   */
  lemma {:induction false} ScanPathsDistinct(path: string, node: Node, recursive: bool)
    requires ValidNames(node)
    decreases node, 1, 0
    ensures PathsDistinct(Scan(path, node, recursive))
    ensures AllUnder(Scan(path, node, recursive), JoinPrefix(path))
  {
    if IsDir(node) && node.listable {
      LevelPaths(path, Basename(path), node, |node.children|, recursive);
    }
  }

  /**
   * In the walk of a subdirectory `item` below `path`, the own record of each
   * of its children names `item` as its parent directory.
   */
  lemma SubdirectoryRecordsNameIt(path: string, item: Entry, j: nat, recursive: bool)
    requires '/' !in item.name
    requires IsDir(item.node) && item.node.listable && j < |item.node.children|
    ensures var p := Join(path, item.name);
      var r := Scan(p, item.node, recursive);
      var g := item.node.children[j];
      var k := |Level(p, Basename(p), item.node, j, recursive)| + |SubScan(p, g, recursive)|;
      k < |r| && r[k] == Classify(item.name, Join(p, g.name), g) && r[k].parentDir == item.name
  {
    var p := Join(path, item.name);
    BasenameOfJoin(path, item.name);
    SubScanBeforeOwnRecord(p, item.node, j, recursive);
    var g := item.node.children[j];
    ClassifyLaws(item.name, Join(p, g.name), g);
  }
}
