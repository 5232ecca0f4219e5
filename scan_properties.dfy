/**
 * What `scan_directory` guarantees about the list it returns: one record per
 * child in a flat walk, the number of records in a recursive walk, where a
 * subdirectory's records sit, and how far a failed listing reaches.
 */
module ScanProperties {
  import opened PosixPath
  import opened DirectoryScan
  import opened Sequences

  /** Every directory in the tree can be listed: no scan below `node` fails. */
  predicate AllListable(node: Node)
    decreases node
  {
    IsDir(node) ==>
      node.listable && forall i :: 0 <= i < |node.children| ==> AllListable(node.children[i].node)
  }

  /** The number of entries strictly below `node`, at any depth. */
  function Below(node: Node): nat
    decreases node, 1, 0
  {
    if IsDir(node) then BelowLevel(node, |node.children|) else 0
  }

  /** The entries of the first `n` children of `dir`, each with everything below it. */
  function BelowLevel(dir: Node, n: nat): nat
    requires dir.Dir? && n <= |dir.children|
    decreases dir, 0, n
  {
    if n == 0 then 0 else BelowLevel(dir, n - 1) + 1 + Below(dir.children[n - 1].node)
  }

  /** The facts about one record that do not depend on the tree. */
  predicate WellFormedRecord(f: FileInfo) {
    (f.isDirectory ==> f.extension == "") && '.' !in f.extension
  }

  // ---------------------------------------------------------------------
  // A scan is the concatenation of one block per child

  /** One block per child of `dir`, in listing order. */
  function Blocks(path: string, parentDir: string, dir: Node, recursive: bool): seq<seq<FileInfo>>
    requires dir.Dir?
  {
    seq(|dir.children|, k requires 0 <= k < |dir.children| => Block(path, parentDir, dir.children[k], recursive))
  }

  /** The records after `n` children are those children's blocks, concatenated in listing order. */
  lemma {:induction false} LevelBlocks(path: string, parentDir: string, dir: Node, n: nat, recursive: bool)
    requires dir.Dir? && n <= |dir.children|
    ensures Level(path, parentDir, dir, n, recursive) == ConcatRange(Blocks(path, parentDir, dir, recursive), 0, n)
  {
    if n > 0 {
      LevelBlocks(path, parentDir, dir, n - 1, recursive);
    }
  }

  // ---------------------------------------------------------------------
  // A flat scan

  /** The records a flat walk makes for the first `n` children: one per child. */
  function OwnRecords(path: string, parentDir: string, dir: Node, n: nat): seq<FileInfo>
    requires dir.Dir? && n <= |dir.children|
  {
    seq(n, k requires 0 <= k < n => Classify(parentDir, Join(path, dir.children[k].name), dir.children[k]))
  }

  lemma {:induction false} FlatLevel(path: string, parentDir: string, dir: Node, n: nat)
    requires dir.Dir? && n <= |dir.children|
    ensures Level(path, parentDir, dir, n, false) == OwnRecords(path, parentDir, dir, n)
  {
    if n > 0 {
      FlatLevel(path, parentDir, dir, n - 1);
      var item := dir.children[n - 1];
      assert Block(path, parentDir, item, false) == [Classify(parentDir, Join(path, item.name), item)];
      assert OwnRecords(path, parentDir, dir, n)
        == OwnRecords(path, parentDir, dir, n - 1) + [Classify(parentDir, Join(path, item.name), item)];
    }
  }

  /**
   * A flat scan of a listable directory yields exactly one record per child,
   * in listing order, each naming the scanned directory's base name as its
   * parent and the joined path as its full path.
   */
  lemma FlatScan(path: string, node: Node)
    requires IsDir(node) && node.listable
    ensures var r := Scan(path, node, false);
      |r| == |node.children| &&
      forall i :: 0 <= i < |r| ==>
        var item := node.children[i];
        r[i] == Classify(Basename(path), Join(path, item.name), item) &&
        r[i].parentDir == Basename(path) &&
        r[i].fullPath == Join(path, item.name) &&
        r[i].isDirectory == IsDir(item.node)
  {
    FlatLevel(path, Basename(path), node, |node.children|);
    forall i | 0 <= i < |node.children|
      ensures var item := node.children[i];
        var r := Classify(Basename(path), Join(path, item.name), item);
        r.parentDir == Basename(path) && r.fullPath == Join(path, item.name) && r.isDirectory == IsDir(item.node)
    {
      var item := node.children[i];
      ClassifyLaws(Basename(path), Join(path, item.name), item);
    }
  }

  // ---------------------------------------------------------------------
  // How many records a scan yields

  lemma {:induction false} ScanLength(path: string, node: Node, recursive: bool)
    decreases node, 1, 0
    ensures |Scan(path, node, recursive)| <= Below(node)
    ensures recursive && AllListable(node) ==> |Scan(path, node, recursive)| == Below(node)
  {
    if IsDir(node) && node.listable {
      LevelLength(path, Basename(path), node, |node.children|, recursive);
    }
  }

  lemma {:induction false} LevelLength(path: string, parentDir: string, dir: Node, n: nat, recursive: bool)
    requires dir.Dir? && n <= |dir.children|
    decreases dir, 0, n
    ensures |Level(path, parentDir, dir, n, recursive)| <= BelowLevel(dir, n)
    ensures recursive && AllListable(dir) ==> |Level(path, parentDir, dir, n, recursive)| == BelowLevel(dir, n)
  {
    if n > 0 {
      var item := dir.children[n - 1];
      LevelLength(path, parentDir, dir, n - 1, recursive);
      if IsDir(item.node) && recursive {
        ScanLength(Join(path, item.name), item.node, recursive);
      }
      assert |Block(path, parentDir, item, recursive)| == |SubScan(path, item, recursive)| + 1;
    }
  }

  // ---------------------------------------------------------------------
  // Where a subdirectory's records sit

  /**
   * In the scan of a listable directory, the records of child `i` form one
   * block right after those of the children before it: first everything its
   * own scan returned (empty unless it is a directory and the walk is
   * recursive), then, immediately after, the child's own record.
   */
  lemma SubScanBeforeOwnRecord(path: string, node: Node, i: nat, recursive: bool)
    requires IsDir(node) && node.listable && i < |node.children|
    ensures var r := Scan(path, node, recursive);
      var item := node.children[i];
      var sub := SubScan(path, item, recursive);
      var k := |Level(path, Basename(path), node, i, recursive)|;
      k + |sub| < |r| &&
      r[..k] == Level(path, Basename(path), node, i, recursive) &&
      r[k..k + |sub|] == sub &&
      r[k + |sub|] == Classify(Basename(path), Join(path, item.name), item)
  {
    var parentDir := Basename(path);
    var item := node.children[i];
    SplitAt(path, parentDir, node, i, recursive);
    Parts(Scan(path, node, recursive), Level(path, parentDir, node, i, recursive), SubScan(path, item, recursive),
      Classify(parentDir, Join(path, item.name), item),
      ConcatRange(Blocks(path, parentDir, node, recursive), i + 1, |node.children|));
  }

  /** The scan of a directory cut around child `i`'s block. */
  lemma SplitAt(path: string, parentDir: string, node: Node, i: nat, recursive: bool)
    requires IsDir(node) && i < |node.children|
    ensures var item := node.children[i];
      Level(path, parentDir, node, |node.children|, recursive)
        == Level(path, parentDir, node, i, recursive)
          + (SubScan(path, item, recursive) + [Classify(parentDir, Join(path, item.name), item)])
          + ConcatRange(Blocks(path, parentDir, node, recursive), i + 1, |node.children|)
  {
    var bs := Blocks(path, parentDir, node, recursive);
    LevelBlocks(path, parentDir, node, |node.children|, recursive);
    LevelBlocks(path, parentDir, node, i, recursive);
    ConcatRangeAt(bs, i);
  }

  // ---------------------------------------------------------------------
  // How far a change below one child reaches

  /**
   * Error containment: giving child `i` a different subtree (of the same
   * kind) changes the scan only in the block of records that child's own
   * scan produced. The records of the children before and after it, and the
   * child's own record, are unchanged. Applied at each level, a change deep
   * in the tree reaches no ancestor's other records either.
   */
  lemma ReplaceSubtree(path: string, node: Node, i: nat, other: Node, recursive: bool)
    requires IsDir(node) && node.listable && i < |node.children|
    requires IsDir(other) == IsDir(node.children[i].node)
    ensures var item := node.children[i];
      var node' := Dir(true, node.children[i := Entry(item.name, other)]);
      var r := Scan(path, node, recursive);
      var k := |Level(path, Basename(path), node, i, recursive)|;
      var sub := SubScan(path, item, recursive);
      k + |sub| <= |r| &&
      Scan(path, node', recursive) == r[..k] + SubScan(path, Entry(item.name, other), recursive) + r[k + |sub|..]
  {
    var parentDir := Basename(path);
    var item := node.children[i];
    var item' := Entry(item.name, other);
    var node' := Dir(true, node.children[i := item']);
    var pre := Level(path, parentDir, node, i, recursive);
    var own := Classify(parentDir, Join(path, item.name), item);
    var post := ConcatRange(Blocks(path, parentDir, node, recursive), i + 1, |node.children|);
    SplitAt(path, parentDir, node, i, recursive);
    ReplacedScan(path, node, i, other, recursive);
    ReplaceMiddle(Scan(path, node, recursive), pre, SubScan(path, item, recursive), SubScan(path, item', recursive), own, post);
  }

  /** The scan after the replacement, cut around child `i`'s new block. */
  lemma ReplacedScan(path: string, node: Node, i: nat, other: Node, recursive: bool)
    requires IsDir(node) && i < |node.children|
    requires IsDir(other) == IsDir(node.children[i].node)
    ensures var item := node.children[i];
      var item' := Entry(item.name, other);
      var parentDir := Basename(path);
      Scan(path, Dir(true, node.children[i := item']), recursive)
        == Level(path, parentDir, node, i, recursive)
          + (SubScan(path, item', recursive) + [Classify(parentDir, Join(path, item.name), item)])
          + ConcatRange(Blocks(path, parentDir, node, recursive), i + 1, |node.children|)
  {
    var parentDir := Basename(path);
    var item := node.children[i];
    var item' := Entry(item.name, other);
    var node' := Dir(true, node.children[i := item']);
    var bs := Blocks(path, parentDir, node, recursive);
    var b' := Block(path, parentDir, item', recursive);
    BlocksUpdate(path, parentDir, node, i, item', recursive);
    assert Level(path, parentDir, node', i, recursive) == Level(path, parentDir, node, i, recursive) by {
      LevelBlocks(path, parentDir, node', i, recursive);
      LevelBlocks(path, parentDir, node, i, recursive);
      ConcatRangeUpdate(bs, i, b', 0, i);
    }
    assert ConcatRange(Blocks(path, parentDir, node', recursive), i + 1, |node.children|)
        == ConcatRange(bs, i + 1, |node.children|) by {
      ConcatRangeUpdate(bs, i, b', i + 1, |node.children|);
    }
    ClassifySameKind(parentDir, Join(path, item.name), item, item');
    SplitAt(path, parentDir, node', i, recursive);
  }

  lemma BlocksUpdate(path: string, parentDir: string, node: Node, i: nat, item': Entry, recursive: bool)
    requires IsDir(node) && i < |node.children|
    ensures Blocks(path, parentDir, Dir(true, node.children[i := item']), recursive)
      == Blocks(path, parentDir, node, recursive)[i := Block(path, parentDir, item', recursive)]
  {
  }

  lemma ClassifySameKind(parentDir: string, itemPath: string, item: Entry, item': Entry)
    requires item.name == item'.name && IsDir(item.node) == IsDir(item'.node)
    ensures Classify(parentDir, itemPath, item) == Classify(parentDir, itemPath, item')
  {
  }

  /**
   * A subdirectory that cannot be listed contributes no records of its own
   * contents, but its own record stays, and every other record is what the
   * scan with a readable subdirectory there yields.
   */
  lemma UnlistableSubdirectory(path: string, node: Node, i: nat, recursive: bool)
    requires IsDir(node) && node.listable && i < |node.children|
    requires IsDir(node.children[i].node)
    ensures var item := node.children[i];
      var node' := Dir(true, node.children[i := Entry(item.name, Dir(false, item.node.children))]);
      var r := Scan(path, node, recursive);
      var k := |Level(path, Basename(path), node, i, recursive)|;
      var sub := SubScan(path, item, recursive);
      k + |sub| < |r| &&
      Scan(path, node', recursive) == r[..k] + r[k + |sub|..] &&
      Scan(path, node', recursive)[k] == Classify(Basename(path), Join(path, item.name), item)
  {
    var item := node.children[i];
    var item' := Entry(item.name, Dir(false, item.node.children));
    assert SubScan(path, item', recursive) == [];
    ReplaceSubtree(path, node, i, item'.node, recursive);
    SubScanBeforeOwnRecord(path, node, i, recursive);
    var r := Scan(path, node, recursive);
    var k := |Level(path, Basename(path), node, i, recursive)|;
    var sub := SubScan(path, item, recursive);
    DropMiddle(r, k, k + |sub|);
  }

  // ---------------------------------------------------------------------
  // Every record is well formed

  /** Every record of `rs` is well formed. */
  predicate AllWellFormed(rs: seq<FileInfo>) {
    forall k :: 0 <= k < |rs| ==> WellFormedRecord(rs[k])
  }

  /**
   * The record laws hold of every record a walk returns: a directory has an
   * empty extension and no extension contains a dot.
   */
  lemma {:induction false} ScanWellFormed(path: string, node: Node, recursive: bool)
    decreases node, 1, 0
    ensures AllWellFormed(Scan(path, node, recursive))
  {
    if IsDir(node) && node.listable {
      LevelWellFormed(path, Basename(path), node, |node.children|, recursive);
    }
  }

  lemma {:induction false} LevelWellFormed(path: string, parentDir: string, dir: Node, n: nat, recursive: bool)
    requires dir.Dir? && n <= |dir.children|
    decreases dir, 0, n
    ensures AllWellFormed(Level(path, parentDir, dir, n, recursive))
  {
    if n > 0 {
      var item := dir.children[n - 1];
      LevelWellFormed(path, parentDir, dir, n - 1, recursive);
      if IsDir(item.node) && recursive {
        ScanWellFormed(Join(path, item.name), item.node, recursive);
      }
      ClassifyLaws(parentDir, Join(path, item.name), item);
      AllWellFormedAppend(Level(path, parentDir, dir, n - 1, recursive), SubScan(path, item, recursive),
        Classify(parentDir, Join(path, item.name), item));
    }
  }

  /** Well-formed records extended by well-formed records are well formed. */
  lemma AllWellFormedAppend(a: seq<FileInfo>, b: seq<FileInfo>, x: FileInfo)
    requires AllWellFormed(a) && AllWellFormed(b) && WellFormedRecord(x)
    ensures AllWellFormed(a + (b + [x]))
  {
    var r := a + (b + [x]);
    forall k | 0 <= k < |r|
      ensures WellFormedRecord(r[k])
    {
      if k < |a| {
        assert r[k] == a[k];
      } else if k < |a| + |b| {
        assert r[k] == b[k - |a|];
      }
    }
  }
}
