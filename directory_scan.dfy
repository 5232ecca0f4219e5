/**
 * The directory walk of the `directory_info` command: `FileInfo` records and
 * `scan_directory`, flat or recursive, over a finite filesystem tree.
 *
 * The filesystem is a value: the node a path denotes is passed beside the
 * path. `Missing` is a path that does not exist, so `os.path.isdir` is false
 * for it; a directory that is not `listable` is one on which `os.listdir`
 * raises. The order of `children` is the order `os.listdir` yields.
 */
module DirectoryScan {
  import opened PosixPath

  datatype Node = Missing | File | Dir(listable: bool, children: seq<Entry>)

  /** One name in a directory listing and what the filesystem holds under it. */
  datatype Entry = Entry(name: string, node: Node)

  /** The `FileInfo` record: one per entry found by the walk. */
  datatype FileInfo = FileInfo(
    name: string,
    extension: string,
    isDirectory: bool,
    parentDir: string,
    fullPath: string)

  datatype Option<T> = None | Some(value: T)

  /** `os.path.isdir`: true only of an existing directory. */
  predicate IsDir(node: Node) {
    node.Dir?
  }

  /** `os.listdir`: the names in a directory, or `None` where it raises. */
  function ListDir(node: Node): Option<seq<Entry>> {
    if IsDir(node) && node.listable then Some(node.children) else None
  }

  /**
   * The record made for one listed item: a directory keeps its whole name and
   * an empty extension; a file is split by `os.path.splitext` and keeps the
   * extension without its leading dot.
   */
  function Classify(parentDir: string, itemPath: string, item: Entry): FileInfo {
    if IsDir(item.node) then
      FileInfo(item.name, "", true, parentDir, itemPath)
    else
      var (name, ext) := SplitExt(item.name);
      FileInfo(name, if ext != "" then ext[1..] else "", false, parentDir, itemPath)
  }

  /**
   * The record laws: the record names its parent and path as given and is a
   * directory exactly when the item is; a directory's name is the item's and
   * its extension empty; no extension contains a dot; a file's name and
   * extension give back the item's name, with the dot between them.
   */
  lemma ClassifyLaws(parentDir: string, itemPath: string, item: Entry)
    ensures var r := Classify(parentDir, itemPath, item);
      r.parentDir == parentDir && r.fullPath == itemPath &&
      (r.isDirectory <==> IsDir(item.node)) &&
      (r.isDirectory ==> r.name == item.name && r.extension == "") &&
      (!r.isDirectory ==> r.name == SplitExt(item.name).0) &&
      '.' !in r.extension &&
      (r.extension != "" ==> r.name + "." + r.extension == item.name) &&
      (r.extension == "" ==> r.name == item.name || r.name + "." == item.name)
  {
    if !IsDir(item.node) {
      ExtensionWithoutDot(item.name);
    }
  }

  /** The extension part of a file's record: `splitext`'s second part without its dot. */
  lemma ExtensionWithoutDot(p: string)
    ensures var (name, ext) := SplitExt(p);
      var e := if ext != "" then ext[1..] else "";
      '.' !in e &&
      (e != "" ==> name + "." + e == p) &&
      (e == "" ==> name == p || name + "." == p)
  {
    SplitExtParts(p);
    DropDot(SplitExt(p).0, SplitExt(p).1, p);
  }

  lemma DropDot(name: string, ext: string, p: string)
    requires name + ext == p
    requires ext != "" ==> ext[0] == '.' && '.' !in ext[1..]
    ensures var e := if ext != "" then ext[1..] else "";
      '.' !in e &&
      (e != "" ==> name + "." + e == p) &&
      (e == "" ==> name == p || name + "." == p)
  {
    if ext != "" {
      var e := ext[1..];
      assert ext == "." + e;
      assert name + "." + e == name + ("." + e);
    } else {
      assert name + ext == name;
    }
  }

  /**
   * What `scan_directory(path, recursive)` returns when the filesystem holds
   * `node` at `path`: nothing unless `node` is a directory that can be listed,
   * otherwise the records of all its children in listing order.
   */
  function Scan(path: string, node: Node, recursive: bool): seq<FileInfo>
    decreases node, 1, 0
  {
    if IsDir(node) && node.listable then
      Level(path, Basename(path), node, |node.children|, recursive)
    else
      []
  }

  /**
   * The records collected after the first `n` children of `dir`: for each
   * child, the records of its own scan (a directory in a recursive walk),
   * then the child's own record.
   */
  function Level(path: string, parentDir: string, dir: Node, n: nat, recursive: bool): seq<FileInfo>
    requires dir.Dir? && n <= |dir.children|
    decreases dir, 0, n
  {
    if n == 0 then []
    else
      Level(path, parentDir, dir, n - 1, recursive) + Block(path, parentDir, dir.children[n - 1], recursive)
  }

  /** What one listed item contributes: its sub-scan's records, then its own record. */
  function Block(path: string, parentDir: string, item: Entry, recursive: bool): seq<FileInfo>
    decreases item.node, 3, 0
  {
    SubScan(path, item, recursive) + [Classify(parentDir, Join(path, item.name), item)]
  }

  /** The records the recursive call for one listed item contributes. */
  function SubScan(path: string, item: Entry, recursive: bool): seq<FileInfo>
    decreases item.node, 2, 0
  {
    if IsDir(item.node) && recursive then Scan(Join(path, item.name), item.node, recursive) else []
  }

  /**
   * `scan_directory`: returns `[]` when the path is not a directory or when
   * listing it raises; otherwise walks the listing, appending for each item
   * the sub-scan's records (directories, recursive mode) and then its record.
   */
  method ScanDirectory(directoryPath: string, node: Node, recursive: bool)
    returns (fileInfoList: seq<FileInfo>)
    decreases node
    ensures fileInfoList == Scan(directoryPath, node, recursive)
    ensures !IsDir(node) ==> fileInfoList == []
    ensures IsDir(node) && !node.listable ==> fileInfoList == []
  {
    if !IsDir(node) {
      return [];
    }
    fileInfoList := [];
    var parentDir := Basename(directoryPath);
    var listing := ListDir(node);
    if listing.None? {
      // the `except` clause: whatever was collected is dropped
      return [];
    }
    var items := listing.value;
    for i := 0 to |items|
      invariant fileInfoList == Level(directoryPath, parentDir, node, i, recursive)
    {
      var item := items[i];
      ghost var before := fileInfoList;
      var itemPath := Join(directoryPath, item.name);
      var isDir := IsDir(item.node);
      var name, extension;
      if isDir {
        name, extension := item.name, "";
        if recursive {
          var subdirInfo := ScanDirectory(itemPath, item.node, recursive);
          fileInfoList := fileInfoList + subdirInfo;
        }
      } else {
        var (root, ext) := SplitExt(item.name);
        name := root;
        extension := if ext != "" then ext[1..] else "";
      }
      var fileInfo := FileInfo(name, extension, isDir, parentDir, itemPath);
      LevelStep(directoryPath, parentDir, node, i, recursive, before, fileInfoList[|before|..], fileInfo);
      fileInfoList := fileInfoList + [fileInfo];
    }
  }

  /** One pass of the loop in `ScanDirectory` extends `Level` by child `i`'s block. */
  lemma LevelStep(path: string, parentDir: string, dir: Node, i: nat, recursive: bool,
                  before: seq<FileInfo>, sub: seq<FileInfo>, own: FileInfo)
    requires dir.Dir? && i < |dir.children|
    requires before == Level(path, parentDir, dir, i, recursive)
    requires sub == SubScan(path, dir.children[i], recursive)
    requires own == Classify(parentDir, Join(path, dir.children[i].name), dir.children[i])
    ensures before + sub + [own] == Level(path, parentDir, dir, i + 1, recursive)
  {
  }
}
