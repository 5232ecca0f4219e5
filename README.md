# Directory scan and option processing

This is a model of two small command-line scripts.

**`directory_info` (`5_cmd.py`)** walks a directory, flat or recursive. For
each entry it finds, it makes one `FileInfo` record with these fields:

- the name;
- the extension without its dot;
- whether the entry is a directory;
- the base name of the directory scanned;
- the joined path.

`main` then prints statistics about the records:

- how many are directories and how many are files;
- the file extensions found, counted in a dictionary and listed by decreasing count.

**`process_data` (`4_options_and_flags.py`)** upper-cases or lower-cases a
text according to the parity of a number, then repeats the result.

Modules:

- `PosixPath` (`posix_path.dfy`) models the three POSIX path helpers the walk
  uses: `os.path.join` with two arguments, `os.path.basename` and
  `os.path.splitext`.
- `DirectoryScan` (`directory_scan.dfy`) holds:
  - the filesystem as a finite tree of `Node`s;
  - the `FileInfo` record;
  - the specification function `Scan`;
  - the imperative `ScanDirectory`, whose recursion and loop follow
    `scan_directory` statement by statement and are proved equal to `Scan`.
- `ScanProperties` (`scan_properties.dfy`) proves what a walk returns:
  - one record per child in a flat walk;
  - the number of records in a recursive walk;
  - where a subdirectory's records sit;
  - that a subtree change or a listing failure stays contained;
  - that every record is well formed.
- `ScanPaths` (`scan_paths.dfy`) proves two facts for trees whose
  directories list names as `os.listdir` yields them:
  - no two records of a walk share a full path;
  - the records of a subdirectory's children name that subdirectory as
    their parent.
- `ScanStatistics` (`scan_statistics.dfy`) models the statistics block of
  `main`:
  - the directory and file counts;
  - the insertion-ordered extension dictionary;
  - the stable sort by count;
  - the `Statistics` method that computes them in a loop.
- `OptionsAndFlags` (`process_data.dfy`) models `process_data`.
- `Sequences` (`sequences.dfy`) holds generic lemmas about concatenating a
  sequence of blocks.

The filesystem is a value passed beside the path:

- `Missing` is a path that does not exist.
- `File` is anything that is not a directory.
- `Dir(listable, children)` is a directory. `children` lists the entries in
  the order `os.listdir` yields them. `listable == false` means
  `os.listdir` raises on it.
- The tree type also admits names `os.listdir` never yields: empty names,
  names containing `/`, `.`, `..`, and a name repeated within one
  directory. `ScanPaths.ValidNames` excludes them where a proof needs it.

Two facts about the order of the output:

- In a recursive walk, a subdirectory's sub-scan records come *before* its
  own record, because `extend` (5_cmd.py:64) runs before `append`
  (5_cmd.py:80).
- `sorted(..., key=lambda x: x[1], reverse=True)` (5_cmd.py:135) is stable.
  Extensions with equal counts are therefore listed in the order in which
  they first occur among the records, which is the dictionary's insertion
  order. They are not listed alphabetically.

## Model

| member | source | states |
|---|---|---|
| DirectoryScan.ScanDirectory | 5_cmd.py:26-92 | The list returned is `Scan(path, node, recursive)`. It is empty when the path is not a directory and when listing it raises. |
| DirectoryScan.ClassifyLaws | 5_cmd.py:52-80 | The record made for an item names the given parent and path. It is a directory exactly when the item is one. A directory keeps its name and has an empty extension. A file's name is `splitext`'s first part. An extension never holds a dot. Name, dot and extension give back the item's name. |
| PosixPath.RFindLaws | 5_cmd.py:47-67 | `str.rfind` is the helper `basename` (line 47) and `splitext` (line 67) use. The index it returns holds the character, and no later index does. |
| PosixPath.BasenameLaws | 5_cmd.py:47 | The base name is a suffix of the path with no separator. It is preceded by a separator unless it is the whole path. |
| PosixPath.JoinLaws | 5_cmd.py:51 | An absolute second part is the result. Otherwise the result is the first part, exactly one separator unless the first part is empty or ends in one, then the second part. |
| PosixPath.BasenameOfJoin | 5_cmd.py:47-51 | The base name of `join(a, b)` is `b` when `b` has no separator. |
| PosixPath.SplitExtParts | 5_cmd.py:67 | The two parts of `splitext` give back the path. A non-empty extension starts with its only dot and has no separator. |
| PosixPath.SplitExtHasExtension | 5_cmd.py:67 | `splitext` finds an extension exactly when the last component has a dot after a character that is not a dot. |
| PosixPath.RFindIsLast | 5_cmd.py:47-67 | `str.rfind`, the helper `basename` (line 47) and `splitext` (line 67) use, returns the one index that holds the character with none after it. |
| DirectoryScan.ExtensionWithoutDot | 5_cmd.py:67-69 | `ext[1:] if ext else ""` holds no dot. With the name, it gives back the item name. |
| ScanProperties.LevelBlocks | 5_cmd.py:50-80 | The records after the first `n` children are those children's blocks concatenated in listing order. Each block is the sub-scan's records followed by the child's own record. |
| ScanProperties.FlatLevel | 5_cmd.py:50-80 | In a flat walk, the records after `n` children are exactly one record per child. |
| ScanProperties.FlatScan | 5_cmd.py:50-80 | A flat scan of a listable directory yields one record per child, in listing order. Each record names the scanned directory's base name as its parent and the joined path as its full path, and is a directory exactly when the child is. |
| ScanProperties.ScanLength | 5_cmd.py:61-64 | A walk never yields more records than there are entries below the directory. A recursive walk of a fully listable tree yields exactly that many. |
| ScanProperties.SubScanBeforeOwnRecord | 5_cmd.py:61-80 | Child `i`'s records follow those of the children before it. They are first its own scan's records, then immediately its own record. |
| ScanProperties.SplitAt | 5_cmd.py:50-80 | The scan is the records before child `i`, then child `i`'s block, then the blocks after it. |
| ScanProperties.ReplaceSubtree | 5_cmd.py:61-64 | Giving one child a different subtree of the same kind changes only that child's sub-scan block. Every other record stays in place. |
| ScanProperties.ReplacedScan | 5_cmd.py:61-64 | The scan after such a replacement is the old prefix, the new sub-scan, the old own record and the old suffix. |
| ScanProperties.UnlistableSubdirectory | 5_cmd.py:63-92 | A subdirectory whose listing raises contributes nothing but its own record. The scan is the readable one with that subdirectory's block removed. |
| ScanProperties.ScanWellFormed | 5_cmd.py:54-80 | In every record a walk returns, a directory has an empty extension, and no extension holds a dot. |
| ScanPaths.ScanPathsDistinct | 5_cmd.py:50-80 | When every directory lists names as `os.listdir` yields them, no two records of a walk have the same full path. Every full path starts with the scanned path, followed by a separator (none is added when the path is empty or already ends with one). |
| ScanPaths.SubdirectoryRecordsNameIt | 5_cmd.py:47-63 | In the walk of a subdirectory, the record of each of its children names that subdirectory as its parent directory. This is because `basename(join(path, item))` is `item`. |
| ScanStatistics.DirsAndFiles | 5_cmd.py:121-122 | `len(files_info) - dir_count` is the number of records that are not directories. |
| ScanStatistics.ExtensionsOnFiles | 5_cmd.py:129-131 | Over well-formed records, at most `file_count` records carry an extension. |
| ScanStatistics.KeyIndexLaws | 5_cmd.py:131 | The dictionary lookup finds a key exactly when the key is present, and finds it at its position. |
| ScanStatistics.GetPut | 5_cmd.py:131 | After `extensions[e] = v`, key `e` reads `v`, every other key reads as before, and the keys stay distinct. |
| ScanStatistics.FirstLaws | 5_cmd.py:129-131 | The first-occurrence index is either the first record with the extension, or no record has it. |
| ScanStatistics.OccurrencesFirst | 5_cmd.py:129-131 | An extension occurs exactly when its first occurrence exists. |
| ScanStatistics.HistogramInvariant | 5_cmd.py:128-131 | The loop keeps the dictionary a histogram of the records seen so far. |
| ScanStatistics.HistogramCounts | 5_cmd.py:128-131 | The dictionary's keys are distinct and are exactly the non-empty extensions seen. Each key's count is its number of occurrences, and every count is positive. Keys come in order of first occurrence. |
| ScanStatistics.HistogramTotal | 5_cmd.py:128-131 | The counts add up to the number of records with an extension. |
| ScanStatistics.InsertPermutes | 5_cmd.py:135 | Inserting an item adds exactly that item. |
| ScanStatistics.InsertSorted | 5_cmd.py:135 | Inserting into a list of non-increasing counts keeps it non-increasing. |
| ScanStatistics.InsertStable | 5_cmd.py:135 | An insertion puts the item at the front of the items with its count and moves no other item. |
| ScanStatistics.SortByCountLaws | 5_cmd.py:135 | The listing is a permutation of the dictionary's items, by non-increasing count. For every count, items with that count keep their dictionary order (stability). |
| ScanStatistics.RankingTies | 5_cmd.py:128-136 | In the printed listing, extensions with equal counts appear in the order in which they first occur among the records. |
| ScanStatistics.Statistics | 5_cmd.py:121-135 | For the records: `dir_count` is the number of directory records; `file_count` is the number of the others; they sum to `len(files_info)`; the listing is the stably sorted dictionary that the loop collects. |
| ScanStatistics.ScanExtensionTotal | 5_cmd.py:112-136 | For the records of any walk, the extension counts add up to the number of records with an extension, which is at most `file_count`. |
| OptionsAndFlags.UpperLaws | 4_options_and_flags.py:22 | `upper()` keeps the length and changes nothing but lower-case letters. It leaves none of them, is idempotent, and `lower()` after it is `lower()` alone. |
| OptionsAndFlags.LowerLaws | 4_options_and_flags.py:22 | The mirror image for `lower()`. |
| OptionsAndFlags.RepeatLaws | 4_options_and_flags.py:29 | `s * n` has `len(s) * max(n, 0)` characters, and its character at `k` is `s[k % len(s)]`. |
| OptionsAndFlags.RepeatOnce | 4_options_and_flags.py:4-29 | `s * 1` is `s`. |
| OptionsAndFlags.ProcessDataLaws | 4_options_and_flags.py:4-31 | The result has `len(text) * max(repeat, 0)` characters. Character `k` is the upper-cased (even `number`) or lower-cased (odd `number`) character `k % len(text)` of the text. |
| OptionsAndFlags.ProcessDataDefaultRepeat | 4_options_and_flags.py:4-29 | With the default `repeat=1`, the result is the case-changed text itself. |
| OptionsAndFlags.ProcessDataNoRepeat | 4_options_and_flags.py:29 | A zero or negative `repeat` gives the empty string. |
| OptionsAndFlags.VerboseHasNoEffect | 4_options_and_flags.py:17-26 | `verbose` does not change the result. |
| OptionsAndFlags.NegativeNumbers | 4_options_and_flags.py:22 | Python's `%` makes -3 odd and -4 even: `process_data(-3, "MiXed")` is `"mixed"`, and `process_data(-4, "MiXed", 2)` is `"MIXEDMIXED"`. |

## Left out

- Logging and `print`: their output does not affect any result.
- `argparse` and both `main`'s argument handling: the model takes the parsed values as parameters.
- The output formats of `4_options_and_flags.py` (`plain`, `json`, `csv`): these are only printing.
- `setup_logging` (`5_cmd.py:11-24`): it writes only the log file and the console.
- The real filesystem is not modelled. The tree is a value, `os.listdir` is atomic, and nothing changes during a walk. Races where entries appear or vanish are out of scope.
- Symbolic links and permissions are not modelled beyond `listable`. The only error modelled is `os.listdir` raising on the directory being scanned. It raises before the loop starts, so the `except` branch (5_cmd.py:90-92) has nothing collected to drop.
- The recursion limit is not modelled. The recursive call (5_cmd.py:63) is inside the `try` of lines 45-92. On a tree deeper than Python's recursion limit (about 1000 frames), a nested call raises `RecursionError` in its unprotected lines 37-39. The enclosing level's `except` then returns `[]` and drops the records it had already collected for earlier siblings. The model walks a tree of any depth.
- `MemoryError` inside the loop is not modelled. It has the same effect as the recursion limit.
- File names that are not valid UTF-8 are not modelled. For them `os.listdir` yields strings with lone surrogates, and a Dafny `char` cannot hold a lone surrogate.
- A directory tree with cycles (a symbolic link to an ancestor) cannot be expressed: the tree is finite.
- Windows paths: the path helpers are the POSIX ones.
- `1_logger.py`, `2_datetime.py` and `3_planning.py` are not part of this model.
- OptionsAndFlags.UpperLaws: `str.upper` is modelled on ASCII letters only. Python also maps other Unicode letters, and `"ß".upper()` even changes the length.
- OptionsAndFlags.LowerLaws: `str.lower` is modelled on ASCII letters only, for the same reason.
- OptionsAndFlags.ProcessDataLaws: `number` and `repeat` are unbounded integers. A `repeat` so large that Python raises `MemoryError` or `OverflowError` is not modelled.
