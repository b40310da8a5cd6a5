# Image manifest builder, modelled in Dafny

`scripts/generate_manifest.py` scans an images directory recursively and writes
`manifest.json` for an image viewer: a record with the generation time, the
number of images and the list of image paths relative to the directory. The
list is sorted case-insensitively. In watch mode the script polls the tree.
Each poll takes a snapshot mapping each image path to its size and modification
time. It rewrites the manifest only when that snapshot differs from the
previous one.

The model abstracts the filesystem as the sequence of entries the recursive
traversal yields (`Scanner.Entry`). Each entry has the path's components
relative to the root, whether it is a regular file, and the result of `stat()`,
which is `None` when it fails. Everything else is modelled as the script does it:

- `names.dfy` (module `Names`): ASCII lowercasing, `pathlib`'s suffix of a
  name, the seven supported extensions, and `is_image`.
- `sorting.dfy` (module `Sorting`): Python string order on lowercased keys. It
  has a reference stable sort (`SortByKey`) and the in-place insertion sort that
  models `list.sort(key=...)` (`SortByLowerKey`). It also proves that every
  stable sort by that key gives the same result.
- `scanner.dfy` (module `Scanner`): `enumerate_images`, a loop that appends
  and then sorts; `as_posix` joining and its inverse.
- `manifest.dfy` (module `ManifestWriter`): the manifest record, the
  temporary sibling path built by `with_suffix`, `write_manifest` without its
  I/O, and `run_once`.
- `snapshot.dfy` (module `Snapshots`): `snapshot`, a loop that fills a
  dictionary. The dictionary keeps its insertion order, because
  `sorted(snap.keys())` is stable and sees that order.
- `watch.dfy` (module `Watch`): `run_watch` as a class holding `prev`, with
  one tick (`Tick`) and a bounded run of ticks (`Run`).

Facts proved beyond the script's own promises:

- The `manifest.json` exclusion never changes the result, because that name
  never passes `is_image`.
- The temporary file `<name>.tmp` is never listed as an image.
- A tick stores the new snapshot before it calls `write_manifest`. So if that
  write fails, the next tick over the same tree writes nothing: the failed write
  is not retried until the tree changes.
- Starting from the empty `prev`, watch mode writes no manifest at all for a
  tree without images.

## Model

| member | source | states |
|---|---|---|
| `Names.Lower` | scripts/generate_manifest.py:32 | `str.lower` as used by `is_image` (:32), the manifest-name tests (:41, :70) and both sort keys (:47, :96), on ASCII letters; it keeps the length, and `LowerAt`, `LowerIdempotent` and `SuffixLower` state how it acts character by character |
| `Names.IsManifestName` | scripts/generate_manifest.py:41-42 | the test `p.name.lower() == "manifest.json"` of the scan loops (:41-42 and :70-71); `ManifestNameIsNotImage` shows it never excludes an image |
| `Names.LastDot` | scripts/generate_manifest.py:32 | the position of the last `.` in a name (as `str.rfind`): -1 when there is none, otherwise a dot with no dot after it |
| `Names.Suffix` | scripts/generate_manifest.py:32 | `Path.suffix` of a name: the text from its last dot, or "" when that dot is the first or last character or there is none (definition; its properties are stated by the lemmas below) |
| `Names.IsImage` | scripts/generate_manifest.py:28-32 | `is_image`: the lowercased suffix is one of the seven supported extensions; an image name therefore has a suffix of at least four characters and something before it |
| `Names.IsImageIgnoresCase` | scripts/generate_manifest.py:31-32 | `is_image` gives the same answer for a name and for its lowercased form |
| `Names.IsImageIffEndsWith` | scripts/generate_manifest.py:28-32 | `is_image` holds exactly when the lowercased name ends with one of `.jpg .jpeg .png .gif .webp .bmp .svg` and at least one character comes before that extension (so a dot-file named `.jpg` is not an image) |
| `Names.ManifestNameIsNotImage` | scripts/generate_manifest.py:41-44 | a name equal to `manifest.json` in any case never passes `is_image`, so that test excludes nothing the extension test keeps |
| `Names.TmpNameIsNotImage` | scripts/generate_manifest.py:59 | a non-empty name with `.tmp` appended has suffix `.tmp` and is not an image |
| `Sorting.LexLe` | scripts/generate_manifest.py:47 | Python's `<=` on strings, code point by code point with a proper prefix first, as used by `sort` (:47) and `sorted` (:96); `LexLeReflexive`, `LexLeTotal`, `LexLeAntisymmetric` and `LexLeTransitive` make it a total order |
| `Sorting.SortByKey` | scripts/generate_manifest.py:47 | the reference stable sort by lowercased key (insertion sort); it keeps the length, and the lemmas below prove it sorted, a permutation and stable |
| `Sorting.SortByKeySorted` | scripts/generate_manifest.py:47 | the sorted list is non-decreasing by lowercased path under Python's string order |
| `Sorting.SortByKeyPermutes` | scripts/generate_manifest.py:47 | sorting neither adds, drops nor duplicates an element (same multiset, same length) |
| `Sorting.SortByKeyStable` | scripts/generate_manifest.py:47 | for every lowercased key, the elements with that key appear in the same relative order before and after sorting |
| `Sorting.StableSortUnique` | scripts/generate_manifest.py:47 | two sequences sorted by key that agree on the order within every key are equal |
| `Sorting.AnyStableSortIsSortByKey` | scripts/generate_manifest.py:47 | any result that is sorted by key and stable equals the reference sort, whichever stable algorithm Python uses |
| `Sorting.InsertAt` | scripts/generate_manifest.py:47 | one insertion pass: the prefix up to `i` becomes the stable insertion of element `i` into the sorted prefix; the rest is unchanged |
| `Sorting.SortByLowerKey` | scripts/generate_manifest.py:47 | the in-place sort yields the reference stable sort, which is sorted and a permutation of its input |
| `Scanner.PathName` | scripts/generate_manifest.py:41 | `p.name`: the final component of a path (:41, :70), and the name `with_suffix` replaces the suffix of (:59); "" for a path without components |
| `Scanner.RelPath` | scripts/generate_manifest.py:45 | `p.relative_to(root).as_posix()` (:45, :78): the entry's components joined by `Join`; `DistinctRelPaths` shows distinct entries give distinct strings |
| `Scanner.Join` | scripts/generate_manifest.py:45 | `as_posix()` of a relative path: its components joined with `/` (definition; `SplitJoin` states its inverse) |
| `Scanner.Qualifies` | scripts/generate_manifest.py:39-44 | the three tests of the scan loop; an entry passes exactly when it is a regular file whose name is an image, so the manifest-name test never decides |
| `Scanner.FilteredPaths` | scripts/generate_manifest.py:37-46 | the list the append loop builds, in traversal order; it has at most one path per entry (the lemmas below pin it down exactly) |
| `Scanner.SplitJoin` | scripts/generate_manifest.py:45 | splitting the `/`-joined relative path at `/` gives back its components |
| `Scanner.DistinctRelPaths` | scripts/generate_manifest.py:38-45 | distinct traversal entries have distinct relative path strings |
| `Scanner.FilteredPathsComplete` | scripts/generate_manifest.py:38-46 | every regular, non-manifest image entry's path is in the unsorted list |
| `Scanner.FilteredPathsSound` | scripts/generate_manifest.py:38-46 | every path in the unsorted list belongs to a regular, non-manifest image entry |
| `Scanner.FilteredPathsCount` | scripts/generate_manifest.py:37-46 | the unsorted list has one element per qualifying entry |
| `Scanner.FilteredPathsDistinct` | scripts/generate_manifest.py:38-46 | when traversal paths are distinct, the unsorted list repeats no path |
| `Scanner.SortedImagesSpec` | scripts/generate_manifest.py:35-48 | the scanner's result holds exactly the qualifying paths, is sorted by lowercased path, keeps traversal order within equal keys, is a permutation of the unsorted list, and has one element per qualifying file |
| `Scanner.EnumerateImages` | scripts/generate_manifest.py:35-48 | the append loop followed by the sort returns the reference sort of the filtered paths, with every property of `SortedImagesSpec` |
| `Scanner.EnumerateImagesDistinct` | scripts/generate_manifest.py:38-47 | a traversal that yields each path once gives a list with each image once |
| `Scanner.MixedCaseExample` | scripts/generate_manifest.py:35-48 | `a.JPG`, `B.png`, `notes.txt`, `manifest.json` give `["a.JPG", "B.png"]` |
| `ManifestWriter.Materialize` | scripts/generate_manifest.py:55-56 | `list(images)`: the items, and the argument as it is afterwards (a list unchanged, a one-shot iterator drained); `ManifestAsWritten` applies it twice |
| `ManifestWriter.ManifestAsWritten` | scripts/generate_manifest.py:53-57 | the record as the code builds it, with two `list(images)` calls: `generatedAt` is the given time and `count` is always the number of items |
| `ManifestWriter.OneShotSourceLosesImages` | scripts/generate_manifest.py:55-56 | given a non-empty one-shot iterator, the code as written records the right `count` and an empty `images` |
| `ManifestWriter.BuildManifest` | scripts/generate_manifest.py:53-57 | the record carries the given timestamp, `images` equals the given list element for element, and `count` is its length |
| `ManifestWriter.AsWrittenAgreesOnLists` | scripts/generate_manifest.py:53-57 | for a list argument (what both callers pass) the code as written builds exactly that record |
| `ManifestWriter.WithSuffix` | scripts/generate_manifest.py:59 | `with_suffix` succeeds exactly when the suffix is valid and the path has a name; the result stays in the same directory |
| `ManifestWriter.TempPath` | scripts/generate_manifest.py:59 | `out_path.with_suffix(out_path.suffix + ".tmp")`; when it succeeds the output path has a name and the result is in the same directory |
| `ManifestWriter.ReplaceSuffixAppends` | scripts/generate_manifest.py:59 | replacing a name's suffix with that suffix plus `.tmp` appends `.tmp` to the name, and that suffix is one `with_suffix` accepts |
| `ManifestWriter.TempPathSibling` | scripts/generate_manifest.py:59 | the temporary path is the output path with `.tmp` appended to its final name, in the same directory; it never equals the output path and is never an image; it fails only when the output path has no name |
| `ManifestWriter.DefaultTempPath` | scripts/generate_manifest.py:59 | `<dir>/manifest.json` is written through `<dir>/manifest.json.tmp` |
| `ManifestWriter.WriteManifest` | scripts/generate_manifest.py:51-61 | a write targets the output path through its `.tmp` sibling and fails exactly when the output path has no name; the record, built as the code builds it, has the given time and the number of items as `count`; for a list it is the intended record with `images` equal to the list, for a one-shot iterator `images` is empty |
| `ManifestWriter.RunOnce` | scripts/generate_manifest.py:82-85 | one-off mode writes the scanner's sorted list, with `count` equal to the number of qualifying files |
| `Snapshots.Put` | scripts/generate_manifest.py:78 | a dictionary store keeps each key exactly once in insertion order and sets the key's value; every other key stays present or absent, with its old value; the order is unchanged for an existing key and gains the new key at the end otherwise |
| `Snapshots.SnapshotOf` | scripts/generate_manifest.py:64-79 | the snapshot dictionary's insertion order lists each of its keys exactly once |
| `Snapshots.TakeSnapshot` | scripts/generate_manifest.py:64-79 | the scan loop, which skips entries whose `stat()` fails, builds the snapshot dictionary |
| `Snapshots.SnapshotComplete` | scripts/generate_manifest.py:67-78 | every filtered entry whose `stat()` succeeded is a key |
| `Snapshots.SnapshotSound` | scripts/generate_manifest.py:67-78 | every key is the path of a filtered entry whose `stat()` succeeded |
| `Snapshots.SnapshotKeys` | scripts/generate_manifest.py:67-78 | the key set is exactly the paths of the filtered files whose `stat()` succeeded |
| `Snapshots.SnapshotValue` | scripts/generate_manifest.py:74-78 | with each path yielded once, a key maps to its own file's (size, mtime) |
| `Snapshots.StatFailureDropsOnlyThatFile` | scripts/generate_manifest.py:74-77 | with each path yielded once, a filtered file is a key exactly when its own `stat()` succeeded: a failure drops that key only and the scan goes on |
| `Snapshots.SnapshotOrderIsScanOrder` | scripts/generate_manifest.py:67-78 | with no `stat()` failure and each path yielded once, the keys in insertion order are the scanner's unsorted list |
| `Watch.Step` | scripts/generate_manifest.py:93-98 | a tick writes exactly when the new snapshot differs from `prev`, and afterwards `prev` is the new snapshot |
| `Watch.Watcher.constructor` | scripts/generate_manifest.py:90 | the loop starts with an empty `prev` |
| `Watch.Watcher.Tick` | scripts/generate_manifest.py:92-98 | a tick writes exactly when the snapshot differs from `prev`; a writing tick replaces `prev` with the snapshot; a non-writing tick leaves `prev` unchanged; the written list is the snapshot keys sorted by lowercased path |
| `Watch.Watcher.Run` | scripts/generate_manifest.py:91-104 | over a bounded run, tick `i` writes exactly when its snapshot differs from the previous tick's snapshot (from the initial `prev` for the first tick) |
| `Watch.UnchangedTreeWritesNothing` | scripts/generate_manifest.py:94-95 | a second tick over an unchanged tree writes nothing and leaves `prev` unchanged, even when the first tick's write failed |
| `Watch.FirstTickNeedsAnImage` | scripts/generate_manifest.py:90-94 | from the empty `prev`, the first tick writes exactly when some image file was recorded |
| `Watch.WrittenImages` | scripts/generate_manifest.py:96-97 | a tick's write goes to the output path; its list holds each snapshot key exactly once, sorted by lowercased path, ties in insertion order; `count` is its length |
| `Watch.WrittenImagesMatchScanner` | scripts/generate_manifest.py:93-97 | when every filtered file can be stat'ed, a tick writes the same list `enumerate_images` returns for that tree |

## Left out

- Filesystem traversal (`rglob`, `is_file`, `stat`, `relative_to`) is replaced by the input sequence of entries. The model takes the traversal order as given and assumes each path appears once (`Scanner.Traversal`).
- Lowercasing is ASCII-only. Python's `str.lower` also lowers non-ASCII letters and can change a string's length.
- `Path.suffix` follows `pathlib` as in Python 3.12 and 3.13: a trailing single dot gives no suffix. Python 3.14 treats it as a suffix; `is_image` and the temporary path are the same either way.
- JSON serialization, `mkdir`, `write_text` and the atomic `replace` are not modelled. Only the record and the two paths handed to the filesystem are.
- The timestamp is an input string. `time.gmtime` and `strftime` are not modelled.
- The float fallback `int(st.st_mtime * 1e9)` is not modelled; mtime is an opaque integer.
- The watch loop: `time.sleep`, the float interval, the infinite `while True` (a bounded run instead) and `KeyboardInterrupt` are not modelled. Among exceptions, only `with_suffix`'s `ValueError` is modelled (as `Err`). OS errors while writing do not change the modelled state, since `prev` is stored before the write. A traversal that raises mid-tick (which leaves `prev` unchanged) is not modelled.
- `main` (argument parsing, path resolution, the missing-directory exit) and the progress messages are not modelled.
- `api/github-proxy.js`, an HTTP proxy, is not part of this model.

## Findings

| source | as written | input that shows it | evidently intended | confidence | as-written member | corrected member |
|---|---|---|---|---|---|---|
| scripts/generate_manifest.py:55-56 | `count` comes from `len(list(images))` and `images` from a second `list(images)` of the same `Iterable` | a generator yielding `"a.jpg"` gives `count` 1 and `images` `[]` | materialize the argument once, so `count == len(images)` | medium; not executed; both callers pass lists, so the defect is latent | `ManifestWriter.OneShotSourceLosesImages` | `ManifestWriter.BuildManifest` |
