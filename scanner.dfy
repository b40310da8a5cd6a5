/**
 * The scanner `enumerate_images` (scripts/generate_manifest.py): the directory
 * tree is given as the sequence of entries `root.rglob("*")` yields.
 */
module Scanner {
  import opened Wrappers
  import opened Names
  import opened Sorting

  /** The two fields of `os.stat_result` the tool reads. */
  datatype Stat = Stat(size: int, mtimeNs: int)

  /**
   * One path yielded by the recursive traversal: its components relative to the
   * root, whether `is_file()` holds, and the result of `stat()` (None when it fails).
   */
  datatype Entry = Entry(parts: seq<string>, isFile: bool, stat: Option<Stat>)

  predicate NoSlash(c: string)
  {
    forall j :: 0 <= j < |c| ==> c[j] != '/'
  }

  /** A relative path has at least one component and no component holds a separator. */
  predicate WellFormed(e: Entry)
  {
    |e.parts| >= 1 && forall c :: c in e.parts ==> NoSlash(c)
  }

  /** What `rglob` guarantees: well-formed entries, each path at most once. */
  predicate Traversal(tree: seq<Entry>)
  {
    (forall i :: 0 <= i < |tree| ==> WellFormed(tree[i])) &&
    (forall i, j :: 0 <= i < j < |tree| ==> tree[i].parts != tree[j].parts)
  }

  /** `.name` of a path given by its components: the final one; "" for the root. */
  function PathName(parts: seq<string>): string
  {
    if |parts| == 0 then "" else parts[|parts| - 1]
  }

  /** `as_posix()`: the components joined with `/`. */
  function Join(parts: seq<string>): string
  {
    if |parts| == 0 then ""
    else if |parts| == 1 then parts[0]
    else parts[0] + "/" + Join(parts[1..])
  }

  function RelPath(e: Entry): string
  {
    Join(e.parts)
  }

  /** Index of the first `/` in `s`, or -1. */
  function FirstSlash(s: string): (i: int)
    ensures -1 <= i < |s|
    ensures 0 <= i ==> s[i] == '/'
    ensures forall j :: 0 <= j < |s| && (i < 0 || j < i) ==> s[j] != '/'
  {
    if |s| == 0 then -1
    else if s[0] == '/' then 0
    else
      var k := FirstSlash(s[1..]);
      if k < 0 then -1 else k + 1
  }

  /** Splitting a relative POSIX path at every `/`: the inverse of `Join`. */
  function Split(s: string): seq<string>
    decreases |s|
  {
    var i := FirstSlash(s);
    if i < 0 then [s] else [s[..i]] + Split(s[i + 1..])
  }

  /** Joining components without separators loses nothing: splitting gives them back. */
  lemma {:induction false} SplitJoin(parts: seq<string>)
    requires |parts| >= 1 && forall c :: c in parts ==> NoSlash(c)
    ensures Split(Join(parts)) == parts
  {
    if |parts| == 1 {
      assert parts[0] in parts;
      assert FirstSlash(parts[0]) < 0;
    } else {
      var head, s := parts[0], Join(parts);
      assert NoSlash(head);
      assert s == head + "/" + Join(parts[1..]);
      assert s[|head|] == '/';
      assert FirstSlash(s) == |head|;
      assert s[..|head|] == head;
      assert s[|head| + 1..] == Join(parts[1..]);
      SplitJoin(parts[1..]);
    }
  }

  /** Distinct traversal entries have distinct relative path strings. */
  lemma DistinctRelPaths(tree: seq<Entry>)
    requires Traversal(tree)
    ensures forall i, j :: 0 <= i < j < |tree| ==> RelPath(tree[i]) != RelPath(tree[j])
  {
    forall i, j | 0 <= i < j < |tree| ensures RelPath(tree[i]) != RelPath(tree[j]) {
      assert WellFormed(tree[i]) && WellFormed(tree[j]);
      SplitJoin(tree[i].parts);
      SplitJoin(tree[j].parts);
    }
  }

  /**
   * The three tests of the scan loop: a regular file, not the manifest, an image.
   * The manifest test never decides the outcome.
   */
  predicate Qualifies(e: Entry): (b: bool)
    ensures b <==> e.isFile && IsImage(PathName(e.parts))
  {
    var name := PathName(e.parts);
    ManifestNameIsNotImage(name);
    e.isFile && !IsManifestName(name) && IsImage(name)
  }

  /** The relative paths of the qualifying entries, in traversal order (the list before sorting). */
  function FilteredPaths(tree: seq<Entry>): (r: seq<string>)
    ensures |r| <= |tree|
  {
    if |tree| == 0 then []
    else
      FilteredPaths(tree[..|tree| - 1])
      + (if Qualifies(tree[|tree| - 1]) then [RelPath(tree[|tree| - 1])] else [])
  }

  /** Every qualifying entry's path is kept. */
  lemma {:induction false} FilteredPathsComplete(tree: seq<Entry>, i: nat)
    requires i < |tree| && Qualifies(tree[i])
    ensures RelPath(tree[i]) in FilteredPaths(tree)
  {
    var front := tree[..|tree| - 1];
    if i < |tree| - 1 {
      FilteredPathsComplete(front, i);
    }
  }

  /** Every kept path belongs to a qualifying entry. */
  lemma {:induction false} FilteredPathsSound(tree: seq<Entry>, s: string)
    requires s in FilteredPaths(tree)
    ensures exists i :: 0 <= i < |tree| && Qualifies(tree[i]) && RelPath(tree[i]) == s
  {
    var front := tree[..|tree| - 1];
    if s in FilteredPaths(front) {
      FilteredPathsSound(front, s);
      var i :| 0 <= i < |front| && Qualifies(front[i]) && RelPath(front[i]) == s;
      assert tree[i] == front[i];
    }
  }

  /** The indices of the qualifying entries among the first `n`. */
  ghost function QualifyingIndices(tree: seq<Entry>, n: nat): set<nat>
    requires n <= |tree|
  {
    set i: nat | i < n && Qualifies(tree[i])
  }

  lemma QualifyingIndicesStep(tree: seq<Entry>, n: nat)
    requires 0 < n <= |tree|
    ensures QualifyingIndices(tree, n) ==
      QualifyingIndices(tree, n - 1) + (if Qualifies(tree[n - 1]) then {n - 1} else {})
    ensures n - 1 !in QualifyingIndices(tree, n - 1)
  {
    var extra: set<nat> := if Qualifies(tree[n - 1]) then {n - 1} else {};
    forall i: nat ensures i in QualifyingIndices(tree, n) <==> i in QualifyingIndices(tree, n - 1) + extra {
      if i == n - 1 {
        assert i in QualifyingIndices(tree, n) <==> Qualifies(tree[n - 1]);
      }
    }
  }

  lemma QualifyingIndicesPrefix(tree: seq<Entry>, m: nat)
    requires m <= |tree|
    ensures QualifyingIndices(tree[..m], m) == QualifyingIndices(tree, m)
  {
  }

  /** One path per qualifying entry: the list is as long as the number of qualifying files. */
  lemma {:induction false} FilteredPathsCount(tree: seq<Entry>)
    ensures |FilteredPaths(tree)| == |QualifyingIndices(tree, |tree|)|
  {
    var n := |tree|;
    if n > 0 {
      var front := tree[..n - 1];
      FilteredPathsCount(front);
      QualifyingIndicesPrefix(tree, n - 1);
      QualifyingIndicesStep(tree, n);
    } else {
      assert QualifyingIndices(tree, 0) == {};
    }
  }

  predicate Distinct(xs: seq<string>)
  {
    forall i, j :: 0 <= i < j < |xs| ==> xs[i] != xs[j]
  }

  /** A sequence is duplicate-free exactly when no element occurs twice in its multiset. */
  lemma {:induction false} DistinctMultiset(xs: seq<string>)
    ensures Distinct(xs) <==> forall x :: multiset(xs)[x] <= 1
  {
    if |xs| > 0 {
      var front, last := xs[..|xs| - 1], xs[|xs| - 1];
      DistinctMultiset(front);
      assert xs == front + [last];
      assert multiset(xs) == multiset(front) + multiset{last};
      if Distinct(xs) {
        assert last !in front;
        assert Distinct(front);
      } else {
        var i, j :| 0 <= i < j < |xs| && xs[i] == xs[j];
        if j < |xs| - 1 {
          assert front[i] == front[j];
          var x :| multiset(front)[x] > 1;
          assert multiset(xs)[x] > 1;
        } else {
          assert xs[i] in front;
          assert multiset(xs)[last] >= 2;
        }
      }
    }
  }

  /** With distinct traversal paths the filtered list repeats no path. */
  lemma {:induction false} FilteredPathsDistinct(tree: seq<Entry>)
    requires forall i, j :: 0 <= i < j < |tree| ==> RelPath(tree[i]) != RelPath(tree[j])
    ensures Distinct(FilteredPaths(tree))
  {
    if |tree| > 0 {
      var front := tree[..|tree| - 1];
      FilteredPathsDistinct(front);
      var last := tree[|tree| - 1];
      if Qualifies(last) && RelPath(last) in FilteredPaths(front) {
        FilteredPathsSound(front, RelPath(last));
        assert false;
      }
    }
  }

  /**
   * What the scanner promises of the sorted list: exactly the qualifying paths,
   * sorted by lowercased path, each key's paths in traversal order, a permutation
   * of the unsorted list, one entry per qualifying file.
   */
  lemma SortedImagesSpec(tree: seq<Entry>)
    ensures var images := SortByKey(FilteredPaths(tree));
      && (forall s :: s in images <==>
            exists i :: 0 <= i < |tree| && Qualifies(tree[i]) && RelPath(tree[i]) == s)
      && SortedByKey(images)
      && (forall k :: WithKey(images, k) == WithKey(FilteredPaths(tree), k))
      && multiset(images) == multiset(FilteredPaths(tree))
      && |images| == |QualifyingIndices(tree, |tree|)|
  {
    var unsorted := FilteredPaths(tree);
    var images := SortByKey(unsorted);
    SortByKeySorted(unsorted);
    SortByKeyPermutes(unsorted);
    FilteredPathsCount(tree);
    forall k ensures WithKey(images, k) == WithKey(unsorted, k) {
      SortByKeyStable(unsorted, k);
    }
    forall s ensures s in images <==>
      exists i :: 0 <= i < |tree| && Qualifies(tree[i]) && RelPath(tree[i]) == s
    {
      assert s in images <==> s in multiset(images);
      assert s in unsorted <==> s in multiset(unsorted);
      if s in unsorted {
        FilteredPathsSound(tree, s);
      }
      if i :| 0 <= i < |tree| && Qualifies(tree[i]) && RelPath(tree[i]) == s {
        FilteredPathsComplete(tree, i);
      }
    }
  }

  /**
   * `enumerate_images`: the loop appends the relative path of every qualifying
   * entry, then `images.sort(key=lambda s: s.lower())` sorts the list.
   */
  method EnumerateImages(tree: seq<Entry>) returns (images: seq<string>)
    ensures images == SortByKey(FilteredPaths(tree))
    ensures forall s :: s in images <==>
      exists i :: 0 <= i < |tree| && Qualifies(tree[i]) && RelPath(tree[i]) == s
    ensures SortedByKey(images)
    ensures forall k :: WithKey(images, k) == WithKey(FilteredPaths(tree), k)
    ensures multiset(images) == multiset(FilteredPaths(tree))
    ensures |images| == |QualifyingIndices(tree, |tree|)|
  {
    images := [];
    for i := 0 to |tree|
      invariant images == FilteredPaths(tree[..i])
    {
      assert tree[..i + 1][..i] == tree[..i];
      var p := tree[i];
      if !p.isFile {
        continue;
      }
      if IsManifestName(PathName(p.parts)) {
        continue;
      }
      if !IsImage(PathName(p.parts)) {
        continue;
      }
      images := images + [RelPath(p)];
    }
    assert tree[..|tree|] == tree;
    images := SortByLowerKey(images);
    SortedImagesSpec(tree);
  }

  /** A traversal that yields every path once gives a manifest that lists every image once. */
  lemma EnumerateImagesDistinct(tree: seq<Entry>)
    requires Traversal(tree)
    ensures Distinct(SortByKey(FilteredPaths(tree)))
  {
    DistinctRelPaths(tree);
    FilteredPathsDistinct(tree);
    SortByKeyPermutes(FilteredPaths(tree));
    DistinctMultiset(FilteredPaths(tree));
    DistinctMultiset(SortByKey(FilteredPaths(tree)));
  }

  lemma ExampleImageNames()
    ensures IsImage("a.JPG") && IsImage("B.png") && !IsImage("notes.txt")
  {
    ExampleSuffix("a.JPG", 1, ".jpg");
    ExampleSuffix("B.png", 1, ".png");
    ExampleSuffix("notes.txt", 5, ".txt");
  }

  lemma ExampleSuffix(name: string, p: int, e: string)
    requires 0 < p < |name| - 1 && name[p] == '.' && forall j :: p < j < |name| ==> name[j] != '.'
    requires |e| == |name| - p && forall j :: 0 <= j < |e| ==> LowerChar(name[p + j]) == e[j]
    ensures Lower(Suffix(name)) == e
  {
    var t := name[p..];
    SuffixAt(name, p);
    LowerAt(t);
    assert Lower(t) == e;
  }

  lemma ExampleManifestNames()
    ensures IsManifestName("manifest.json") && !IsManifestName("a.JPG") && !IsManifestName("B.png")
  {
    LowerNoCapitals("manifest.json");
  }

  lemma ExampleSorted()
    ensures SortByKey(["a.JPG", "B.png"]) == ["a.JPG", "B.png"]
  {
    var a, b := "a.JPG", "B.png";
    LowerAt(a);
    LowerAt(b);
    assert Key(a)[0] == 'a' && Key(b)[0] == 'b';
    assert KeyLe(a, b);
    assert SortByKey([a]) == [a] by { assert [a][..0] == []; }
    assert [a, b][..1] == [a];
  }

  lemma ExampleFiltered(st: Stat)
    ensures var tree := [Entry(["a.JPG"], true, Some(st)), Entry(["B.png"], true, Some(st)),
                         Entry(["notes.txt"], true, Some(st)), Entry(["manifest.json"], true, Some(st))];
      FilteredPaths(tree) == ["a.JPG", "B.png"]
  {
    ExampleImageNames();
    ExampleManifestNames();
    var tree := [Entry(["a.JPG"], true, Some(st)), Entry(["B.png"], true, Some(st)),
                 Entry(["notes.txt"], true, Some(st)), Entry(["manifest.json"], true, Some(st))];
    FilteredFirstTwo(tree);
  }

  /** Four entries of which only the first two qualify leave the first two paths. */
  lemma FilteredFirstTwo(tree: seq<Entry>)
    requires |tree| == 4 && Qualifies(tree[0]) && Qualifies(tree[1])
    requires !Qualifies(tree[2]) && !Qualifies(tree[3])
    ensures FilteredPaths(tree) == [RelPath(tree[0]), RelPath(tree[1])]
  {
    var a, b := RelPath(tree[0]), RelPath(tree[1]);
    assert tree[..0] == [];
    FilteredPrefixStep(tree, 1);
    assert FilteredPaths(tree[..1]) == [a];
    FilteredPrefixStep(tree, 2);
    assert FilteredPaths(tree[..2]) == [a, b];
    FilteredPrefixStep(tree, 3);
    assert FilteredPaths(tree[..3]) == [a, b];
    FilteredPrefixStep(tree, 4);
    assert tree[..4] == tree;
  }

  /** The unsorted list of a prefix grows by at most the prefix's last entry. */
  lemma FilteredPrefixStep(tree: seq<Entry>, k: nat)
    requires 0 < k <= |tree|
    ensures FilteredPaths(tree[..k]) ==
      FilteredPaths(tree[..k - 1]) + (if Qualifies(tree[k - 1]) then [RelPath(tree[k - 1])] else [])
  {
    assert tree[..k][..k - 1] == tree[..k - 1];
  }

  /**
   * A root holding `a.JPG`, `B.png`, `notes.txt` and `manifest.json` lists
   * `a.JPG` then `B.png`: the comparison ignores case, so `a` sorts before `B`.
   */
  lemma MixedCaseExample(st: Stat)
    ensures var tree := [Entry(["a.JPG"], true, Some(st)), Entry(["B.png"], true, Some(st)),
                         Entry(["notes.txt"], true, Some(st)), Entry(["manifest.json"], true, Some(st))];
      SortByKey(FilteredPaths(tree)) == ["a.JPG", "B.png"]
  {
    ExampleFiltered(st);
    ExampleSorted();
  }
}
