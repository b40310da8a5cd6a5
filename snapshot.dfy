/**
 * `snapshot` (scripts/generate_manifest.py): the map from relative path to
 * (size, mtime in nanoseconds) that watch mode compares between ticks.
 */
module Snapshots {
  import opened Names
  import opened Scanner

  /**
   * A Python `dict[str, tuple[int, int]]`: its keys in insertion order (which
   * `sorted(snap.keys(), ...)` sees) and the mapping itself (which `!=` compares).
   */
  datatype Snap = Snap(order: seq<string>, stats: map<string, Stat>)

  /** The insertion order lists every key exactly once. */
  ghost predicate DictValid(d: Snap)
  {
    Distinct(d.order) && forall k :: k in d.order <==> k in d.stats
  }

  /** `d[k] = v`: a new key goes last, an existing key keeps its place and gets the new value. */
  function Put(d: Snap, k: string, v: Stat): (r: Snap)
    requires DictValid(d)
    ensures DictValid(r)
    ensures k in r.stats && r.stats[k] == v
    ensures forall k' :: k' != k ==> (k' in r.stats <==> k' in d.stats)
    ensures forall k' :: k' in d.stats && k' != k ==> r.stats[k'] == d.stats[k']
    ensures r.order == if k in d.stats then d.order else d.order + [k]
  {
    if k in d.stats then Snap(d.order, d.stats[k := v])
    else Snap(d.order + [k], d.stats[k := v])
  }

  /** The entries the scan records: they pass the scanner's filters and `stat()` succeeds. */
  predicate Recorded(e: Entry)
  {
    Qualifies(e) && e.stat.Some?
  }

  /** The dictionary the scan loop builds, entry by entry. */
  function SnapshotOf(tree: seq<Entry>): (d: Snap)
    ensures DictValid(d)
  {
    if |tree| == 0 then Snap([], map[])
    else
      var d := SnapshotOf(tree[..|tree| - 1]);
      var e := tree[|tree| - 1];
      if Recorded(e) then Put(d, RelPath(e), e.stat.value) else d
  }

  /**
   * `snapshot`: the same traversal and filters as the scanner; an entry whose
   * `stat()` fails is skipped and the loop goes on.
   */
  method TakeSnapshot(tree: seq<Entry>) returns (snap: Snap)
    ensures snap == SnapshotOf(tree)
    ensures DictValid(snap)
  {
    snap := Snap([], map[]);
    for i := 0 to |tree|
      invariant snap == SnapshotOf(tree[..i])
    {
      assert tree[..i + 1][..i] == tree[..i];
      var p := tree[i];
      if !p.isFile {
        continue;
      }
      if IsManifestName(PathName(p.parts)) {
        continue;
      }
      if !IsImage(PathName(p.parts)) {
        continue;
      }
      if p.stat.None? {
        continue;
      }
      snap := Put(snap, RelPath(p), p.stat.value);
    }
    assert tree[..|tree|] == tree;
  }

  /** Every recorded entry's path is a key. */
  lemma {:induction false} SnapshotComplete(tree: seq<Entry>, i: nat)
    requires i < |tree| && Recorded(tree[i])
    ensures RelPath(tree[i]) in SnapshotOf(tree).stats
  {
    var front := tree[..|tree| - 1];
    if i < |tree| - 1 {
      SnapshotComplete(front, i);
    }
  }

  /** Every key is the path of a recorded entry. */
  lemma {:induction false} SnapshotSound(tree: seq<Entry>, k: string)
    requires k in SnapshotOf(tree).stats
    ensures exists i :: 0 <= i < |tree| && Recorded(tree[i]) && RelPath(tree[i]) == k
  {
    var front := tree[..|tree| - 1];
    if k in SnapshotOf(front).stats {
      SnapshotSound(front, k);
      var i :| 0 <= i < |front| && Recorded(front[i]) && RelPath(front[i]) == k;
      assert tree[i] == front[i];
    }
  }

  /** The keys are exactly the paths of the filtered files whose `stat()` succeeded. */
  lemma SnapshotKeys(tree: seq<Entry>)
    ensures forall k :: k in SnapshotOf(tree).stats <==>
      exists i :: 0 <= i < |tree| && Recorded(tree[i]) && RelPath(tree[i]) == k
  {
    forall k ensures k in SnapshotOf(tree).stats <==>
      exists i :: 0 <= i < |tree| && Recorded(tree[i]) && RelPath(tree[i]) == k
    {
      if k in SnapshotOf(tree).stats {
        SnapshotSound(tree, k);
      }
      if i :| 0 <= i < |tree| && Recorded(tree[i]) && RelPath(tree[i]) == k {
        SnapshotComplete(tree, i);
      }
    }
  }

  /** With each path yielded once, a key maps to its own file's (size, mtime). */
  lemma {:induction false} SnapshotValue(tree: seq<Entry>, i: nat)
    requires forall a, b :: 0 <= a < b < |tree| ==> RelPath(tree[a]) != RelPath(tree[b])
    requires i < |tree| && Recorded(tree[i])
    ensures RelPath(tree[i]) in SnapshotOf(tree).stats
    ensures SnapshotOf(tree).stats[RelPath(tree[i])] == tree[i].stat.value
  {
    SnapshotComplete(tree, i);
    var front := tree[..|tree| - 1];
    if i < |tree| - 1 {
      SnapshotValue(front, i);
      assert RelPath(tree[i]) != RelPath(tree[|tree| - 1]);
    }
  }

  /**
   * A failing `stat()` drops that file and nothing else: with each path yielded
   * once, a filtered file is a key exactly when its `stat()` succeeded.
   */
  lemma {:induction false} StatFailureDropsOnlyThatFile(tree: seq<Entry>, i: nat)
    requires forall a, b :: 0 <= a < b < |tree| ==> RelPath(tree[a]) != RelPath(tree[b])
    requires i < |tree| && Qualifies(tree[i])
    ensures RelPath(tree[i]) in SnapshotOf(tree).stats <==> tree[i].stat.Some?
  {
    if tree[i].stat.Some? {
      SnapshotComplete(tree, i);
    } else if RelPath(tree[i]) in SnapshotOf(tree).stats {
      SnapshotSound(tree, RelPath(tree[i]));
      assert false;
    }
  }

  /**
   * With no `stat()` failure and each path yielded once, the keys in insertion
   * order are the scanner's unsorted list.
   */
  lemma {:induction false} SnapshotOrderIsScanOrder(tree: seq<Entry>)
    requires forall a, b :: 0 <= a < b < |tree| ==> RelPath(tree[a]) != RelPath(tree[b])
    requires forall i :: 0 <= i < |tree| && Qualifies(tree[i]) ==> tree[i].stat.Some?
    ensures SnapshotOf(tree).order == FilteredPaths(tree)
  {
    if |tree| > 0 {
      var front := tree[..|tree| - 1];
      var e := tree[|tree| - 1];
      SnapshotOrderIsScanOrder(front);
      if Recorded(e) && RelPath(e) in SnapshotOf(front).stats {
        SnapshotSound(front, RelPath(e));
        assert false;
      }
    }
  }
}
