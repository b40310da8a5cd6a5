/**
 * `run_watch` (scripts/generate_manifest.py): poll the tree, and regenerate the
 * manifest only when the snapshot differs from the previous one.
 */
module Watch {
  import opened Wrappers
  import opened Sorting
  import opened Scanner
  import opened ManifestWriter
  import opened Snapshots

  /**
   * One tick as a function of the stored snapshot `prev` and the tree: the new
   * `prev`, and the `write_manifest` call made (None when nothing changed;
   * `Err` when `with_suffix` raised, which the tick catches).
   */
  function Step(prev: map<string, Stat>, tree: seq<Entry>, out: seq<string>, now: string)
    : (r: (map<string, Stat>, Option<Result<Write, PathError>>))
    requires forall c :: c in out ==> NoSlash(c)
    ensures r.1.Some? <==> SnapshotOf(tree).stats != prev
    ensures r.0 == SnapshotOf(tree).stats
  {
    var snap := SnapshotOf(tree);
    if snap.stats != prev then
      (snap.stats, Some(WriteManifest(out, now, Listed(SortByKey(snap.order)))))
    else
      (prev, None)
  }

  /** The watch loop's state: the output path and the previous snapshot. */
  class Watcher {
    const out: seq<string>
    var prev: map<string, Stat>

    ghost predicate Valid()
    {
      forall c :: c in out ==> NoSlash(c)
    }

    /** `prev = {}` before the first tick. */
    constructor (out: seq<string>)
      requires forall c :: c in out ==> NoSlash(c)
      ensures Valid() && this.out == out && prev == map[]
    {
      this.out := out;
      prev := map[];
    }

    /**
     * One iteration of `while True`: take a snapshot; if it differs from `prev`,
     * store it first, then sort its keys and call `write_manifest`.
     */
    method Tick(tree: seq<Entry>, now: string) returns (attempt: Option<Result<Write, PathError>>)
      requires Valid()
      modifies this
      ensures Valid()
      ensures (prev, attempt) == Step(old(prev), tree, out, now)
      ensures attempt.Some? <==> SnapshotOf(tree).stats != old(prev)
      ensures attempt.None? ==> prev == old(prev)
      ensures attempt.Some? ==> prev == SnapshotOf(tree).stats
    {
      var snap := TakeSnapshot(tree);
      if snap.stats != prev {
        prev := snap.stats;
        var imgs := SortByLowerKey(snap.order);
        attempt := Some(WriteManifest(out, now, Listed(imgs)));
      } else {
        attempt := None;
      }
    }

    /**
     * A bounded run of the loop: tick `i` sees `trees[i]` at time `times[i]`.
     * A tick writes exactly when its snapshot differs from the one before it.
     */
    method Run(trees: seq<seq<Entry>>, times: seq<string>) returns (attempts: seq<Option<Result<Write, PathError>>>)
      requires Valid() && |times| == |trees|
      modifies this
      ensures Valid()
      ensures |attempts| == |trees|
      ensures forall i :: 0 <= i < |trees| ==>
        attempts[i] == Step(if i == 0 then old(prev) else SnapshotOf(trees[i - 1]).stats,
                            trees[i], out, times[i]).1
      ensures |trees| == 0 ==> prev == old(prev)
      ensures |trees| > 0 ==> prev == SnapshotOf(trees[|trees| - 1]).stats
    {
      attempts := [];
      for i := 0 to |trees|
        invariant Valid()
        invariant |attempts| == i
        invariant forall j :: 0 <= j < i ==>
          attempts[j] == Step(if j == 0 then old(prev) else SnapshotOf(trees[j - 1]).stats,
                              trees[j], out, times[j]).1
        invariant i == 0 ==> prev == old(prev)
        invariant i > 0 ==> prev == SnapshotOf(trees[i - 1]).stats
      {
        var a := Tick(trees[i], times[i]);
        attempts := attempts + [a];
      }
    }
  }

  /**
   * Two ticks over an unchanged tree: the second writes nothing, even when the
   * first one's write failed (its snapshot was stored before the write).
   */
  lemma UnchangedTreeWritesNothing(prev: map<string, Stat>, tree: seq<Entry>, out: seq<string>, t1: string, t2: string)
    requires forall c :: c in out ==> NoSlash(c)
    ensures Step(Step(prev, tree, out, t1).0, tree, out, t2).1 == None
    ensures Step(Step(prev, tree, out, t1).0, tree, out, t2).0 == Step(prev, tree, out, t1).0
  {
  }

  /**
   * Starting from `prev = {}`, the first tick writes only if some image file
   * was recorded: watch mode writes no manifest for a tree without images.
   */
  lemma FirstTickNeedsAnImage(tree: seq<Entry>, out: seq<string>, now: string)
    requires forall c :: c in out ==> NoSlash(c)
    ensures Step(map[], tree, out, now).1.Some? <==>
      exists i :: 0 <= i < |tree| && Recorded(tree[i])
  {
    SnapshotKeys(tree);
    if i :| 0 <= i < |tree| && Recorded(tree[i]) {
      assert RelPath(tree[i]) in SnapshotOf(tree).stats;
    }
  }

  /**
   * The list a tick writes: the new snapshot's keys, each once, sorted by
   * lowercased path, ties in traversal order; `count` is its length.
   */
  lemma WrittenImages(prev: map<string, Stat>, tree: seq<Entry>, out: seq<string>, now: string)
    requires forall c :: c in out ==> NoSlash(c)
    requires Step(prev, tree, out, now).1.Some?
    requires Step(prev, tree, out, now).1.value.Ok?
    ensures var w := Step(prev, tree, out, now).1.value.value;
      && w.dest == out
      && w.record.generatedAt == now
      && w.record.count == |w.record.images|
      && SortedByKey(w.record.images)
      && Distinct(w.record.images)
      && (forall k :: k in w.record.images <==> k in SnapshotOf(tree).stats)
      && (forall k :: WithKey(w.record.images, k) == WithKey(SnapshotOf(tree).order, k))
  {
    var snap := SnapshotOf(tree);
    var images := SortByKey(snap.order);
    SortByKeySorted(snap.order);
    SortByKeyPermutes(snap.order);
    DistinctMultiset(snap.order);
    DistinctMultiset(images);
    forall k ensures WithKey(images, k) == WithKey(snap.order, k) {
      SortByKeyStable(snap.order, k);
    }
    forall k ensures k in images <==> k in snap.stats {
      assert k in images <==> k in multiset(images);
      assert k in snap.order <==> k in multiset(snap.order);
    }
  }

  /**
   * When every filtered file can be stat'ed, a tick writes exactly the list the
   * scanner `enumerate_images` returns for the same tree.
   */
  lemma WrittenImagesMatchScanner(prev: map<string, Stat>, tree: seq<Entry>, out: seq<string>, now: string)
    requires forall c :: c in out ==> NoSlash(c)
    requires Traversal(tree)
    requires forall i :: 0 <= i < |tree| && Qualifies(tree[i]) ==> tree[i].stat.Some?
    requires Step(prev, tree, out, now).1.Some?
    requires Step(prev, tree, out, now).1.value.Ok?
    ensures Step(prev, tree, out, now).1.value.value.record.images == SortByKey(FilteredPaths(tree))
  {
    DistinctRelPaths(tree);
    SnapshotOrderIsScanOrder(tree);
  }
}
