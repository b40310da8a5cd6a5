/**
 * The ordering `enumerate_images` and `run_watch` sort by: `key=lambda s: s.lower()`
 * with Python's string comparison (code point by code point) and a stable sort.
 */
module Sorting {
  import opened Names

  /** Python's `<=` on strings: lexicographic by code point, a prefix first. */
  predicate LexLe(a: string, b: string)
  {
    |a| == 0 || (|b| > 0 && (a[0] < b[0] || (a[0] == b[0] && LexLe(a[1..], b[1..]))))
  }

  lemma {:induction false} LexLeReflexive(a: string)
    ensures LexLe(a, a)
  {
    if |a| > 0 {
      LexLeReflexive(a[1..]);
    }
  }

  lemma {:induction false} LexLeTotal(a: string, b: string)
    ensures LexLe(a, b) || LexLe(b, a)
  {
    if |a| > 0 && |b| > 0 && a[0] == b[0] {
      LexLeTotal(a[1..], b[1..]);
    }
  }

  lemma {:induction false} LexLeAntisymmetric(a: string, b: string)
    requires LexLe(a, b) && LexLe(b, a)
    ensures a == b
  {
    if |a| > 0 && |b| > 0 {
      LexLeAntisymmetric(a[1..], b[1..]);
      assert a == [a[0]] + a[1..];
      assert b == [b[0]] + b[1..];
    }
  }

  lemma {:induction false} LexLeTransitive(a: string, b: string, c: string)
    requires LexLe(a, b) && LexLe(b, c)
    ensures LexLe(a, c)
  {
    if |a| > 0 && a[0] == b[0] && b[0] == c[0] {
      LexLeTransitive(a[1..], b[1..], c[1..]);
    }
  }

  /** The sort key: the lowercased path. */
  function Key(s: string): string
  {
    Lower(s)
  }

  /** `s` comes no later than `t` under the case-insensitive order. */
  predicate KeyLe(s: string, t: string)
  {
    LexLe(Key(s), Key(t))
  }

  /** Ordered non-decreasingly by lowercased key. */
  predicate SortedByKey(xs: seq<string>)
  {
    forall i, j :: 0 <= i < j < |xs| ==> KeyLe(xs[i], xs[j])
  }

  /** The elements of `xs` whose key is `k`, in the order they occur. */
  function WithKey(xs: seq<string>, k: string): seq<string>
  {
    if |xs| == 0 then []
    else WithKey(xs[..|xs| - 1], k) + (if Key(xs[|xs| - 1]) == k then [xs[|xs| - 1]] else [])
  }

  /**
   * Stable insertion into a sorted sequence: `x` goes after every element
   * whose key is no greater than its own.
   */
  function Insert(xs: seq<string>, x: string): (r: seq<string>)
    ensures |r| == |xs| + 1
  {
    if |xs| == 0 || KeyLe(xs[|xs| - 1], x) then xs + [x]
    else Insert(xs[..|xs| - 1], x) + [xs[|xs| - 1]]
  }

  /** The stable sort by lowercased key, as a reference definition (insertion sort). */
  function SortByKey(xs: seq<string>): (r: seq<string>)
    ensures |r| == |xs|
  {
    if |xs| == 0 then [] else Insert(SortByKey(xs[..|xs| - 1]), xs[|xs| - 1])
  }

  lemma {:induction false} InsertPermutes(xs: seq<string>, x: string)
    ensures multiset(Insert(xs, x)) == multiset(xs) + multiset{x}
  {
    if |xs| > 0 && !KeyLe(xs[|xs| - 1], x) {
      var front, last := xs[..|xs| - 1], xs[|xs| - 1];
      InsertPermutes(front, x);
      MultisetSnoc(Insert(front, x), front, last, x);
      assert xs == front + [last];
    }
  }

  lemma MultisetSnoc<T>(ins: seq<T>, front: seq<T>, last: T, x: T)
    requires multiset(ins) == multiset(front) + multiset{x}
    ensures multiset(ins + [last]) == multiset(front + [last]) + multiset{x}
  {
  }

  lemma {:induction false} InsertSorted(xs: seq<string>, x: string)
    requires SortedByKey(xs)
    ensures SortedByKey(Insert(xs, x))
  {
    var n := |xs|;
    if n == 0 {
    } else if KeyLe(xs[n - 1], x) {
      forall i | 0 <= i < n ensures KeyLe(xs[i], x) {
        if i < n - 1 {
          LexLeTransitive(Key(xs[i]), Key(xs[n - 1]), Key(x));
        }
      }
      AppendSorted(xs, x);
    } else {
      var front, top := xs[..n - 1], xs[n - 1];
      InsertSorted(front, x);
      LexLeTotal(Key(x), Key(top));
      InsertStaysBelow(front, x, top);
      AppendSorted(Insert(front, x), top);
    }
  }

  /** Appending an element whose key bounds every key keeps a sequence sorted. */
  lemma AppendSorted(xs: seq<string>, top: string)
    requires SortedByKey(xs) && forall i :: 0 <= i < |xs| ==> KeyLe(xs[i], top)
    ensures SortedByKey(xs + [top])
  {
  }

  /** Inserting below a bound keeps every element below it. */
  lemma InsertStaysBelow(front: seq<string>, x: string, top: string)
    requires KeyLe(x, top) && forall i :: 0 <= i < |front| ==> KeyLe(front[i], top)
    ensures forall i :: 0 <= i < |Insert(front, x)| ==> KeyLe(Insert(front, x)[i], top)
  {
    var ins := Insert(front, x);
    InsertPermutes(front, x);
    forall i | 0 <= i < |ins| ensures KeyLe(ins[i], top) {
      assert ins[i] in multiset(ins);
      assert ins[i] in multiset(front) || ins[i] == x;
      if ins[i] != x {
        var k :| 0 <= k < |front| && front[k] == ins[i];
      }
    }
  }

  /** Inserting `x` adds it to the run of its own key, after the elements already there. */
  lemma {:induction false} InsertWithKey(xs: seq<string>, x: string, k: string)
    ensures WithKey(Insert(xs, x), k) == WithKey(xs, k) + (if Key(x) == k then [x] else [])
  {
    var n := |xs|;
    if n == 0 {
      assert Insert(xs, x) == [x];
      assert [x][..0] == [];
    } else if KeyLe(xs[n - 1], x) {
      assert (xs + [x])[..n] == xs;
    } else {
      var front := xs[..n - 1];
      InsertWithKey(front, x, k);
      var ins := Insert(front, x);
      assert (ins + [xs[n - 1]])[..|ins|] == ins;
      if Key(x) == k && Key(xs[n - 1]) == k {
        LexLeReflexive(k);
      }
    }
  }

  /** The reference sort is sorted. */
  lemma {:induction false} SortByKeySorted(xs: seq<string>)
    ensures SortedByKey(SortByKey(xs))
  {
    if |xs| > 0 {
      SortByKeySorted(xs[..|xs| - 1]);
      InsertSorted(SortByKey(xs[..|xs| - 1]), xs[|xs| - 1]);
    }
  }

  /** The reference sort neither adds, drops nor duplicates an element. */
  lemma SortByKeyPermutes(xs: seq<string>)
    ensures multiset(SortByKey(xs)) == multiset(xs)
    ensures |SortByKey(xs)| == |xs|
  {
    SortByKeyMultiset(xs);
    assert |SortByKey(xs)| == |multiset(SortByKey(xs))|;
  }

  lemma {:induction false} SortByKeyMultiset(xs: seq<string>)
    ensures multiset(SortByKey(xs)) == multiset(xs)
  {
    if |xs| > 0 {
      var front, last := xs[..|xs| - 1], xs[|xs| - 1];
      SortByKeyMultiset(front);
      InsertPermutes(SortByKey(front), last);
      assert SortByKey(xs) == Insert(SortByKey(front), last);
      assert xs == front + [last];
      assert multiset(xs) == multiset(front) + multiset{last};
    }
  }

  /** The reference sort is stable: elements with equal keys keep their relative order. */
  lemma {:induction false} SortByKeyStable(xs: seq<string>, k: string)
    ensures WithKey(SortByKey(xs), k) == WithKey(xs, k)
  {
    if |xs| > 0 {
      SortByKeyStable(xs[..|xs| - 1], k);
      InsertWithKey(SortByKey(xs[..|xs| - 1]), xs[|xs| - 1], k);
    }
  }

  lemma {:induction false} WithKeyOccurs(xs: seq<string>, k: string)
    requires WithKey(xs, k) != []
    ensures exists i :: 0 <= i < |xs| && Key(xs[i]) == k
  {
    var n := |xs|;
    if Key(xs[n - 1]) != k {
      WithKeyOccurs(xs[..n - 1], k);
      var i :| 0 <= i < n - 1 && Key(xs[..n - 1][i]) == k;
      assert Key(xs[i]) == k;
    }
  }

  /** In a sequence sorted by key, every key that occurs is no greater than the last one. */
  lemma KeyBelowLast(xs: seq<string>, k: string)
    requires SortedByKey(xs) && WithKey(xs, k) != []
    ensures LexLe(k, Key(xs[|xs| - 1]))
  {
    WithKeyOccurs(xs, k);
    var i :| 0 <= i < |xs| && Key(xs[i]) == k;
    if i < |xs| - 1 {
      assert KeyLe(xs[i], xs[|xs| - 1]);
    } else {
      LexLeReflexive(k);
    }
  }

  /** Dropping the last element removes it from its own key's run and from no other. */
  lemma WithKeyDropLast(xs: seq<string>, k: string)
    requires |xs| > 0
    ensures WithKey(xs, k) ==
      WithKey(xs[..|xs| - 1], k) + (if Key(xs[|xs| - 1]) == k then [xs[|xs| - 1]] else [])
  {
  }

  lemma PrefixOfAppend(p: seq<string>, q: seq<string>, x: string, y: string)
    requires p + [x] == q + [y]
    ensures p == q && x == y
  {
    assert |p| == |q|;
    assert p == (p + [x])[..|p|];
    assert q == (q + [y])[..|q|];
    assert (p + [x])[|p|] == x;
  }

  /**
   * A stable sort by key has exactly one possible result: two sequences that are
   * both sorted by key and hold the same elements in the same order within each
   * key are equal.
   */
  lemma {:induction false} StableSortUnique(a: seq<string>, b: seq<string>)
    requires SortedByKey(a) && SortedByKey(b)
    requires forall k :: WithKey(a, k) == WithKey(b, k)
    ensures a == b
    decreases |a| + |b|
  {
    if |a| == 0 && |b| == 0 {
    } else if |a| == 0 {
      var k := Key(b[|b| - 1]);
      WithKeyDropLast(b, k);
      assert false;
    } else if |b| == 0 {
      var k := Key(a[|a| - 1]);
      WithKeyDropLast(a, k);
      assert false;
    } else {
      var x, y := a[|a| - 1], b[|b| - 1];
      var a', b' := a[..|a| - 1], b[..|b| - 1];
      WithKeyDropLast(a, Key(x));
      WithKeyDropLast(b, Key(y));
      assert WithKey(b, Key(x)) == WithKey(a, Key(x));
      assert WithKey(a, Key(y)) == WithKey(b, Key(y));
      KeyBelowLast(b, Key(x));
      KeyBelowLast(a, Key(y));
      LexLeAntisymmetric(Key(x), Key(y));
      PrefixOfAppend(WithKey(a', Key(x)), WithKey(b', Key(x)), x, y);
      forall k ensures WithKey(a', k) == WithKey(b', k) {
        WithKeyDropLast(a, k);
        WithKeyDropLast(b, k);
        assert WithKey(a, k) == WithKey(b, k);
        if k != Key(x) {
          assert WithKey(a', k) + [] == WithKey(a', k);
          assert WithKey(b', k) + [] == WithKey(b', k);
        }
      }
      StableSortUnique(a', b');
      assert a == a' + [x];
      assert b == b' + [y];
    }
  }

  /**
   * Whatever stable sort is used, its result is the reference sort: a sequence
   * sorted by key that keeps each key's elements in their input order is `SortByKey(xs)`.
   */
  lemma AnyStableSortIsSortByKey(xs: seq<string>, r: seq<string>)
    requires SortedByKey(r)
    requires forall k :: WithKey(r, k) == WithKey(xs, k)
    ensures r == SortByKey(xs)
  {
    SortByKeySorted(xs);
    forall k ensures WithKey(r, k) == WithKey(SortByKey(xs), k) {
      SortByKeyStable(xs, k);
    }
    StableSortUnique(r, SortByKey(xs));
  }

  /** One step of the shifting loop: `x` moves past an element with a larger key. */
  lemma InsertShift(sorted: seq<string>, j: nat, x: string)
    requires 0 < j <= |sorted| && !KeyLe(sorted[j - 1], x)
    ensures Insert(sorted[..j], x) + sorted[j..] == Insert(sorted[..j - 1], x) + sorted[j - 1..]
  {
    assert sorted[..j][..j - 1] == sorted[..j - 1];
    assert sorted[j - 1..] == [sorted[j - 1]] + sorted[j..];
  }

  /** Copying `zs[j - 1]` one place right keeps the hole-with-shifted-tail layout, one place further left. */
  lemma ShiftRight<T>(zs: seq<T>, sorted: seq<T>, j: nat, i: nat)
    requires 0 < j <= i < |zs| && |sorted| == i
    requires zs[..j] == sorted[..j] && zs[j + 1..i + 1] == sorted[j..]
    ensures zs[j := zs[j - 1]][..j - 1] == sorted[..j - 1]
    ensures zs[j := zs[j - 1]][j..i + 1] == sorted[j - 1..]
    ensures zs[j := zs[j - 1]][i + 1..] == zs[i + 1..]
  {
    var z := zs[j := zs[j - 1]];
    assert zs[j - 1] == sorted[j - 1];
    assert z[j..i + 1] == [sorted[j - 1]] + zs[j + 1..i + 1];
  }

  /** Filling the hole at `j` with `x`. */
  lemma FillHole<T>(zs: seq<T>, sorted: seq<T>, j: nat, i: nat, x: T)
    requires j <= i < |zs| && |sorted| == i
    requires zs[..j] == sorted[..j] && zs[j + 1..i + 1] == sorted[j..]
    ensures zs[j := x][..i + 1] == sorted[..j] + [x] + sorted[j..]
    ensures zs[j := x][i + 1..] == zs[i + 1..]
  {
    var z := zs[j := x];
    assert z[..i + 1] == z[..j] + [x] + z[j + 1..i + 1];
  }

  /**
   * One pass of the insertion sort: `ys[i]` moves left past every element of the
   * sorted prefix `ys[..i]` whose key is greater than its own.
   */
  method InsertAt(ys: seq<string>, i: nat) returns (zs: seq<string>)
    requires i < |ys|
    ensures |zs| == |ys|
    ensures zs[..i + 1] == Insert(ys[..i], ys[i])
    ensures zs[i + 1..] == ys[i + 1..]
  {
    var x := ys[i];
    ghost var sorted := ys[..i];
    zs := ys;
    var j := i;
    while j > 0 && !KeyLe(zs[j - 1], x)
      invariant 0 <= j <= i && |zs| == |ys|
      invariant zs[..j] == sorted[..j]
      invariant zs[j + 1..i + 1] == sorted[j..]
      invariant zs[i + 1..] == ys[i + 1..]
      invariant Insert(sorted, x) == Insert(sorted[..j], x) + sorted[j..]
    {
      ShiftRight(zs, sorted, j, i);
      InsertShift(sorted, j, x);
      zs := zs[j := zs[j - 1]];
      j := j - 1;
    }
    assert Insert(sorted[..j], x) == sorted[..j] + [x];
    FillHole(zs, sorted, j, i, x);
    zs := zs[j := x];
  }

  /**
   * `list.sort(key=lambda s: s.lower())` on a list held in a local variable:
   * a stable insertion sort.
   */
  method SortByLowerKey(xs: seq<string>) returns (ys: seq<string>)
    ensures ys == SortByKey(xs)
    ensures SortedByKey(ys) && multiset(ys) == multiset(xs)
  {
    ys := xs;
    var i := 0;
    while i < |ys|
      invariant |ys| == |xs| && 0 <= i <= |xs|
      invariant ys[..i] == SortByKey(xs[..i])
      invariant ys[i..] == xs[i..]
    {
      ys := InsertAt(ys, i);
      assert xs[..i + 1][..i] == xs[..i];
      i := i + 1;
    }
    assert ys == ys[..i] && xs == xs[..i];
    SortByKeySorted(xs);
    SortByKeyPermutes(xs);
  }
}
