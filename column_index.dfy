/**
 * Column deduplication: `_indexed` of cogent/evolve/likelihood_tree.py.
 * A sequence of keys (motifs of a leaf, tuples of child indices of an edge) becomes
 * the distinct keys in first-occurrence order, a count per distinct key and, per
 * position, the index of its key among the distinct ones.
 */
module ColumnIndex {
  import opened Wrappers

  /** The triple `(unique, counts, index)` returned by `_indexed`. */
  datatype Indexing<K> = Indexing(unique: seq<K>, counts: seq<nat>, index: seq<nat>)

  /** One pass of the loop body of `_indexed` over the next key. */
  function Step<K(==)>(acc: Indexing<K>, key: K): Indexing<K>
    requires |acc.counts| == |acc.unique|
  {
    if key in acc.unique then
      var i := IndexOf(acc.unique, key);
      Indexing(acc.unique, acc.counts[i := acc.counts[i] + 1], acc.index + [i])
    else
      Indexing(acc.unique + [key], acc.counts + [1], acc.index + [|acc.unique|])
  }

  /** `_indexed(values)`, as the left-to-right fold its loop performs. */
  function Indexed<K(==)>(values: seq<K>): (r: Indexing<K>)
    ensures |r.counts| == |r.unique| && |r.index| == |values|
  {
    if values == [] then Indexing([], [], [])
    else Step(Indexed(values[..|values| - 1]), values[|values| - 1])
  }

  ghost predicate Distinct<K>(s: seq<K>)
  {
    forall i, j :: 0 <= i < j < |s| ==> s[i] != s[j]
  }

  /** Every position maps back to its own key. */
  ghost predicate MapsBack<K>(values: seq<K>, r: Indexing<K>)
  {
    && |r.index| == |values|
    && forall c :: 0 <= c < |values| ==> r.index[c] < |r.unique| && r.unique[r.index[c]] == values[c]
  }

  /** The distinct keys are keys of `values`, listed in the order of their first occurrence. */
  ghost predicate FirstOccurrenceOrder<K>(values: seq<K>, r: Indexing<K>)
  {
    && (forall i :: 0 <= i < |r.unique| ==> r.unique[i] in values)
    && (forall i, j :: 0 <= i < j < |r.unique| ==> IndexOf(values, r.unique[i]) < IndexOf(values, r.unique[j]))
  }

  /** `counts[i]` is the number of positions whose index is `i`, hence at least one. */
  ghost predicate CountsPositions<K>(r: Indexing<K>)
  {
    && |r.counts| == |r.unique|
    && Tallies(r.counts, r.index)
  }

  /**
   * What `_indexed` promises: every position maps back to its own key, the distinct keys
   * have no repeats and appear in the order of their first occurrence, and `counts[i]`
   * is the number of positions whose index is `i` (so it is at least one, and the
   * counts add up to the number of positions).
   */
  ghost predicate IndexesCorrectly<K>(values: seq<K>, r: Indexing<K>)
  {
    && MapsBack(values, r)
    && Distinct(r.unique)
    && FirstOccurrenceOrder(values, r)
    && CountsPositions(r)
    && Sum(r.counts) == |values|
  }

  lemma {:induction false} StepMapsBack<K>(p: seq<K>, x: K, acc: Indexing<K>)
    requires |acc.counts| == |acc.unique| && MapsBack(p, acc)
    ensures MapsBack(p + [x], Step(acc, x))
  {
    var values, r := p + [x], Step(acc, x);
    forall c | 0 <= c < |values|
      ensures r.index[c] < |r.unique| && r.unique[r.index[c]] == values[c]
    {
      if c < |p| {
        assert r.index[c] == acc.index[c];
      }
    }
  }

  lemma {:induction false} StepDistinct<K>(acc: Indexing<K>, x: K)
    requires |acc.counts| == |acc.unique| && Distinct(acc.unique)
    ensures Distinct(Step(acc, x).unique)
  {
  }

  /** Positions of first occurrence in `p` do not move when `x` is appended. */
  lemma {:induction false} FirstPositionsKept<K>(p: seq<K>, x: K, u: seq<K>)
    requires forall i :: 0 <= i < |u| ==> u[i] in p
    ensures forall i :: 0 <= i < |u| ==> IndexOf(p + [x], u[i]) == IndexOf(p, u[i])
  {
    forall i | 0 <= i < |u|
      ensures IndexOf(p + [x], u[i]) == IndexOf(p, u[i])
    {
      IndexOfPrefix(p, [x], u[i]);
    }
  }

  lemma {:induction false} KeyOutsideUniqueOutsideValues<K>(p: seq<K>, acc: Indexing<K>, x: K)
    requires MapsBack(p, acc) && x !in acc.unique
    ensures x !in p
  {
    forall c | 0 <= c < |p|
      ensures p[c] != x
    {
      assert acc.unique[acc.index[c]] == p[c];
    }
  }

  lemma {:induction false} BoundedMultiplicity(s: seq<nat>, k: nat)
    requires forall c :: 0 <= c < |s| ==> s[c] < k
    ensures multiset(s)[k] == 0
  {
    assert k !in s;
  }

  lemma {:induction false} StepOrderSeen<K>(p: seq<K>, x: K, acc: Indexing<K>)
    requires |acc.counts| == |acc.unique| && FirstOccurrenceOrder(p, acc) && x in acc.unique
    ensures FirstOccurrenceOrder(p + [x], Step(acc, x))
  {
    FirstPositionsKept(p, x, acc.unique);
  }

  /** Appending a key never seen before keeps the first-occurrence order of the distinct keys `u`. */
  lemma {:induction false} FirstOccurrenceOrderAppend<K>(p: seq<K>, x: K, u: seq<K>)
    requires forall i :: 0 <= i < |u| ==> u[i] in p
    requires forall i, j :: 0 <= i < j < |u| ==> IndexOf(p, u[i]) < IndexOf(p, u[j])
    requires x !in p
    ensures forall i, j :: 0 <= i < j < |u| + 1 ==> IndexOf(p + [x], (u + [x])[i]) < IndexOf(p + [x], (u + [x])[j])
  {
    var values, v := p + [x], u + [x];
    FirstPositionsKept(p, x, u);
    assert IndexOf(values, x) == |p| by {
      assert values[|p|] == x;
      assert values[..|p|] == p;
    }
    forall i, j | 0 <= i < j < |v|
      ensures IndexOf(values, v[i]) < IndexOf(values, v[j])
    {
      assert v[i] == u[i];
      if j == |u| {
        assert IndexOf(p, u[i]) < |p|;
      } else {
        assert v[j] == u[j];
      }
    }
  }

  lemma {:induction false} StepOrderNew<K>(p: seq<K>, x: K, acc: Indexing<K>)
    requires |acc.counts| == |acc.unique| && MapsBack(p, acc) && FirstOccurrenceOrder(p, acc) && x !in acc.unique
    ensures FirstOccurrenceOrder(p + [x], Step(acc, x))
  {
    KeyOutsideUniqueOutsideValues(p, acc, x);
    FirstOccurrenceOrderAppend(p, x, acc.unique);
  }

  /** `counts[j]` is the number of entries `j` of `index`, and is positive. */
  ghost predicate Tallies(counts: seq<nat>, index: seq<nat>)
  {
    forall j :: 0 <= j < |counts| ==> counts[j] == multiset(index)[j] && counts[j] >= 1
  }

  lemma {:induction false} TalliesBump(counts: seq<nat>, index: seq<nat>, i: nat)
    requires Tallies(counts, index) && i < |counts|
    ensures Tallies(counts[i := counts[i] + 1], index + [i])
  {
    assert multiset(index + [i]) == multiset(index) + multiset{i};
  }

  lemma {:induction false} TalliesAppend(counts: seq<nat>, index: seq<nat>)
    requires Tallies(counts, index) && forall c :: 0 <= c < |index| ==> index[c] < |counts|
    ensures Tallies(counts + [1], index + [|counts|])
  {
    var k := |counts|;
    assert multiset(index + [k]) == multiset(index) + multiset{k};
    BoundedMultiplicity(index, k);
    forall j | 0 <= j < k + 1
      ensures (counts + [1])[j] == multiset(index + [k])[j] && (counts + [1])[j] >= 1
    {
      if j < k {
        assert (counts + [1])[j] == counts[j];
      }
    }
  }

  lemma {:induction false} StepCounts<K>(p: seq<K>, x: K, acc: Indexing<K>)
    requires MapsBack(p, acc) && CountsPositions(acc)
    ensures CountsPositions(Step(acc, x))
    ensures Sum(Step(acc, x).counts) == Sum(acc.counts) + 1
  {
    if x in acc.unique {
      var i := IndexOf(acc.unique, x);
      TalliesBump(acc.counts, acc.index, i);
      SumIncrement(acc.counts, i);
    } else {
      TalliesAppend(acc.counts, acc.index);
      SumAppend(acc.counts, [1]);
      assert Sum([1]) == 1 by { assert [1][..0] == []; }
    }
  }

  lemma {:induction false} IndexedCorrect<K>(values: seq<K>)
    ensures IndexesCorrectly(values, Indexed(values))
  {
    if values != [] {
      var p, x := values[..|values| - 1], values[|values| - 1];
      assert values == p + [x];
      IndexedCorrect(p);
      var acc := Indexed(p);
      StepMapsBack(p, x, acc);
      StepDistinct(acc, x);
      StepCounts(p, x, acc);
      if x in acc.unique {
        StepOrderSeen(p, x, acc);
      } else {
        StepOrderNew(p, x, acc);
      }
    }
  }

  /** Two positions share an index exactly when they hold the same key. */
  lemma {:induction false} IndexedSameKeySameIndex<K>(values: seq<K>, c: nat, d: nat)
    requires c < |values| && d < |values|
    ensures Indexed(values).index[c] == Indexed(values).index[d] <==> values[c] == values[d]
  {
    IndexedCorrect(values);
  }

  /** Every column maps back to its own key. */
  lemma IndexedMapsBack<K>(values: seq<K>)
    ensures MapsBack(values, Indexed(values))
  {
    IndexedCorrect(values);
  }

  /** The distinct keys come in the order of their first occurrence. */
  lemma IndexedOrder<K>(values: seq<K>)
    ensures FirstOccurrenceOrder(values, Indexed(values))
  {
    IndexedCorrect(values);
  }

  /** A distinct key that occurs earlier in the values comes earlier among the distinct keys. */
  lemma IndexedOrderBack<K>(values: seq<K>, a: nat, b: nat)
    requires a < |Indexed(values).unique| && b < |Indexed(values).unique|
    requires Indexed(values).unique[a] in values && Indexed(values).unique[b] in values
    requires IndexOf(values, Indexed(values).unique[a]) < IndexOf(values, Indexed(values).unique[b])
    ensures a < b
  {
    IndexedOrder(values);
  }

  /** Every distinct key comes from the values. */
  lemma IndexedUniqueFromValues<K>(values: seq<K>)
    ensures forall k :: 0 <= k < |Indexed(values).unique| ==> Indexed(values).unique[k] in values
  {
    IndexedCorrect(values);
  }

  /** Deduplicating indices below a bound gives distinct indices below that bound. */
  lemma IndexedBounded(values: seq<nat>, bound: nat)
    requires forall c :: 0 <= c < |values| ==> values[c] < bound
    ensures forall k :: 0 <= k < |Indexed<nat>(values).unique| ==> Indexed<nat>(values).unique[k] < bound
  {
    IndexedUniqueFromValues(values);
  }

  lemma IndexedUniqueDistinct<K>(values: seq<K>)
    ensures Distinct(Indexed(values).unique)
  {
    IndexedCorrect(values);
  }

  lemma IndexedSnoc<K>(values: seq<K>, c: nat)
    requires c < |values|
    ensures Indexed(values[..c + 1]) == Step(Indexed(values[..c]), values[c])
  {
    assert values[..c + 1][..c] == values[..c];
  }

  /** In a sequence without repeats, an element is first found at its own position. */
  lemma IndexOfDistinct<K>(s: seq<K>, k: nat)
    requires Distinct(s) && k < |s|
    ensures IndexOf(s, s[k]) == k
  {
  }

  /** Every distinct key is the index of some position: of the key's first occurrence. */
  lemma IndexedCovers<K>(values: seq<K>, w: nat)
    requires w < |Indexed(values).unique|
    ensures Indexed(values).unique[w] in values
    ensures IndexOf(values, Indexed(values).unique[w]) < |values|
    ensures Indexed(values).index[IndexOf(values, Indexed(values).unique[w])] == w
  {
    var r := Indexed(values);
    IndexedUniqueFromValues(values);
    IndexedMapsBack(values);
    IndexedUniqueDistinct(values);
    var f := IndexOf(values, r.unique[w]);
    assert r.unique[r.index[f]] == r.unique[w];
  }

  /**
   * `labels` is a canonical relabelling from `lo` on: every label is at least `lo`, and
   * each label's smaller labels from `lo` on all occur before it.
   */
  ghost predicate Canon(labels: seq<nat>, lo: nat)
  {
    && (forall j :: 0 <= j < |labels| ==> lo <= labels[j])
    && forall j, w :: 0 <= j < |labels| && lo <= w < labels[j] ==> w in labels[..j]
  }

  /** A key's first occurrence is at or before any occurrence of it. */
  lemma IndexOfFirst<K>(s: seq<K>, j: nat)
    requires j < |s|
    ensures IndexOf(s, s[j]) <= j
  {
  }

  /** Column `j`'s key first occurs at or before `j`. */
  lemma IndexedFirstBefore<K>(values: seq<K>, j: nat)
    requires j < |values|
    ensures Indexed(values).index[j] < |Indexed(values).unique|
    ensures Indexed(values).unique[Indexed(values).index[j]] in values
    ensures IndexOf(values, Indexed(values).unique[Indexed(values).index[j]]) <= j
  {
    IndexedMapsBack(values);
    IndexOfFirst(values, j);
  }

  /** A smaller index than column `j`'s occurs before column `j`. */
  lemma IndexedLabelBefore<K>(values: seq<K>, j: nat, w: nat)
    requires j < |values| && w < Indexed(values).index[j]
    ensures w in Indexed(values).index[..j]
  {
    var r := Indexed(values);
    var u := r.index[j];
    IndexedFirstBefore(values, j);
    IndexedCovers(values, w);
    IndexedOrder(values);
    var f := IndexOf(values, r.unique[w]);
    assert f < j;
    assert r.index[..j][f] == w;
  }

  /** The index `_indexed` computes is canonical: the distinct keys are numbered in order of first occurrence. */
  lemma IndexedLabels<K>(values: seq<K>)
    ensures Canon(Indexed(values).index, 0)
  {
    var r := Indexed(values);
    forall j, w | 0 <= j < |r.index| && 0 <= w < r.index[j]
      ensures w in r.index[..j]
    {
      IndexedLabelBefore(values, j, w);
    }
  }

  /** A label is at most one above all the labels before it. */
  lemma CanonNext(labels: seq<nat>, lo: nat, n: nat, bound: nat)
    requires Canon(labels, lo) && n < |labels| && lo <= bound
    requires forall j :: 0 <= j < n ==> labels[j] < bound
    ensures labels[n] <= bound
  {
    var before := labels[..n];
    assert labels[n] > bound ==> bound in before;
  }

  /** A canonical relabelling from `lo` is its own index, shifted by `lo`, and its distinct labels are `lo, lo + 1, ...`. */
  lemma {:induction false} IndexedCanon(labels: seq<nat>, lo: nat)
    requires Canon(labels, lo)
    ensures forall j :: 0 <= j < |labels| ==> Indexed<nat>(labels).index[j] == labels[j] - lo
    ensures forall k :: 0 <= k < |Indexed<nat>(labels).unique| ==> Indexed<nat>(labels).unique[k] == lo + k
  {
    if labels != [] {
      var n := |labels| - 1;
      var p, x := labels[..n], labels[n];
      assert forall j :: 0 <= j < n ==> p[..j] == labels[..j];
      IndexedCanon(p, lo);
      var acc := Indexed<nat>(p);
      var m := |acc.unique|;
      IndexedMapsBack<nat>(p);
      assert forall j :: 0 <= j < n ==> p[j] < lo + m;
      assert lo <= x;
      IndexedUniqueDistinct<nat>(p);
      if x < lo + m {
        assert acc.unique[x - lo] == x;
        IndexOfDistinct<nat>(acc.unique, x - lo);
      } else {
        CanonNext(labels, lo, n, lo + m);
        assert x !in acc.unique;
      }
      assert labels == p + [x];
    }
  }

  /** One more pair of keys that agree with the earlier ones in the same way keeps the indices alike. */
  lemma PatternStep<K, J>(pa: seq<K>, pb: seq<J>, x: K, y: J)
    requires |pa| == |pb| && Indexed(pa).index == Indexed(pb).index && |Indexed(pa).unique| == |Indexed(pb).unique|
    requires forall j :: 0 <= j < |pa| ==> (pa[j] == x <==> pb[j] == y)
    ensures Step(Indexed(pa), x).index == Step(Indexed(pb), y).index
    ensures |Step(Indexed(pa), x).unique| == |Step(Indexed(pb), y).unique|
  {
    if x in Indexed(pa).unique {
      PatternStepSeen(pa, pb, x, y);
    } else {
      PatternStepFresh(pa, pb, x, y);
    }
  }

  /** `PatternStep` for a key seen before: both keys reuse the same earlier index. */
  lemma PatternStepSeen<K, J>(pa: seq<K>, pb: seq<J>, x: K, y: J)
    requires |pa| == |pb| && Indexed(pa).index == Indexed(pb).index && |Indexed(pa).unique| == |Indexed(pb).unique|
    requires forall j :: 0 <= j < |pa| ==> (pa[j] == x <==> pb[j] == y)
    requires x in Indexed(pa).unique
    ensures Step(Indexed(pa), x).index == Step(Indexed(pb), y).index
    ensures |Step(Indexed(pa), x).unique| == |Step(Indexed(pb), y).unique|
  {
    var A, B := Indexed(pa), Indexed(pb);
    IndexedMapsBack(pa);
    IndexedMapsBack(pb);
    IndexedUniqueFromValues(pa);
    var j := IndexOf(pa, x);
    assert pb[j] == y;
    assert B.unique[B.index[j]] == y;
    IndexedUniqueDistinct(pa);
    IndexedUniqueDistinct(pb);
    IndexOfDistinct(A.unique, A.index[j]);
    IndexOfDistinct(B.unique, B.index[j]);
  }

  /** `PatternStep` for a new key: both keys get the next fresh index. */
  lemma PatternStepFresh<K, J>(pa: seq<K>, pb: seq<J>, x: K, y: J)
    requires |pa| == |pb| && Indexed(pa).index == Indexed(pb).index && |Indexed(pa).unique| == |Indexed(pb).unique|
    requires forall j :: 0 <= j < |pa| ==> (pa[j] == x <==> pb[j] == y)
    requires x !in Indexed(pa).unique
    ensures Step(Indexed(pa), x).index == Step(Indexed(pb), y).index
    ensures |Step(Indexed(pa), x).unique| == |Step(Indexed(pb), y).unique|
  {
    var A := Indexed(pa);
    IndexedMapsBack(pa);
    IndexedUniqueFromValues(pb);
    assert forall j :: 0 <= j < |pa| ==> A.unique[A.index[j]] == pa[j];
  }

  /**
   * Keys with the same pattern of equalities are indexed alike: when `a[j] == a[j']`
   * exactly when `b[j] == b[j']`, `_indexed` gives both the same index and the same
   * number of distinct keys.
   */
  lemma {:induction false} IndexedPattern<K, J>(a: seq<K>, b: seq<J>)
    requires |a| == |b|
    requires forall j, j' :: 0 <= j < |a| && 0 <= j' < |a| ==> (a[j] == a[j'] <==> b[j] == b[j'])
    ensures Indexed(a).index == Indexed(b).index && |Indexed(a).unique| == |Indexed(b).unique|
  {
    if a != [] {
      var n := |a| - 1;
      var pa, pb := a[..n], b[..n];
      assert forall j :: 0 <= j < n ==> pa[j] == a[j] && pb[j] == b[j];
      IndexedPattern(pa, pb);
      PatternStep(pa, pb, a[n], b[n]);
    }
  }

  /** What the loop of `_indexed` keeps after its first `c` keys; `written` is what it has stored into `index`. */
  ghost predicate Scanned<K>(values: seq<K>, c: nat, unique: seq<K>, counts: seq<nat>, written: seq<nat>, seen: map<K, nat>)
  {
    && c <= |values|
    && Indexed(values[..c]) == Indexing(unique, counts, written)
    && seen.Keys == (set k | k in unique)
    && (forall j :: 0 <= j < |unique| ==> seen[unique[j]] == j)
  }

  lemma {:induction false} ScannedSeen<K>(values: seq<K>, c: nat, unique: seq<K>, counts: seq<nat>, written: seq<nat>, seen: map<K, nat>)
    requires Scanned(values, c, unique, counts, written, seen) && c < |values| && values[c] in seen
    ensures seen[values[c]] < |counts|
    ensures Scanned(values, c + 1, unique, counts[seen[values[c]] := counts[seen[values[c]]] + 1], written + [seen[values[c]]], seen)
  {
    IndexedSnoc(values, c);
    assert seen[values[c]] == IndexOf(unique, values[c]) by {
      assert values[c] in unique;
    }
  }

  lemma {:induction false} ScannedNew<K>(values: seq<K>, c: nat, unique: seq<K>, counts: seq<nat>, written: seq<nat>, seen: map<K, nat>)
    requires Scanned(values, c, unique, counts, written, seen) && c < |values| && values[c] !in seen
    ensures Scanned(values, c + 1, unique + [values[c]], counts + [1], written + [|unique|], seen[values[c] := |unique|])
  {
    IndexedSnoc(values, c);
  }

  /** The loop of `_indexed`: a `seen` dictionary, growing `unique`/`counts` lists and a preallocated `index` array. */
  method BuildIndexed<K(==)>(values: seq<K>) returns (unique: seq<K>, counts: seq<nat>, index: array<nat>)
    ensures fresh(index)
    ensures Indexing(unique, counts, index[..]) == Indexed(values)
  {
    index := new nat[|values|](_ => 0);
    unique, counts := [], [];
    ghost var written: seq<nat> := [];
    var seen: map<K, nat> := map[];
    var c := 0;
    while c < |values|
      invariant 0 <= c <= |values| && |written| == c
      invariant forall j :: 0 <= j < c ==> index[j] == written[j]
      invariant Scanned(values, c, unique, counts, written, seen)
    {
      var i;
      i, unique, counts, seen := ScanKey(values, c, unique, counts, written, seen);
      index[c] := i;
      written := written + [i];
      c := c + 1;
    }
    assert values[..c] == values;
    assert index[..] == written;
  }

  /** One pass of the loop of `_indexed`: the index of `values[c]`, recorded in `seen`, `unique` and `counts`. */
  method ScanKey<K(==)>(values: seq<K>, c: nat, unique: seq<K>, counts: seq<nat>, ghost written: seq<nat>, seen: map<K, nat>)
    returns (i: nat, unique': seq<K>, counts': seq<nat>, seen': map<K, nat>)
    requires Scanned(values, c, unique, counts, written, seen) && c < |values|
    ensures Scanned(values, c + 1, unique', counts', written + [i], seen')
  {
    var key := values[c];
    if key in seen {
      i := seen[key];
      ScannedSeen(values, c, unique, counts, written, seen);
      unique', counts', seen' := unique, counts[i := counts[i] + 1], seen;
    } else {
      i := |unique|;
      ScannedNew(values, c, unique, counts, written, seen);
      unique', counts', seen' := unique + [key], counts + [1], seen[key := i];
    }
  }
}
