/**
 * The column-deduplicating likelihood tree of cogent/evolve/likelihood_tree.py.
 * A leaf holds one sequence as its distinct motifs, a profile (row of state
 * likelihoods) per distinct motif, a count per distinct motif and, per alignment
 * column, the index of the column's motif. An edge holds, per column, the tuple of
 * its children's indices, deduplicated the same way. Both append a synthetic gap
 * entry with count 0 as their last distinct entry.
 */
module LikelihoodTree {
  import opened Wrappers
  import opened ColumnIndex
  import Parallel

  /** A row of likelihoods, one per state of the alphabet. */
  type Row = seq<real>

  /** What a leaf keeps per distinct entry: the motif of a sequence, or a profile handed to `asLeaf`. */
  datatype Entry = Motif(symbols: string) | Profile(row: Row)

  /** The exceptions the modelled code raises. */
  datatype Error =
    | NotInAlphabet(motif: string, seqName: string, position: nat)  // the ValueError of makeLikelihoodTreeLeaf
    | MotifNotInList(motif: string)                                 // the ValueError of list.index
    | IndexError
    | AssertionError
    | RuntimeError
    | ZeroSliceStep                                                 // the ValueError of slice.indices
    | AttributeError                                                // an attribute the object lacks

  /**
   * The part of a cogent alphabet the tree uses: the motif length and the profile of
   * every motif it accepts (ambiguity codes included). `states` is the profile width.
   */
  datatype Alphabet = Alphabet(motifLen: nat, states: nat, profiles: map<string, Row>)

  ghost predicate ValidAlphabet(a: Alphabet)
  {
    forall m :: m in a.profiles ==> |a.profiles[m]| == a.states
  }

  /** `'?' * motif_len`, the motif of the extra gap entry. */
  function GapMotif(motifLen: nat): (r: string)
    ensures |r| == motifLen && forall i :: 0 <= i < |r| ==> r[i] == '?'
  {
    seq(motifLen, _ => '?')
  }

  /**
   * `alphabet.fromAmbigToLikelihoods(motifs)`: the profile of every motif, or the first
   * motif the alphabet does not know.
   */
  function FromAmbigToLikelihoods(a: Alphabet, motifs: seq<string>): (r: Result<seq<Row>, string>)
    ensures r.Ok? <==> forall i :: 0 <= i < |motifs| ==> motifs[i] in a.profiles
    ensures r.Ok? ==> |r.value| == |motifs| && forall i :: 0 <= i < |motifs| ==> r.value[i] == a.profiles[motifs[i]]
    ensures r.Err? ==>
      && r.error in motifs && r.error !in a.profiles
      && forall i :: 0 <= i < IndexOf(motifs, r.error) ==> motifs[i] in a.profiles
  {
    if motifs == [] then Ok([])
    else if motifs[0] !in a.profiles then Err(motifs[0])
    else
      match FromAmbigToLikelihoods(a, motifs[1..])
      case Ok(rows) => Ok([a.profiles[motifs[0]]] + rows)
      case Err(m) => Err(m)
  }

  /** A `LikelihoodTreeLeaf`; `edge_name` and `name` are the same string. */
  datatype Leaf = Leaf(name: string, uniq: seq<Entry>, likelihoods: seq<Row>, counts: seq<nat>, index: seq<nat>)

  /** Every row has the same width. */
  ghost predicate Rectangular(rows: seq<Row>)
  {
    forall k :: 0 <= k < |rows| ==> |rows[k]| == |rows[0]|
  }

  /**
   * What every leaf satisfies: one profile and one count per distinct entry, the last
   * entry is the gap, no column uses it, and `counts[k]` is the number of columns whose
   * index is `k`.
   */
  ghost predicate ValidLeaf(l: Leaf)
  {
    && |l.uniq| == |l.likelihoods| == |l.counts| >= 1
    && Rectangular(l.likelihoods)
    && (forall c :: 0 <= c < |l.index| ==> l.index[c] < |l.uniq| - 1)
    && (forall k :: 0 <= k < |l.counts| ==> l.counts[k] == multiset(l.index)[k])
  }

  /** The last dimension of the leaf's `shape`: the width of its profiles. */
  function LeafWidth(l: Leaf): nat
  {
    if |l.likelihoods| == 0 then 0 else |l.likelihoods[0]|
  }

  function Last<T>(s: seq<T>): T
    requires |s| > 0
  {
    s[|s| - 1]
  }

  /** The motifs handed to the alphabet: the distinct motifs in order of first occurrence, then the gap motif. */
  function UniqMotifs(motifs: seq<string>, motifLen: nat): seq<string>
  {
    Indexed(motifs).unique + [GapMotif(motifLen)]
  }

  /**
   * `makeLikelihoodTreeLeaf(sequence, alphabet, seq_name)`, with the sequence already cut
   * into motifs of the alphabet's motif length (`getInMotifSize`).
   */
  function MakeLeaf(motifs: seq<string>, a: Alphabet, name: string): Result<Leaf, Error>
  {
    var uniqMotifs := UniqMotifs(motifs, a.motifLen);
    match FromAmbigToLikelihoods(a, uniqMotifs)
    case Err(m) =>
      if m in motifs then Err(NotInAlphabet(m, name, IndexOf(motifs, m) * a.motifLen))
      else Err(MotifNotInList(m))
    case Ok(rows) =>
      Ok(Leaf(name, seq(|uniqMotifs|, k requires 0 <= k < |uniqMotifs| => Motif(uniqMotifs[k])), rows,
              Indexed(motifs).counts + [0], Indexed(motifs).index))
  }

  /** The tail of the counts of a deduplication with a count-0 gap entry appended still counts columns. */
  lemma {:induction false} GapCountsColumns<K>(values: seq<K>)
    ensures forall c :: 0 <= c < |Indexed(values).index| ==> Indexed(values).index[c] < |Indexed(values).unique|
    ensures forall k :: 0 <= k < |Indexed(values).counts| + 1 ==>
      (Indexed(values).counts + [0])[k] == multiset(Indexed(values).index)[k]
  {
    var idx := Indexed(values);
    IndexedCorrect(values);
    BoundedMultiplicity(idx.index, |idx.unique|);
    forall k | 0 <= k < |idx.counts| + 1
      ensures (idx.counts + [0])[k] == multiset(idx.index)[k]
    {
      if k < |idx.counts| {
        assert (idx.counts + [0])[k] == idx.counts[k];
      }
    }
  }

  /** The alphabet knows every motif handed to it exactly when it knows the sequence's motifs and the gap motif. */
  lemma {:induction false} UniqMotifsKnown(motifs: seq<string>, a: Alphabet)
    ensures (forall k :: 0 <= k < |UniqMotifs(motifs, a.motifLen)| ==> UniqMotifs(motifs, a.motifLen)[k] in a.profiles)
        <==> (forall c :: 0 <= c < |motifs| ==> motifs[c] in a.profiles) && GapMotif(a.motifLen) in a.profiles
  {
    var u := UniqMotifs(motifs, a.motifLen);
    var idx := Indexed(motifs);
    IndexedMapsBack(motifs);
    IndexedUniqueFromValues(motifs);
    if forall k :: 0 <= k < |u| ==> u[k] in a.profiles {
      forall c | 0 <= c < |motifs|
        ensures motifs[c] in a.profiles
      {
        assert u[idx.index[c]] == motifs[c];
      }
      assert Last(u) in a.profiles;
    }
    if (forall c :: 0 <= c < |motifs| ==> motifs[c] in a.profiles) && GapMotif(a.motifLen) in a.profiles {
      forall k | 0 <= k < |u|
        ensures u[k] in a.profiles
      {
        if k < |idx.unique| {
          assert u[k] == idx.unique[k];
        }
      }
    }
  }

  /** A leaf is built exactly when the alphabet knows every motif of the sequence and the gap motif. */
  lemma {:induction false} MakeLeafSucceeds(motifs: seq<string>, a: Alphabet, name: string)
    ensures MakeLeaf(motifs, a, name).Ok? <==>
      (forall c :: 0 <= c < |motifs| ==> motifs[c] in a.profiles) && GapMotif(a.motifLen) in a.profiles
  {
    UniqMotifsKnown(motifs, a);
  }

  /**
   * A built leaf maps every column back to its motif and that motif's profile, and ends
   * with the gap motif, its profile and count 0; over an alphabet whose profiles all
   * have `states` entries it is a valid leaf of that width.
   */
  lemma {:induction false} MakeLeafColumns(motifs: seq<string>, a: Alphabet, name: string)
    requires MakeLeaf(motifs, a, name).Ok?
    ensures var l := MakeLeaf(motifs, a, name).value;
      && l.name == name && |l.index| == |motifs| && |l.uniq| == |l.likelihoods| == |l.counts| > 0
      && (forall c :: 0 <= c < |motifs| ==> l.index[c] < |l.uniq| - 1)
      && (forall c :: 0 <= c < |motifs| ==>
            l.uniq[l.index[c]] == Motif(motifs[c]) && l.likelihoods[l.index[c]] == a.profiles[motifs[c]])
      && Last(l.uniq) == Motif(GapMotif(a.motifLen)) && Last(l.counts) == 0
      && Last(l.likelihoods) == a.profiles[GapMotif(a.motifLen)]
      && (ValidAlphabet(a) ==> ValidLeaf(l) && (|motifs| > 0 ==> LeafWidth(l) == a.states))
  {
    var u := UniqMotifs(motifs, a.motifLen);
    var idx := Indexed(motifs);
    var l := MakeLeaf(motifs, a, name).value;
    IndexedMapsBack(motifs);
    GapCountsColumns(motifs);
    assert l.index == idx.index && l.counts == idx.counts + [0];
    assert l.likelihoods == FromAmbigToLikelihoods(a, u).value;
    forall c | 0 <= c < |motifs|
      ensures l.uniq[l.index[c]] == Motif(motifs[c]) && l.likelihoods[l.index[c]] == a.profiles[motifs[c]]
    {
      assert u[idx.index[c]] == motifs[c];
    }
    forall k | 0 <= k < |l.counts|
      ensures l.counts[k] == multiset(l.index)[k]
    {
      assert l.counts[k] == (idx.counts + [0])[k];
      assert (idx.counts + [0])[k] == multiset(idx.index)[k];
      assert multiset(l.index) == multiset(idx.index);
    }
  }

  /**
   * On an unknown motif the ValueError names the first unknown motif in the order of
   * first occurrence, the sequence and the motif's first position times the motif
   * length. The fallback `list.index` failure happens only for an alphabet that does not
   * know the gap motif while knowing every motif of the sequence.
   */
  lemma {:induction false} MakeLeafError(motifs: seq<string>, a: Alphabet, name: string)
    ensures MakeLeaf(motifs, a, name).Err? ==> match MakeLeaf(motifs, a, name).error {
      case NotInAlphabet(m, n, pos) =>
        && m in motifs && m !in a.profiles && n == name
        && pos == IndexOf(motifs, m) * a.motifLen
        && forall c :: 0 <= c < IndexOf(motifs, m) ==> motifs[c] in a.profiles
      case MotifNotInList(m) =>
        && m == GapMotif(a.motifLen) && m !in a.profiles
        && forall c :: 0 <= c < |motifs| ==> motifs[c] in a.profiles
      case _ => false
    }
  {
    var u := UniqMotifs(motifs, a.motifLen);
    var idx := Indexed(motifs);
    match FromAmbigToLikelihoods(a, u)
    case Ok(_) =>
    case Err(m) =>
      var j := IndexOf(u, m);
      if m in motifs {
        ErrorBeforeFirstOccurrence(motifs, a, m);
      } else {
        IndexedUniqueFromValues(motifs);
        assert j == |idx.unique|;
        IndexedMapsBack(motifs);
        forall c | 0 <= c < |motifs|
          ensures motifs[c] in a.profiles
        {
          assert u[idx.index[c]] == motifs[c];
        }
      }
  }

  /** The motifs before the first occurrence of the reported one are known to the alphabet. */
  lemma {:induction false} ErrorBeforeFirstOccurrence(motifs: seq<string>, a: Alphabet, m: string)
    requires FromAmbigToLikelihoods(a, UniqMotifs(motifs, a.motifLen)) == Err(m) && m in motifs
    ensures forall c :: 0 <= c < IndexOf(motifs, m) ==> motifs[c] in a.profiles
  {
    var u := UniqMotifs(motifs, a.motifLen);
    var idx := Indexed(motifs);
    FirstOccurrencePrefix(idx.unique, [GapMotif(a.motifLen)], m, motifs);
    forall c | 0 <= c < IndexOf(motifs, m)
      ensures motifs[c] in a.profiles
    {
      FirstOccurrenceBefore(motifs, c, m);
      IndexedMapsBack(motifs);
      assert u[idx.index[c]] == motifs[c];
    }
  }

  lemma {:induction false} FirstOccurrencePrefix(s: seq<string>, t: seq<string>, m: string, motifs: seq<string>)
    requires s == Indexed(motifs).unique && m in motifs
    ensures m in s && IndexOf(s + t, m) == IndexOf(s, m)
  {
    IndexedMapsBack(motifs);
    var c :| 0 <= c < |motifs| && motifs[c] == m;
    assert s[Indexed(motifs).index[c]] == m;
    IndexOfPrefix(s, t, m);
  }

  /**
   * A column before the first occurrence of `m` holds a key that comes before `m` among
   * the distinct keys.
   */
  lemma {:induction false} FirstOccurrenceBefore<K>(values: seq<K>, c: nat, m: K)
    requires m in values && c < IndexOf(values, m)
    ensures m in Indexed(values).unique
    ensures Indexed(values).index[c] < IndexOf(Indexed(values).unique, m)
  {
    var idx := Indexed(values);
    IndexedMapsBack(values);
    IndexedOrder(values);
    var c0 :| 0 <= c0 < |values| && values[c0] == m;
    assert idx.unique[idx.index[c0]] == m;
    var j := IndexOf(idx.unique, m);
    var jc := idx.index[c];
    assert idx.unique[jc] == values[c];
    assert values[c] in values[..c + 1];
    assert IndexOf(values, values[c]) <= c;
    IndexedOrderBack(values, jc, j);
  }

  /** The columns in reverse order, as `index[::-1]`. */
  function Reverse<T>(s: seq<T>): (r: seq<T>)
    ensures |r| == |s| && forall i :: 0 <= i < |s| ==> r[i] == s[|s| - 1 - i]
  {
    if s == [] then [] else [Last(s)] + Reverse(s[..|s| - 1])
  }

  lemma {:induction false} ReverseMultiset<T>(s: seq<T>)
    ensures multiset(Reverse(s)) == multiset(s)
  {
    if s != [] {
      ReverseMultiset(s[..|s| - 1]);
      assert s == s[..|s| - 1] + [Last(s)];
    }
  }

  /** `LikelihoodTreeLeaf.backward()`: the same leaf read right to left. */
  function Backward(l: Leaf): Leaf
  {
    Leaf(l.name, l.uniq, l.likelihoods, l.counts, Reverse(l.index))
  }

  /**
   * `backward` keeps the distinct entries, profiles and counts, reverses the columns,
   * keeps the leaf valid and undoes itself.
   */
  lemma {:induction false} BackwardReverses(l: Leaf)
    ensures Backward(l).uniq == l.uniq && Backward(l).likelihoods == l.likelihoods
    ensures Backward(l).counts == l.counts && Backward(l).name == l.name
    ensures |Backward(l).index| == |l.index|
    ensures forall i :: 0 <= i < |l.index| ==> Backward(l).index[i] == l.index[|l.index| - 1 - i]
    ensures ValidLeaf(l) ==> ValidLeaf(Backward(l))
    ensures Backward(Backward(l)) == l
  {
    if ValidLeaf(l) {
      BackwardValid(l);
    }
    ReverseReverse(l.index);
  }

  lemma {:induction false} BackwardValid(l: Leaf)
    requires ValidLeaf(l)
    ensures ValidLeaf(Backward(l))
  {
    ReverseMultiset(l.index);
  }

  lemma ReverseReverse<T>(s: seq<T>)
    ensures Reverse(Reverse(s)) == s
  {
    assert forall i :: 0 <= i < |s| ==> Reverse(Reverse(s))[i] == s[i];
  }

  /** An index into a numpy array of length `len`: negative indices count from the end. */
  function PyIndex(i: int, len: nat): (r: Option<nat>)
    ensures r.Some? <==> -(len as int) <= i < len
    ensures r.Some? ==> r.value < len && (r.value == i || r.value == i + len)
  {
    if 0 <= i < len then Some(i) else if -(len as int) <= i < 0 then Some(i + len) else None
  }

  /** Position `p` of an array of length `len` has exactly two spellings as an index: `p` and `p - len`. */
  lemma PyIndexSpellings(i: int, len: nat, p: nat)
    requires p < len
    ensures PyIndex(i, len) == Some(p) <==> i == p || i == p - len
  {
  }

  ghost predicate ColumnsInRange(cols: seq<int>, len: nat)
  {
    forall j :: 0 <= j < |cols| ==> PyIndex(cols[j], len).Some?
  }

  /** `sub_index`: the leaf's index at each selected column. */
  function SubIndex(l: Leaf, cols: seq<int>): (sub: seq<nat>)
    requires ValidLeaf(l) && ColumnsInRange(cols, |l.index|)
    ensures |sub| == |cols| && forall j :: 0 <= j < |cols| ==> sub[j] < |l.uniq| - 1
  {
    seq(|cols|, j requires 0 <= j < |cols| => l.index[PyIndex(cols[j], |l.index|).value])
  }

  /** `keep`: the distinct entries the selected columns use, then the old gap entry. */
  function Keep(l: Leaf, cols: seq<int>): (keep: seq<nat>)
    requires ValidLeaf(l) && ColumnsInRange(cols, |l.index|)
    ensures forall k :: 0 <= k < |keep| ==> keep[k] < |l.uniq|
  {
    var u := Indexed<nat>(SubIndex(l, cols)).unique;
    IndexedBounded(SubIndex(l, cols), |l.uniq| - 1);
    assert forall k :: 0 <= k < |u| ==> u[k] < |l.uniq| - 1;
    u + [|l.uniq| - 1]
  }

  /** `LikelihoodTreeLeaf.selectColumns(cols)`. */
  function LeafSelectColumns(l: Leaf, cols: seq<int>): Result<Leaf, Error>
    requires ValidLeaf(l)
  {
    if !ColumnsInRangeCompute(cols, |l.index|) then Err(IndexError)
    else
      var keep := Keep(l, cols);
      Ok(Leaf(l.name, Gather(l.uniq, keep), Gather(l.likelihoods, keep),
              Indexed<nat>(SubIndex(l, cols)).counts + [0], Indexed<nat>(SubIndex(l, cols)).index))
  }

  /** Whether every column is a valid numpy index (the first bad one raises IndexError). */
  function ColumnsInRangeCompute(cols: seq<int>, len: nat): (b: bool)
    ensures b <==> ColumnsInRange(cols, len)
  {
    forall j :: 0 <= j < |cols| ==> -(len as int) <= cols[j] < len
  }

  /** `selectColumns` succeeds exactly when every selected column exists. */
  lemma LeafSelectColumnsSucceeds(l: Leaf, cols: seq<int>)
    requires ValidLeaf(l)
    ensures LeafSelectColumns(l, cols).Ok? <==> ColumnsInRange(cols, |l.index|)
    ensures LeafSelectColumns(l, cols).Err? ==> LeafSelectColumns(l, cols).error == IndexError
  {
  }

  /**
   * The new leaf has one column per selected column, each holding the motif and profile
   * of the column it was taken from, and keeps the old gap entry last with count 0.
   */
  lemma {:induction false} LeafSelectColumnsColumns(l: Leaf, cols: seq<int>)
    requires ValidLeaf(l) && ColumnsInRange(cols, |l.index|)
    ensures var n := LeafSelectColumns(l, cols).value;
      && n.name == l.name && |n.index| == |cols| && |n.uniq| == |n.likelihoods| == |n.counts|
      && (forall j :: 0 <= j < |cols| ==> n.index[j] < |n.uniq|)
      && (forall j :: 0 <= j < |cols| ==>
            var old_c := PyIndex(cols[j], |l.index|).value;
            n.uniq[n.index[j]] == l.uniq[l.index[old_c]] && n.likelihoods[n.index[j]] == l.likelihoods[l.index[old_c]])
      && |n.uniq| > 0 && Last(n.uniq) == Last(l.uniq) && Last(n.likelihoods) == Last(l.likelihoods) && Last(n.counts) == 0
  {
    var sub := SubIndex(l, cols);
    var idx := Indexed<nat>(sub);
    IndexedMapsBack(sub);
    var n := LeafSelectColumns(l, cols).value;
    var keep := Keep(l, cols);
    assert n.index == idx.index && keep == idx.unique + [|l.uniq| - 1];
    forall j | 0 <= j < |cols|
      ensures n.uniq[n.index[j]] == l.uniq[sub[j]] && n.likelihoods[n.index[j]] == l.likelihoods[sub[j]]
    {
      assert keep[idx.index[j]] == sub[j];
    }
  }

  /** The new leaf is valid and has the width of the old one. */
  lemma {:induction false} LeafSelectColumnsValid(l: Leaf, cols: seq<int>)
    requires ValidLeaf(l) && ColumnsInRange(cols, |l.index|)
    ensures ValidLeaf(LeafSelectColumns(l, cols).value)
    ensures LeafWidth(LeafSelectColumns(l, cols).value) == LeafWidth(l)
  {
    var sub := SubIndex(l, cols);
    var idx := Indexed<nat>(sub);
    GapCountsColumns(sub);
    var n := LeafSelectColumns(l, cols).value;
    var keep := Keep(l, cols);
    assert n.index == idx.index && n.counts == idx.counts + [0];
    assert n.likelihoods[0] == l.likelihoods[keep[0]];
    forall k | 0 <= k < |n.counts|
      ensures n.counts[k] == multiset(n.index)[k]
    {
      assert n.counts[k] == (idx.counts + [0])[k];
    }
  }

  /** A Python slice `start:stop:step`; a missing part is `None`. */
  datatype Slice = Slice(start: Option<int>, stop: Option<int>, step: Option<int>)

  /** One bound of `slice.indices(length)` as Python 2 clamps it. */
  function ClampBound(bound: Option<int>, default: int, step: int, length: nat): int
  {
    match bound
    case None => default
    case Some(b) =>
      var b1 := if b < 0 then b + length else b;
      var b2 := if b1 < 0 then (if step < 0 then -1 else 0) else b1;
      if b2 >= length then (if step < 0 then length - 1 else length) else b2
  }

  /** `slice.indices(length)`: the step, then the clamped start and stop. */
  function SliceIndices(s: Slice, length: nat): Result<(int, int, int), Error>
  {
    var step := if s.step.None? then 1 else s.step.value;
    if step == 0 then Err(ZeroSliceStep)
    else
      var start := ClampBound(s.start, if step < 0 then length - 1 else 0, step, length);
      var stop := ClampBound(s.stop, if step < 0 then -1 else length, step, length);
      Ok((start, stop, step))
  }

  /** `range(start, stop, step)`. */
  function Range(start: int, stop: int, step: int): (r: seq<int>)
    requires step != 0
    ensures step > 0 ==> forall i :: 0 <= i < |r| ==> start <= r[i] < stop
    ensures step < 0 ==> forall i :: 0 <= i < |r| ==> stop < r[i] <= start
    decreases if step > 0 then stop - start else start - stop
  {
    if step > 0 && start < stop then [start] + Range(start + step, stop, step)
    else if step < 0 && start > stop then [start] + Range(start + step, stop, step)
    else []
  }

  /** The key of `leaf[key]`: a slice, or a plain integer. */
  datatype Key = SliceKey(slice: Slice) | IntKey(i: int)

  /**
   * `LikelihoodTreeLeaf.__getitem__(key)`: the columns a slice picks. An integer has no
   * `indices` method, so it raises AttributeError.
   */
  function GetItem(l: Leaf, key: Key): Result<Leaf, Error>
    requires ValidLeaf(l)
  {
    match key
    case IntKey(_) => Err(AttributeError)
    case SliceKey(s) =>
      match SliceIndices(s, |l.index|)
      case Err(e) => Err(e)
      case Ok((start, stop, step)) => LeafSelectColumns(l, Range(start, stop, step))
  }

  /** Every column a slice picks exists, so slicing fails only for a zero step. */
  lemma {:induction false} SliceColumnsInRange(s: Slice, length: nat)
    ensures SliceIndices(s, length).Err? <==> s.step == Some(0)
    ensures SliceIndices(s, length).Ok? ==>
      var (start, stop, step) := SliceIndices(s, length).value;
      forall i :: 0 <= i < |Range(start, stop, step)| ==> 0 <= Range(start, stop, step)[i] < length
  {
  }

  /**
   * Indexing a leaf fails for an integer key, with AttributeError, and for a slice exactly
   * when its step is zero, with the zero-step error; any other slice selects the columns
   * of its range.
   */
  lemma {:induction false} GetItemCorrect(l: Leaf, key: Key)
    requires ValidLeaf(l)
    ensures GetItem(l, key).Err? <==> key.IntKey? || key.slice.step == Some(0)
    ensures key.IntKey? ==> GetItem(l, key) == Err(AttributeError)
    ensures key.SliceKey? && GetItem(l, key).Err? ==> GetItem(l, key).error == ZeroSliceStep
    ensures GetItem(l, key).Ok? ==> var (start, stop, step) := SliceIndices(key.slice, |l.index|).value;
      GetItem(l, key) == LeafSelectColumns(l, Range(start, stop, step))
  {
    if key.SliceKey? {
      var s := key.slice;
      SliceColumnsInRange(s, |l.index|);
      match SliceIndices(s, |l.index|)
      case Err(_) =>
      case Ok((start, stop, step)) =>
        var cols := Range(start, stop, step);
        assert ColumnsInRange(cols, |l.index|);
        LeafSelectColumnsSucceeds(l, cols);
    }
  }

  /** The sum of a row (`numpy.sum(..., axis=-1)`). */
  function RowSum(row: Row): real
  {
    if row == [] then 0.0 else RowSum(row[..|row| - 1]) + Last(row)
  }

  /**
   * `getAmbiguousPositions()`: the columns whose profile does not sum to one, each
   * mapped to its distinct entry.
   */
  method GetAmbiguousPositions(l: Leaf) returns (ambig: map<nat, Entry>)
    requires ValidLeaf(l)
    ensures forall i: nat :: i in ambig <==> i < |l.index| && RowSum(l.likelihoods[l.index[i]]) != 1.0
    ensures forall i :: i in ambig ==> ambig[i] == l.uniq[l.index[i]]
  {
    ambig := map[];
    var i := 0;
    while i < |l.index|
      invariant 0 <= i <= |l.index|
      invariant forall j: nat :: j in ambig <==> j < i && RowSum(l.likelihoods[l.index[j]]) != 1.0
      invariant forall j :: j in ambig ==> ambig[j] == l.uniq[l.index[j]]
    {
      var u := l.index[i];
      if RowSum(l.likelihoods[u]) != 1.0 {
        ambig := ambig[i := l.uniq[u]];
      }
      i := i + 1;
    }
  }
}
