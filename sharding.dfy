/**
 * Sharing an edge between the processes of an MPI group (`parallelShare`) and putting
 * the per-process likelihood arrays back together (`parallelReconstructColumns`,
 * `getFullLengthLikelihoods`) in cogent/evolve/likelihood_tree.py.
 *
 * With `U` real distinct tuples and `size` processes, process `rank` takes the distinct
 * tuples `lo <= u < hi` with `share = U // size + 1`, `lo = share * rank` and
 * `hi = min(U, share * (rank + 1))`, and keeps only the alignment columns that use them.
 */
module Sharding {
  import opened Wrappers
  import opened LikelihoodTree
  import opened LikelihoodEdge
  import opened LikelihoodArrays
  import opened ColumnIndex
  import opened EdgeColumns
  import Parallel

  /** `U // size + 1`: the number of distinct tuples given to each process. */
  function ShareSize(u: nat, size: nat): (share: nat)
    requires size > 0
    ensures share >= 1 && share * size > u
  {
    assert (u / size) * size + u % size == u;
    u / size + 1
  }

  /** `lo` of process `rank`. */
  function Lo(u: nat, size: nat, rank: nat): nat
    requires size > 0
  {
    ShareSize(u, size) * rank
  }

  /** `hi` of process `rank`, cut at `U`. */
  function Hi(u: nat, size: nat, rank: nat): (hi: nat)
    ensures hi <= u
    requires size > 0
  {
    if ShareSize(u, size) * (rank + 1) < u then ShareSize(u, size) * (rank + 1) else u
  }

  /**
   * The ranges of the processes partition the distinct tuples: tuple `x` falls in the
   * range of exactly one process, `x // share`.
   */
  lemma {:induction false} SharesPartition(u: nat, size: nat, x: nat, rank: nat)
    requires size > 0 && x < u
    ensures x / ShareSize(u, size) < size
    ensures Lo(u, size, rank) <= x < Hi(u, size, rank) <==> rank == x / ShareSize(u, size)
  {
    var share := ShareSize(u, size);
    var q := x / share;
    assert share * q + x % share == x;
    assert share * q <= x < share * (q + 1);
    if q >= size {
      Parallel.MulMonotone(share, size, q);
      assert false;
    }
    if rank < q {
      Parallel.MulMonotone(share, rank + 1, q);
    } else if rank > q {
      Parallel.MulMonotone(share, q + 1, rank);
    }
  }

  /**
   * `[i for (i, u) in enumerate(index) if lo <= u < hi]`: the columns whose distinct
   * tuple falls in `[lo, hi)`, in increasing order.
   */
  function LocalColumns(index: seq<nat>, lo: nat, hi: nat): (cols: seq<int>)
    ensures forall j :: 0 <= j < |cols| ==> 0 <= cols[j] < |index| && lo <= index[cols[j]] < hi
    ensures forall j, j' :: 0 <= j < j' < |cols| ==> cols[j] < cols[j']
    ensures forall i :: 0 <= i < |index| ==> (i in cols <==> lo <= index[i] < hi)
  {
    if index == [] then []
    else
      var prefix := LocalColumns(index[..|index| - 1], lo, hi);
      if lo <= Last(index) < hi then prefix + [|index| - 1] else prefix
  }

  /** The columns of process `Rank(comm)`: those whose distinct tuple is in its range. */
  function ShareColumns(e: Node, comm: Parallel.Communicator): (cols: seq<int>)
    requires e.Edge? && |e.uniq| >= 1 && Parallel.Valid(comm)
    ensures forall j :: 0 <= j < |cols| ==> 0 <= cols[j] < |e.index|
  {
    Parallel.ValidRankBelowSize(comm);
    var u := |e.uniq| - 1;
    LocalColumns(e.index, Lo(u, Parallel.Size(comm), Parallel.Rank(comm)), Hi(u, Parallel.Size(comm), Parallel.Rank(comm)))
  }

  /** The columns of process `Rank(comm)` are the local columns of its range. */
  lemma ShareColumnsRange(e: Node, comm: Parallel.Communicator)
    requires e.Edge? && |e.uniq| >= 1 && Parallel.Valid(comm) && Parallel.Size(comm) > 0
    ensures ShareColumns(e, comm) == LocalColumns(e.index, Lo(|e.uniq| - 1, Parallel.Size(comm), Parallel.Rank(comm)),
                                                  Hi(|e.uniq| - 1, Parallel.Size(comm), Parallel.Rank(comm)))
  {
  }

  /**
   * Every column whose distinct tuple is real goes to exactly one process: column `i` is
   * among the local columns of process `rank` exactly when `rank` is `index[i] // share`.
   */
  lemma ColumnsPartition(index: seq<nat>, u: nat, size: nat, i: nat, rank: nat)
    requires size > 0 && i < |index| && index[i] < u
    ensures index[i] / ShareSize(u, size) < size
    ensures i in LocalColumns(index, Lo(u, size, rank), Hi(u, size, rank)) <==> rank == index[i] / ShareSize(u, size)
  {
    SharesPartition(u, size, index[i], rank);
  }

  /**
   * `parallelShare(comm)`: without a communicator, or with a group of one, the edge
   * itself; the fake communicator has no `size` attribute, so reading it raises
   * AttributeError; an edge that is already a local copy fails the assertion; otherwise
   * the edge's local copy for this process.
   */
  function ParallelShare(e: Node, comm: Option<Parallel.Communicator>): (r: Result<Node, Error>)
    requires ValidNode(e) && e.Edge? && (comm.Some? ==> Parallel.Valid(comm.value))
  {
    if comm.None? then Ok(e)
    else if comm.value.Fake? then Err(AttributeError)
    else if Parallel.Size(comm.value) == 1 then Ok(e)
    else if e.share.Some? then Err(AssertionError)
    else LocalCopy(e, comm.value)
  }

  /**
   * The local copy of an edge: the edge restricted to the process's columns, which keeps
   * the global index and remembers the communicator and the global number of distinct
   * tuples. It fails, with IndexError, exactly when some leaf lacks one of those
   * columns, and otherwise is a valid local copy of the same name and width.
   */
  function LocalCopy(e: Node, comm: Parallel.Communicator): (r: Result<Node, Error>)
    requires ValidNode(e) && e.Edge? && !IsShared(e) && Parallel.Valid(comm)
    ensures r.Ok? <==> ColumnsFit(e, ShareColumns(e, comm))
    ensures r.Err? ==> r.error == IndexError
    ensures r.Ok? ==> && ValidNode(r.value) && r.value.Edge? && Name(r.value) == Name(e) && Width(r.value) == Width(e)
                      && r.value.index == e.index && r.value.share == Some(Share(comm, |e.uniq|))
  {
    match SelectColumns(e, ShareColumns(e, comm))
    case Err(err) => Err(err)
    case Ok(local) =>
      ValidIndexBelowGap(e);
      SharedEdgeValid(local, e.index, Share(comm, |e.uniq|));
      Ok(local.(index := e.index, share := Some(Share(comm, |e.uniq|))))
  }

  /** The cases of `parallelShare` that do not make a local copy. */
  lemma ParallelShareCases(e: Node, comm: Option<Parallel.Communicator>)
    requires ValidNode(e) && e.Edge? && (comm.Some? ==> Parallel.Valid(comm.value))
    ensures comm.None? ==> ParallelShare(e, comm) == Ok(e)
    ensures comm == Some(Parallel.Fake) ==> ParallelShare(e, comm) == Err(AttributeError)
    ensures comm.Some? && !comm.value.Fake? && Parallel.Size(comm.value) == 1 ==> ParallelShare(e, comm) == Ok(e)
    ensures comm.Some? && Parallel.Size(comm.value) > 1 && IsShared(e) ==> ParallelShare(e, comm) == Err(AssertionError)
    ensures comm.Some? && Parallel.Size(comm.value) > 1 && !IsShared(e) ==> ParallelShare(e, comm) == LocalCopy(e, comm.value)
  {
  }

  /** Every node below `n` has as many columns as `n`: the tree was built from pre-aligned leaves. */
  ghost predicate Aligned(n: Node)
  {
    match n
    case LeafNode(_) => true
    case Edge(_, children, _, _, index, _, _, _) =>
      forall c :: 0 <= c < |children| ==> |Index(children[c])| == |index| && Aligned(children[c])
  }

  /** In a pre-aligned tree every leaf has every column of the root. */
  lemma {:induction false} AlignedColumnsFit(n: Node, cols: seq<int>)
    requires Aligned(n) && ColumnsInRange(cols, |Index(n)|)
    ensures ColumnsFit(n, cols)
    decreases n
  {
    match n
    case LeafNode(_) =>
    case Edge(_, children, _, _, _, _, _, _) =>
      forall c | 0 <= c < |children|
        ensures ColumnsFit(children[c], cols)
      {
        AlignedColumnsFit(children[c], cols);
      }
  }

  /**
   * Sharing a pre-aligned edge among several processes succeeds, and gives a valid local
   * copy of the same name and width that keeps the global index, remembers the group and
   * the global number of distinct tuples.
   */
  lemma {:induction false} ParallelShareCorrect(e: Node, comm: Parallel.Communicator)
    requires ValidNode(e) && e.Edge? && !IsShared(e) && Aligned(e)
    requires Parallel.Valid(comm) && Parallel.Size(comm) > 1
    ensures ParallelShare(e, Some(comm)).Ok?
    ensures ValidNode(ParallelShare(e, Some(comm)).value) && ParallelShare(e, Some(comm)).value.Edge?
    ensures ParallelShare(e, Some(comm)).value.share == Some(Share(comm, |e.uniq|))
    ensures ParallelShare(e, Some(comm)).value.index == e.index
    ensures Name(ParallelShare(e, Some(comm)).value) == Name(e) && Width(ParallelShare(e, Some(comm)).value) == Width(e)
  {
    AlignedColumnsFit(e, ShareColumns(e, comm));
  }

  /** A valid edge with a global index below the global gap entry is a valid local copy. */
  lemma SharedEdgeValid(local: Node, index: seq<nat>, s: Share)
    requires ValidNode(local) && local.Edge? && s.globalUniqLength >= 1
    requires forall i :: 0 <= i < |index| ==> index[i] < s.globalUniqLength - 1
    ensures ValidNode(local.(index := index, share := Some(s)))
  {
  }

  /** The global distinct tuples of the local columns, in column order. */
  function LocalLabels(index: seq<nat>, lo: nat, hi: nat): (g: seq<nat>)
    ensures |g| == |LocalColumns(index, lo, hi)|
    ensures forall j :: 0 <= j < |g| ==> g[j] == index[LocalColumns(index, lo, hi)[j]] && lo <= g[j] < hi
  {
    var cols := LocalColumns(index, lo, hi);
    seq(|cols|, j requires 0 <= j < |cols| => index[cols[j]])
  }

  /**
   * Keeping the columns whose tuple is in `[lo, hi)` of an index numbered in order of
   * first use gives labels numbered in order of first use from `lo`.
   */
  lemma CanonRestrict(index: seq<nat>, lo: nat, hi: nat)
    requires Canon(index, 0)
    ensures Canon(LocalLabels(index, lo, hi), lo)
  {
    var cols := LocalColumns(index, lo, hi);
    var g := LocalLabels(index, lo, hi);
    forall j, w | 0 <= j < |g| && lo <= w < g[j]
      ensures w in g[..j]
    {
      assert w in index[..cols[j]];
      var i :| 0 <= i < cols[j] && index[i] == w;
      assert i in cols;
      var j' :| 0 <= j' < |cols| && cols[j'] == i;
      assert g[..j][j'] == w;
    }
  }

  /** The local labels of an index that uses every tuple below `u` use every tuple of `[lo, hi)`. */
  lemma LocalLabelsCover(index: seq<nat>, u: nat, lo: nat, hi: nat)
    requires hi <= u && forall w :: 0 <= w < u ==> w in index
    ensures forall w :: lo <= w < hi ==> w in LocalLabels(index, lo, hi)
  {
    var cols := LocalColumns(index, lo, hi);
    var g := LocalLabels(index, lo, hi);
    forall w | lo <= w < hi
      ensures w in g
    {
      assert w in index;
      var i :| 0 <= i < |index| && index[i] == w;
      assert i in cols;
      var j :| 0 <= j < |cols| && cols[j] == i;
      assert g[j] == w;
    }
  }

  /** Labels numbered from `lo` in order of first use that use exactly `[lo, hi)` have `hi - lo` distinct values. */
  lemma CanonCount(g: seq<nat>, lo: nat, hi: nat)
    requires Canon(g, lo) && lo <= hi
    requires forall j :: 0 <= j < |g| ==> g[j] < hi
    requires forall w :: lo <= w < hi ==> w in g
    ensures |Indexed<nat>(g).unique| == hi - lo
  {
    IndexedCanon(g, lo);
    IndexedUniqueFromValues<nat>(g);
    IndexedMapsBack<nat>(g);
    var u := Indexed<nat>(g).unique;
    if |u| > 0 {
      assert u[|u| - 1] in g;
    }
    if lo < hi {
      assert hi - 1 in g;
      var j :| 0 <= j < |g| && g[j] == hi - 1;
      assert Indexed<nat>(g).index[j] == hi - 1 - lo;
    }
  }

  /**
   * Selecting the local columns of an edge built from pre-aligned children numbers the
   * selection's distinct tuples as the local labels, renumbered from 0.
   */
  lemma {:induction false} LocalSelectionIndex(e: Node, cols: seq<int>, g: seq<nat>)
    requires ValidNode(e) && e.Edge? && Columnwise(e) && PlainColumns(cols, |e.index|)
    requires |g| == |cols| && forall j :: 0 <= j < |g| ==> g[j] == e.index[cols[j]]
    ensures ColumnsFit(e, cols)
    ensures SelectColumns(e, cols).value.Edge?
    ensures SelectColumns(e, cols).value.index == Indexed<nat>(g).index
    ensures |SelectColumns(e, cols).value.uniq| == |Indexed<nat>(g).unique| + 1
  {
    ColumnwiseColumnsFit(e, cols);
    var sel := SelectColumns(e, cols).value;
    SelectColumnsColumnwise(e, cols);
    ColumnwiseIndex(sel);
    var tuples := ColumnTuples(sel.children, |sel.index|);
    EdgeFromTuplesFields(sel.children, sel.name, tuples);
    forall j, j' | 0 <= j < |tuples| && 0 <= j' < |tuples|
      ensures tuples[j] == tuples[j'] <==> g[j] == g[j']
    {
      IndexedSameKeySameIndex(tuples, j, j');
      SelectColumnsPattern(e, cols, j, j');
    }
    IndexedPattern(tuples, g);
  }

  /**
   * Distinct tuple `k` of the selection of the local columns stands for what global
   * tuple `lo + k` stands for.
   */
  lemma LocalEntryContent(e: Node, cols: seq<int>, g: seq<nat>, lo: nat, k: nat)
    requires ValidNode(e) && e.Edge? && Columnwise(e) && PlainColumns(cols, |e.index|)
    requires |g| == |cols| && forall j :: 0 <= j < |g| ==> g[j] == e.index[cols[j]]
    requires Canon(g, lo) && k < |Indexed<nat>(g).unique|
    ensures ColumnsFit(e, cols)
    ensures EntryContent(SelectColumns(e, cols).value, k) == EntryContent(e, lo + k)
  {
    LocalSelectionIndex(e, cols, g);
    IndexedCanon(g, lo);
    IndexedCovers<nat>(g, k);
    var j := IndexOf(g, Indexed<nat>(g).unique[k]);
    SelectColumnsContent(e, cols, j);
    ColumnwiseContent(e, cols[j]);
  }

  /** What an entry of an edge stands for does not depend on the edge's index or communicator. */
  lemma EntryContentOfCopy(n: Node, index: seq<nat>, share: Option<Share>, k: nat)
    requires n.Edge?
    ensures EntryContent(n.(index := index, share := share), k) == EntryContent(n, k)
  {
  }

  /**
   * The local labels for `[lo, hi)` of an index numbered in order of first use that uses
   * every tuple below `u >= hi` have `hi - lo` distinct values, or none when the range is
   * empty.
   */
  lemma LocalLabelsCount(index: seq<nat>, u: nat, lo: nat, hi: nat)
    requires hi <= u && Canon(index, 0) && forall w :: 0 <= w < u ==> w in index
    ensures Canon(LocalLabels(index, lo, hi), lo)
    ensures |Indexed<nat>(LocalLabels(index, lo, hi)).unique| == if lo <= hi then hi - lo else 0
  {
    var g := LocalLabels(index, lo, hi);
    CanonRestrict(index, lo, hi);
    if lo <= hi {
      LocalLabelsCover(index, u, lo, hi);
      CanonCount(g, lo, hi);
    } else {
      IndexedUniqueFromValues<nat>(g);
      assert forall x :: x in g ==> lo <= x < hi;
    }
  }

  /** The number of distinct tuples in `[lo, hi)`. */
  function RangeCount(lo: nat, hi: nat): nat
  {
    if lo <= hi then hi - lo else 0
  }

  /**
   * Node `local` holds `count` global distinct tuples of `e`, from `lo` on: it has `count`
   * real distinct tuples and then its gap entry, and its tuple `k` stands for what tuple
   * `lo + k` of `e` stands for.
   */
  ghost predicate HoldsTuples(local: Node, e: Node, lo: nat, count: nat)
  {
    && UniqLength(local) == count + 1
    && forall k :: 0 <= k < count ==> EntryContent(local, k) == EntryContent(e, lo + k)
  }

  /**
   * Selecting the columns of an edge built from pre-aligned children whose distinct tuple
   * is in `[lo, hi)` gives `hi - lo` real distinct tuples, tuple `k` standing for global
   * tuple `lo + k`.
   */
  lemma {:induction false} LocalSelectionTuples(e: Node, lo: nat, hi: nat)
    requires ValidNode(e) && e.Edge? && Columnwise(e) && hi <= |e.uniq| - 1
    ensures ColumnsFit(e, LocalColumns(e.index, lo, hi)) && SelectColumns(e, LocalColumns(e.index, lo, hi)).value.Edge?
    ensures HoldsTuples(SelectColumns(e, LocalColumns(e.index, lo, hi)).value, e, lo, RangeCount(lo, hi))
  {
    ColumnwiseLabels(e);
    var cols := LocalColumns(e.index, lo, hi);
    var g := LocalLabels(e.index, lo, hi);
    LocalLabelsCount(e.index, |e.uniq| - 1, lo, hi);
    LocalSelectionIndex(e, cols, g);
    forall k | 0 <= k < |SelectColumns(e, cols).value.uniq| - 1
      ensures EntryContent(SelectColumns(e, cols).value, k) == EntryContent(e, lo + k)
    {
      LocalEntryContent(e, cols, g, lo, k);
    }
  }

  /**
   * The local copy of process `Rank(comm)` of an edge built from pre-aligned children
   * holds the global distinct tuples `lo <= u < hi` and no others: it has `hi - lo` real
   * distinct tuples, and its tuple `k` stands for what global tuple `lo + k` stands for.
   */
  lemma {:induction false} LocalCopyTuples(e: Node, comm: Parallel.Communicator)
    requires ValidNode(e) && e.Edge? && !IsShared(e) && Columnwise(e) && Parallel.Valid(comm)
    ensures LocalCopy(e, comm).Ok? && LocalCopy(e, comm).value.Edge?
    ensures var u := |e.uniq| - 1;
      var lo := Lo(u, Parallel.Size(comm), Parallel.Rank(comm));
      HoldsTuples(LocalCopy(e, comm).value, e, lo, RangeCount(lo, Hi(u, Parallel.Size(comm), Parallel.Rank(comm))))
  {
    Parallel.ValidRankBelowSize(comm);
    var u := |e.uniq| - 1;
    ShareColumnsRange(e, comm);
    LocalRangeTuples(e, comm, Lo(u, Parallel.Size(comm), Parallel.Rank(comm)), Hi(u, Parallel.Size(comm), Parallel.Rank(comm)));
  }

  /** `LocalCopyTuples` for the range `[lo, hi)` of the process's columns. */
  lemma LocalRangeTuples(e: Node, comm: Parallel.Communicator, lo: nat, hi: nat)
    requires ValidNode(e) && e.Edge? && !IsShared(e) && Columnwise(e) && Parallel.Valid(comm)
    requires hi <= |e.uniq| - 1 && ShareColumns(e, comm) == LocalColumns(e.index, lo, hi)
    ensures LocalCopy(e, comm).Ok? && LocalCopy(e, comm).value.Edge?
    ensures HoldsTuples(LocalCopy(e, comm).value, e, lo, RangeCount(lo, hi))
  {
    LocalSelectionTuples(e, lo, hi);
    LocalCopyOfSelection(e, comm);
  }

  /** A local copy whose columns all exist is the selection of those columns with the global index. */
  lemma LocalCopyOfSelection(e: Node, comm: Parallel.Communicator)
    requires ValidNode(e) && e.Edge? && !IsShared(e) && Parallel.Valid(comm)
    requires ColumnsFit(e, ShareColumns(e, comm))
    ensures SelectColumns(e, ShareColumns(e, comm)).value.Edge?
    ensures LocalCopy(e, comm).Ok? && LocalCopy(e, comm).value.Edge?
    ensures LocalCopy(e, comm).value.uniq == SelectColumns(e, ShareColumns(e, comm)).value.uniq
    ensures forall k :: 0 <= k < |LocalCopy(e, comm).value.uniq| ==>
      EntryContent(LocalCopy(e, comm).value, k) == EntryContent(SelectColumns(e, ShareColumns(e, comm)).value, k)
  {
    var sel := SelectColumns(e, ShareColumns(e, comm)).value;
    var share := Some(Share(comm, |e.uniq|));
    assert LocalCopy(e, comm) == Ok(sel.(index := e.index, share := share));
    forall k | 0 <= k < |sel.uniq|
      ensures EntryContent(sel.(index := e.index, share := share), k) == EntryContent(sel, k)
    {
      EntryContentOfCopy(sel, e.index, share, k);
    }
  }


  /** `llh[:-1]`: an array without its last row, the gap row. */
  function DropGapRow(llh: seq<Row>): (rows: seq<Row>)
    ensures |llh| > 0 ==> rows + [Last(llh)] == llh
  {
    Take(llh, |llh| - 1)
  }

  /**
   * `llh` padded with rows up to `share` rows. The padding comes from `numpy.empty`, so
   * `filler` stands for whatever it holds.
   */
  function PadTo(llh: seq<Row>, share: int, filler: Row): (r: seq<Row>)
    ensures |llh| < share ==> |r| == share
    ensures |llh| >= share ==> r == llh
    ensures r[..|llh|] == llh
    ensures forall j :: |llh| <= j < |r| ==> r[j] == filler
  {
    if |llh| < share then llh + seq(share - |llh|, _ => filler) else llh
  }

  /** `temp = numpy.empty(...); temp[:len(llh)] = llh`: a fresh array of `share` rows that starts with `llh`. */
  method PadRows(llh: seq<Row>, share: nat, filler: Row) returns (temp: array<Row>)
    requires |llh| < share
    ensures fresh(temp) && temp[..] == PadTo(llh, share, filler)
  {
    temp := new Row[share](_ => filler);
    forall j | 0 <= j < |llh| {
      temp[j] := llh[j];
    }
  }

  /**
   * What process `rank` contributes to the gather in `parallelReconstructColumns` as
   * written: its rows without the gap row. Rows short of `share` fail the assertion on
   * every process but the last, which pads them to `share` rows.
   */
  function RankPartAsWritten(llh: seq<Row>, share: int, rank: nat, size: nat, filler: Row): (r: Result<seq<Row>, Error>)
    ensures r.Err? <==> |DropGapRow(llh)| < share && rank != size - 1
    ensures r.Err? ==> r.error == AssertionError
    ensures r.Ok? ==> |r.value| == if |DropGapRow(llh)| < share then share else |DropGapRow(llh)|
    ensures r.Ok? ==> r.value[..|DropGapRow(llh)|] == DropGapRow(llh)
    ensures r.Ok? ==> forall j :: |DropGapRow(llh)| <= j < |r.value| ==> r.value[j] == filler
  {
    var rows := DropGapRow(llh);
    if |rows| < share then
      if rank == size - 1 then Ok(PadTo(rows, share, filler)) else Err(AssertionError)
    else Ok(rows)
  }

  /**
   * `parallelReconstructColumns(llh)` as written, seen from all `size` processes at once:
   * `parts[r]` is the array of process `r`; the shared length is `(U - 1) // size + 1`;
   * the gather concatenates the contributions in rank order and the result is cut to `U`
   * rows. Python's `//` is floor division, so with `U = 0` the share is 0.
   */
  function ReconstructAsWritten(u: nat, size: nat, parts: seq<seq<Row>>, filler: Row): (r: Result<seq<Row>, Error>)
    requires size > 0 && |parts| == size
  {
    var share := (u - 1) / size + 1;
    match Collect(seq(size, rank requires 0 <= rank < size => RankPartAsWritten(parts[rank], share, rank, size, filler)))
    case Err(err) => Err(err)
    case Ok(padded) => Ok(Take(Concat(padded), u))
  }

  /**
   * `parallelReconstructColumns` with the share `parallelShare` used, `U // size + 1`:
   * every process's rows are padded to that length, so process `r`'s rows start at
   * `share * r` in the concatenation.
   */
  function ReconstructCorrected(u: nat, size: nat, parts: seq<seq<Row>>, filler: Row): seq<Row>
    requires size > 0 && |parts| == size
  {
    var share := ShareSize(u, size);
    Take(Concat(seq(size, rank requires 0 <= rank < size => PadTo(DropGapRow(parts[rank]), share, filler))), u)
  }

  /** The rows of `global` in process `rank`'s range. */
  function RangeRows(global: seq<Row>, size: nat, rank: nat): (rows: seq<Row>)
    requires size > 0
  {
    var h := Hi(|global|, size, rank);
    if Lo(|global|, size, rank) <= h then global[Lo(|global|, size, rank)..h] else []
  }

  /**
   * The arrays the processes hold after working on their local copies of an edge whose
   * full array would be `global` plus a gap row: each holds the rows of its range, then
   * its own gap row.
   */
  ghost predicate SharedParts(global: seq<Row>, size: nat, parts: seq<seq<Row>>)
    requires size > 0
  {
    |parts| == size && forall rank :: 0 <= rank < size ==> |parts[rank]| > 0 && DropGapRow(parts[rank]) == RangeRows(global, size, rank)
  }

  /** `min(U, share * n)`: where the ranges of the first `n` processes end. */
  function RangesEnd(u: nat, size: nat, n: nat): (h: nat)
    requires size > 0
    ensures h <= u
  {
    if ShareSize(u, size) * n < u then ShareSize(u, size) * n else u
  }

  /** Process `rank`'s rows lie between the ends of the ranges before it and up to it. */
  lemma RangeRowsBetween(global: seq<Row>, size: nat, rank: nat)
    requires size > 0
    ensures RangesEnd(|global|, size, rank) <= RangesEnd(|global|, size, rank + 1)
    ensures RangeRows(global, size, rank) == global[RangesEnd(|global|, size, rank)..RangesEnd(|global|, size, rank + 1)]
    ensures |RangeRows(global, size, rank)| <= ShareSize(|global|, size)
  {
    var share := ShareSize(|global|, size);
    assert share * (rank + 1) == share * rank + share;
  }

  /** One more process's padded rows extend the prefix that agrees with `global`. */
  lemma CorrectedStep(global: seq<Row>, size: nat, c0: seq<Row>, p: seq<Row>, filler: Row, n: nat)
    requires size > 0 && n >= 1 && |c0| == ShareSize(|global|, size) * (n - 1)
    requires c0[..RangesEnd(|global|, size, n - 1)] == global[..RangesEnd(|global|, size, n - 1)]
    requires p == PadTo(RangeRows(global, size, n - 1), ShareSize(|global|, size), filler)
    ensures |c0 + p| == ShareSize(|global|, size) * n
    ensures (c0 + p)[..RangesEnd(|global|, size, n)] == global[..RangesEnd(|global|, size, n)]
  {
    var share := ShareSize(|global|, size);
    RangeRowsBetween(global, size, n - 1);
    var rows := RangeRows(global, size, n - 1);
    var h0 := RangesEnd(|global|, size, n - 1);
    var h1 := RangesEnd(|global|, size, n);
    assert share * n == share * (n - 1) + share;
    if share * (n - 1) < |global| {
      assert h1 == h0 + |rows|;
      assert p[..|rows|] == rows;
      assert (c0 + p)[..h1] == global[..h0] + rows;
      assert global[..h1] == global[..h0] + global[h0..h1];
    } else {
      assert (c0 + p)[..h1] == c0[..h0];
    }
  }

  /**
   * Concatenating the padded arrays of the first `n` processes gives `share * n` rows,
   * which agree with `global` up to the end of those processes' ranges.
   */
  lemma {:induction false} CorrectedPrefix(global: seq<Row>, size: nat, padded: seq<seq<Row>>, filler: Row)
    requires size > 0
    requires forall rank :: 0 <= rank < |padded| ==> padded[rank] == PadTo(RangeRows(global, size, rank), ShareSize(|global|, size), filler)
    ensures |Concat(padded)| == ShareSize(|global|, size) * |padded|
    ensures Concat(padded)[..RangesEnd(|global|, size, |padded|)] == global[..RangesEnd(|global|, size, |padded|)]
  {
    var n := |padded|;
    if n > 0 {
      var before := padded[..n - 1];
      CorrectedPrefix(global, size, before, filler);
      ConcatSnoc(padded);
      CorrectedStep(global, size, Concat(before), padded[n - 1], filler, n);
    }
  }

  /**
   * Reconstructing with the share `parallelShare` used gives back the global rows: the
   * processes together hold `global`, each range where the concatenation puts it.
   */
  lemma {:induction false} ReconstructCorrectedRoundTrip(global: seq<Row>, size: nat, parts: seq<seq<Row>>, filler: Row)
    requires size > 0 && SharedParts(global, size, parts)
    ensures ReconstructCorrected(|global|, size, parts, filler) == global
  {
    var share := ShareSize(|global|, size);
    var padded := seq(size, rank requires 0 <= rank < size => PadTo(DropGapRow(parts[rank]), share, filler));
    assert forall rank :: 0 <= rank < size ==> padded[rank] == PadTo(RangeRows(global, size, rank), share, filler);
    CorrectedPrefix(global, size, padded, filler);
    assert RangesEnd(|global|, size, size) == |global|;
  }

  /** The next process's range extends the rows up to the end of the ranges before it. */
  lemma RangesStep(global: seq<Row>, size: nat, c0: seq<Row>, rows: seq<Row>, n: nat)
    requires size > 0 && n >= 1 && c0 == global[..RangesEnd(|global|, size, n - 1)] && rows == RangeRows(global, size, n - 1)
    ensures c0 + rows == global[..RangesEnd(|global|, size, n)]
  {
    RangeRowsBetween(global, size, n - 1);
    var h0 := RangesEnd(|global|, size, n - 1);
    var h1 := RangesEnd(|global|, size, n);
    assert global[..h1] == global[..h0] + global[h0..h1];
  }

  /** Concatenating the ranges of the first `n` processes gives the rows up to the end of their ranges. */
  lemma {:induction false} RangesConcat(global: seq<Row>, size: nat, ranges: seq<seq<Row>>)
    requires size > 0
    requires forall rank :: 0 <= rank < |ranges| ==> ranges[rank] == RangeRows(global, size, rank)
    ensures Concat(ranges) == global[..RangesEnd(|global|, size, |ranges|)]
  {
    var n := |ranges|;
    if n > 0 {
      var before := ranges[..n - 1];
      RangesConcat(global, size, before);
      ConcatSnoc(ranges);
      RangesStep(global, size, Concat(before), ranges[n - 1], n);
    }
  }

  /**
   * The processes' ranges in order, with anything padded after the last one, cut to `U`
   * rows, are the global rows.
   */
  lemma {:induction false} AsWrittenConcat(global: seq<Row>, size: nat, padded: seq<seq<Row>>, share: int, filler: Row)
    requires size > 0 && |padded| == size
    requires forall rank :: 0 <= rank < size - 1 ==> padded[rank] == RangeRows(global, size, rank)
    requires padded[size - 1] == PadTo(RangeRows(global, size, size - 1), share, filler)
    ensures |Concat(padded)| >= |global| && Concat(padded)[..|global|] == global
  {
    var u := |global|;
    var before := padded[..size - 1];
    var last := padded[size - 1];
    var rows := RangeRows(global, size, size - 1);
    ConcatSnoc(padded);
    assert forall rank :: 0 <= rank < |before| ==> before[rank] == RangeRows(global, size, rank);
    RangesConcat(global, size, before);
    RangesStep(global, size, Concat(before), rows, size);
    assert RangesEnd(u, size, size) == u;
    assert last[..|rows|] == rows;
    assert (Concat(before) + last)[..u] == Concat(before) + rows;
  }

  /**
   * When `parallelReconstructColumns` as written passes its assertion, it gives back the
   * global rows; the only way it fails is the assertion.
   */
  lemma {:induction false} ReconstructAsWrittenSound(global: seq<Row>, size: nat, parts: seq<seq<Row>>, filler: Row)
    requires size > 0 && SharedParts(global, size, parts)
    ensures ReconstructAsWritten(|global|, size, parts, filler).Ok? ==> ReconstructAsWritten(|global|, size, parts, filler).value == global
    ensures ReconstructAsWritten(|global|, size, parts, filler).Err? ==> ReconstructAsWritten(|global|, size, parts, filler).error == AssertionError
  {
    var share := (|global| - 1) / size + 1;
    var rs := seq(size, rank requires 0 <= rank < size => RankPartAsWritten(parts[rank], share, rank, size, filler));
    var r := Collect(rs);
    if r.Err? {
      var i := CollectFailure(rs);
    } else {
      AsWrittenCollected(global, size, parts, share, filler, rs);
    }
  }

  /** The values of the processes' contributions when every one passes the assertion. */
  lemma AsWrittenCollected(global: seq<Row>, size: nat, parts: seq<seq<Row>>, share: int, filler: Row, rs: seq<Result<seq<Row>, Error>>)
    requires size > 0 && SharedParts(global, size, parts)
    requires |rs| == size && forall rank :: 0 <= rank < size ==> rs[rank] == RankPartAsWritten(parts[rank], share, rank, size, filler)
    requires Collect(rs).Ok?
    ensures |Concat(Collect(rs).value)| >= |global| && Concat(Collect(rs).value)[..|global|] == global
  {
    var padded := Collect(rs).value;
    assert forall rank :: 0 <= rank < size ==> RankPartAsWritten(parts[rank], share, rank, size, filler) == Ok(padded[rank]);
    AsWrittenParts(global, size, parts, share, filler, padded);
  }

  /** The contributions that pass the assertion are the processes' ranges, the last one padded. */
  lemma AsWrittenParts(global: seq<Row>, size: nat, parts: seq<seq<Row>>, share: int, filler: Row, padded: seq<seq<Row>>)
    requires size > 0 && SharedParts(global, size, parts) && |padded| == size
    requires forall rank :: 0 <= rank < size ==> RankPartAsWritten(parts[rank], share, rank, size, filler) == Ok(padded[rank])
    ensures |Concat(padded)| >= |global| && Concat(padded)[..|global|] == global
  {
    assert forall rank :: 0 <= rank < size - 1 ==> padded[rank] == RangeRows(global, size, rank);
    AsWrittenConcat(global, size, padded, share, filler);
  }

  /**
   * The shares disagree: with 5 distinct tuples and 4 processes, `parallelShare` gives
   * the processes 2, 2, 1 and 0 tuples, but `parallelReconstructColumns` expects every
   * process but the last to hold `(5 - 1) // 4 + 1 = 2`, so process 2 fails the
   * assertion although nothing is wrong.
   */
  lemma ReconstructAsWrittenRejectsValidShares(global: seq<Row>, parts: seq<seq<Row>>, filler: Row)
    requires |global| == 5 && SharedParts(global, 4, parts)
    ensures ReconstructAsWritten(|global|, 4, parts, filler) == Err(AssertionError)
    ensures ReconstructCorrected(|global|, 4, parts, filler) == global
  {
    var rs := seq(4, rank requires 0 <= rank < 4 => RankPartAsWritten(parts[rank], 2, rank, 4, filler));
    assert ShareSize(5, 4) == 2;
    assert |RangeRows(global, 4, 0)| == 2 && |RangeRows(global, 4, 1)| == 2 && |RangeRows(global, 4, 2)| == 1;
    assert rs[0].Ok? && rs[1].Ok? && rs[2] == Err(AssertionError);
    CollectFirstError(rs, 2);
    ReconstructCorrectedRoundTrip(global, 4, parts, filler);
  }

  /**
   * `getFullLengthLikelihoods(input_likelihoods)`: the likelihoods of every alignment
   * column, looked up through the edge's index from the edge's array. A local copy first
   * reconstructs the global array from `gathered`, the arrays of all processes in rank
   * order, which the gather collects; its own `input` reaches the result only as its
   * entry of `gathered`.
   */
  function GetFullLengthLikelihoods(e: Node, input: seq<Row>, gathered: seq<seq<Row>>, filler: Row): Result<seq<Row>, Error>
    requires e.Edge? && ValidNode(e)
    requires e.share.Some? ==> Parallel.Size(e.share.value.comm) > 0 && |gathered| == Parallel.Size(e.share.value.comm)
  {
    if e.share.None? then TakeRows(input, e.index)
    else
      var s := e.share.value;
      TakeRows(ReconstructCorrected(s.globalUniqLength - 1, Parallel.Size(s.comm), gathered, filler), e.index)
  }

  /** An edge that is not shared gives, for every column, the row of that column's distinct tuple. */
  lemma GetFullLengthLikelihoodsLocal(e: Node, input: seq<Row>, gathered: seq<seq<Row>>, filler: Row)
    requires ValidNode(e) && e.Edge? && !IsShared(e) && |input| == |e.uniq|
    ensures GetFullLengthLikelihoods(e, input, gathered, filler).Ok?
    ensures |GetFullLengthLikelihoods(e, input, gathered, filler).value| == |e.index|
    ensures forall i :: 0 <= i < |e.index| ==> GetFullLengthLikelihoods(e, input, gathered, filler).value[i] == input[e.index[i]]
  {
  }

  /**
   * A local copy whose processes together hold the global rows `global` gives, for every
   * column, the global row of that column's distinct tuple.
   */
  lemma GetFullLengthLikelihoodsShared(e: Node, input: seq<Row>, global: seq<Row>, gathered: seq<seq<Row>>, filler: Row)
    requires ValidNode(e) && IsShared(e) && Parallel.Size(e.share.value.comm) > 0
    requires |global| == e.share.value.globalUniqLength - 1
    requires SharedParts(global, Parallel.Size(e.share.value.comm), gathered)
    ensures GetFullLengthLikelihoods(e, input, gathered, filler).Ok?
    ensures |GetFullLengthLikelihoods(e, input, gathered, filler).value| == |e.index|
    ensures forall i :: 0 <= i < |e.index| ==> GetFullLengthLikelihoods(e, input, gathered, filler).value[i] == global[e.index[i]]
  {
    ReconstructCorrectedRoundTrip(global, Parallel.Size(e.share.value.comm), gathered, filler);
  }

  /**
   * Rows a likelihood calculation `L` computes on node `n`, when each row depends only on
   * what its distinct entry stands for: one row per distinct entry, the row of real entry
   * `k` being `L` of what `k` stands for; the gap row is not constrained.
   */
  ghost predicate Tabulates(n: Node, rows: seq<Row>, L: Content -> Row)
  {
    |rows| == UniqLength(n) && forall k :: 0 <= k < |rows| - 1 ==> rows[k] == L(EntryContent(n, k))
  }

  /** The rows `L` gives the real distinct tuples of edge `e`, in order. */
  function GlobalRows(e: Node, L: Content -> Row): (rows: seq<Row>)
    requires e.Edge? && |e.uniq| >= 1
    ensures |rows| == |e.uniq| - 1 && forall u :: 0 <= u < |rows| ==> rows[u] == L(EntryContent(e, u))
  {
    seq(|e.uniq| - 1, u requires 0 <= u < |e.uniq| - 1 => L(EntryContent(e, u)))
  }

  /** The communicators the processes of one group of more than one process hold: process `r` has rank `r`. */
  ghost predicate Group(comms: seq<Parallel.Communicator>)
  {
    |comms| > 1 && forall r :: 0 <= r < |comms| ==>
      Parallel.Valid(comms[r]) && Parallel.Size(comms[r]) == |comms| && Parallel.Rank(comms[r]) == r
  }

  /** A gap-terminated array whose real rows are `global[lo + k]` is the rows of `[lo, hi)` and a gap row. */
  lemma PartOfRange(global: seq<Row>, part: seq<Row>, lo: nat, hi: nat)
    requires hi <= |global| && |part| == RangeCount(lo, hi) + 1
    requires forall k :: 0 <= k < |part| - 1 ==> part[k] == global[lo + k]
    ensures DropGapRow(part) == if lo <= hi then global[lo..hi] else []
  {
  }

  /**
   * The array a process computes with `L` on its local copy of an edge built from
   * pre-aligned children holds the global rows of its range, then its gap row.
   */
  lemma PartFromLocalCopy(e: Node, comm: Parallel.Communicator, part: seq<Row>, L: Content -> Row)
    requires ValidNode(e) && e.Edge? && !IsShared(e) && Columnwise(e) && Parallel.Valid(comm) && Parallel.Size(comm) > 1
    requires ParallelShare(e, Some(comm)).Ok? && Tabulates(ParallelShare(e, Some(comm)).value, part, L)
    ensures |part| > 0 && DropGapRow(part) == RangeRows(GlobalRows(e, L), Parallel.Size(comm), Parallel.Rank(comm))
  {
    ParallelShareTuples(e, comm);
    PartFromShare(e, ParallelShare(e, Some(comm)).value, part, L, Parallel.Size(comm), Parallel.Rank(comm));
  }

  /**
   * `parallelShare` in a group of more than one process gives a local copy holding the
   * global distinct tuples `lo <= u < hi` of its range, as `LocalCopyTuples` states.
   */
  lemma ParallelShareTuples(e: Node, comm: Parallel.Communicator)
    requires ValidNode(e) && e.Edge? && !IsShared(e) && Columnwise(e) && Parallel.Valid(comm) && Parallel.Size(comm) > 1
    ensures ParallelShare(e, Some(comm)).Ok? && ParallelShare(e, Some(comm)).value.Edge?
    ensures var u := |e.uniq| - 1;
      var lo := Lo(u, Parallel.Size(comm), Parallel.Rank(comm));
      HoldsTuples(ParallelShare(e, Some(comm)).value, e, lo, RangeCount(lo, Hi(u, Parallel.Size(comm), Parallel.Rank(comm))))
  {
    ParallelShareCases(e, Some(comm));
    LocalCopyTuples(e, comm);
  }

  /** `PartFromLocalCopy` for a local copy holding the global tuples of the range of process `rank` of `size`. */
  lemma PartFromShare(e: Node, local: Node, part: seq<Row>, L: Content -> Row, size: nat, rank: nat)
    requires e.Edge? && |e.uniq| >= 1 && size > 0 && Tabulates(local, part, L)
    requires var u := |e.uniq| - 1;
      HoldsTuples(local, e, Lo(u, size, rank), RangeCount(Lo(u, size, rank), Hi(u, size, rank)))
    ensures |part| > 0 && DropGapRow(part) == RangeRows(GlobalRows(e, L), size, rank)
  {
    var u := |e.uniq| - 1;
    PartFromRange(e, local, part, L, Lo(u, size, rank), Hi(u, size, rank));
  }

  /** `PartFromLocalCopy` for a local copy holding the global tuples `[lo, hi)`. */
  lemma PartFromRange(e: Node, local: Node, part: seq<Row>, L: Content -> Row, lo: nat, hi: nat)
    requires e.Edge? && |e.uniq| >= 1 && hi <= |e.uniq| - 1 && Tabulates(local, part, L)
    requires HoldsTuples(local, e, lo, RangeCount(lo, hi))
    ensures |part| > 0 && DropGapRow(part) == if lo <= hi then GlobalRows(e, L)[lo..hi] else []
  {
    PartOfRange(GlobalRows(e, L), part, lo, hi);
  }

  /**
   * When every process of a group shares an edge built from pre-aligned children and
   * computes its array with `L` on its local copy, the arrays are the global rows split
   * by range, each followed by a gap row: `SharedParts` holds.
   */
  lemma {:induction false} SharedPartsFromLocalCopies(e: Node, comms: seq<Parallel.Communicator>, parts: seq<seq<Row>>, L: Content -> Row)
    requires ValidNode(e) && e.Edge? && !IsShared(e) && Columnwise(e) && Group(comms) && |parts| == |comms|
    requires forall r :: 0 <= r < |comms| ==>
      ParallelShare(e, Some(comms[r])).Ok? && Tabulates(ParallelShare(e, Some(comms[r])).value, parts[r], L)
    ensures SharedParts(GlobalRows(e, L), |comms|, parts)
  {
    forall r | 0 <= r < |comms|
      ensures |parts[r]| > 0 && DropGapRow(parts[r]) == RangeRows(GlobalRows(e, L), |comms|, r)
    {
      PartFromLocalCopy(e, comms[r], parts[r], L);
    }
  }

  /**
   * Sharing an edge built from pre-aligned children among a group, computing each
   * process's array with `L` on its local copy and putting the arrays back together with
   * the share `parallelShare` used gives back the rows of all global distinct tuples;
   * `parallelReconstructColumns` as written gives them too whenever it passes its
   * assertion, and otherwise fails the assertion.
   */
  lemma {:induction false} ShareThenReconstruct(e: Node, comms: seq<Parallel.Communicator>, parts: seq<seq<Row>>, L: Content -> Row, filler: Row)
    requires ValidNode(e) && e.Edge? && !IsShared(e) && Columnwise(e) && Group(comms) && |parts| == |comms|
    requires forall r :: 0 <= r < |comms| ==>
      ParallelShare(e, Some(comms[r])).Ok? && Tabulates(ParallelShare(e, Some(comms[r])).value, parts[r], L)
    ensures ReconstructCorrected(|e.uniq| - 1, |comms|, parts, filler) == GlobalRows(e, L)
    ensures ReconstructAsWritten(|e.uniq| - 1, |comms|, parts, filler).Ok? ==>
      ReconstructAsWritten(|e.uniq| - 1, |comms|, parts, filler).value == GlobalRows(e, L)
    ensures ReconstructAsWritten(|e.uniq| - 1, |comms|, parts, filler).Err? ==>
      ReconstructAsWritten(|e.uniq| - 1, |comms|, parts, filler).error == AssertionError
  {
    SharedPartsFromLocalCopies(e, comms, parts, L);
    ReconstructCorrectedRoundTrip(GlobalRows(e, L), |comms|, parts, filler);
    ReconstructAsWrittenSound(GlobalRows(e, L), |comms|, parts, filler);
  }

  /**
   * After sharing an edge built from pre-aligned children and computing with `L` on the
   * local copies, `getFullLengthLikelihoods` on any process `r`, given its own array
   * `parts[r]`, gives, for every alignment column `i`, `L` of what column `i` holds in the leaves.
   */
  lemma {:induction false} ShareThenFullLength(e: Node, comms: seq<Parallel.Communicator>, parts: seq<seq<Row>>, L: Content -> Row,
                                               r: nat, filler: Row)
    requires ValidNode(e) && e.Edge? && !IsShared(e) && Columnwise(e) && Group(comms) && |parts| == |comms| && r < |comms|
    requires forall r :: 0 <= r < |comms| ==>
      ParallelShare(e, Some(comms[r])).Ok? && Tabulates(ParallelShare(e, Some(comms[r])).value, parts[r], L)
    ensures var local := ParallelShare(e, Some(comms[r])).value;
      && local.Edge? && ValidNode(local) && IsShared(local) && Parallel.Size(local.share.value.comm) == |parts|
      && GetFullLengthLikelihoods(local, parts[r], parts, filler).Ok?
      && |GetFullLengthLikelihoods(local, parts[r], parts, filler).value| == |e.index|
      && forall i :: 0 <= i < |e.index| ==> GetFullLengthLikelihoods(local, parts[r], parts, filler).value[i] == L(ColumnAt(e, i))
  {
    var local := ParallelShare(e, Some(comms[r])).value;
    var global := GlobalRows(e, L);
    assert local == LocalCopy(e, comms[r]).value;
    SharedPartsFromLocalCopies(e, comms, parts, L);
    GetFullLengthLikelihoodsShared(local, parts[r], global, parts, filler);
    forall i | 0 <= i < |e.index|
      ensures global[e.index[i]] == L(ColumnAt(e, i))
    {
      ValidIndexBelowGap(e);
      ColumnwiseContent(e, i);
    }
  }

  /**
   * The disagreement of the shares, on the arrays the processes really hold: sharing an
   * edge with 5 real distinct tuples among 4 processes and putting the arrays back
   * together with `parallelReconstructColumns` as written fails the assertion, while the
   * corrected share gives back the global rows.
   */
  lemma ShareThenReconstructAsWrittenRejects(e: Node, comms: seq<Parallel.Communicator>, parts: seq<seq<Row>>, L: Content -> Row, filler: Row)
    requires ValidNode(e) && e.Edge? && !IsShared(e) && Columnwise(e) && Group(comms) && |parts| == |comms|
    requires |e.uniq| == 6 && |comms| == 4
    requires forall r :: 0 <= r < |comms| ==>
      ParallelShare(e, Some(comms[r])).Ok? && Tabulates(ParallelShare(e, Some(comms[r])).value, parts[r], L)
    ensures ReconstructAsWritten(5, 4, parts, filler) == Err(AssertionError)
    ensures ReconstructCorrected(5, 4, parts, filler) == GlobalRows(e, L)
  {
    SharedPartsFromLocalCopies(e, comms, parts, L);
    ReconstructAsWrittenRejectsValidShares(GlobalRows(e, L), parts, filler);
  }
}
