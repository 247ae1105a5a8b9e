/**
 * The edges of the likelihood tree (`_LikelihoodTreeEdge` in
 * cogent/evolve/likelihood_tree.py). An edge combines, column by column, the index of
 * each child into a tuple, deduplicates the tuples, and appends the tuple of the
 * children's gap entries with count 0. It also keeps one index array per child: the
 * transpose of its tuple table.
 */
module LikelihoodEdge {
  import opened Wrappers
  import opened ColumnIndex
  import opened LikelihoodTree
  import Parallel

  /** What `parallelShare` attaches to a local copy: the communicator and `global_uniq_length`. */
  datatype Share = Share(comm: Parallel.Communicator, globalUniqLength: nat)

  /** A node of the tree. The edge's `shape` is `[len(uniq), width]`. */
  datatype Node =
    | LeafNode(leaf: Leaf)
    | Edge(name: string, children: seq<Node>, uniq: seq<seq<nat>>, counts: seq<nat>, index: seq<nat>,
           indexes: seq<seq<nat>>, width: nat, share: Option<Share>)

  /** An alignment map: per column, the position in each child, or `None` for a gap. */
  type Alignment = seq<seq<Option<int>>>

  function Name(n: Node): string
  {
    if n.LeafNode? then n.leaf.name else n.name
  }

  /** `len(n.uniq)`. */
  function UniqLength(n: Node): nat
  {
    if n.LeafNode? then |n.leaf.uniq| else |n.uniq|
  }

  function Index(n: Node): seq<nat>
  {
    if n.LeafNode? then n.leaf.index else n.index
  }

  /** `n.shape[-1]`: the number of states. */
  function Width(n: Node): nat
  {
    if n.LeafNode? then LeafWidth(n.leaf) else n.width
  }

  /** Whether `parallelShare` made this node a local copy (its `comm` is set). */
  predicate IsShared(n: Node)
  {
    n.Edge? && n.share.Some?
  }

  /** `tuple([len(c.uniq) - 1 for c in children])`: the tuple of the children's gap entries. */
  function GapTuple(children: seq<Node>): (t: seq<nat>)
    requires forall c :: 0 <= c < |children| ==> UniqLength(children[c]) >= 1
    ensures |t| == |children| && forall c :: 0 <= c < |children| ==> t[c] == UniqLength(children[c]) - 1
  {
    seq(|children|, c requires 0 <= c < |children| => UniqLength(children[c]) - 1)
  }

  /** A tuple names one distinct entry of every child. */
  ghost predicate Fits(t: seq<nat>, children: seq<Node>)
  {
    |t| == |children| && forall c :: 0 <= c < |children| ==> t[c] < UniqLength(children[c])
  }

  /** `[numpy.array(list(ch)) for ch in numpy.transpose(rows)]`. */
  function Transpose(rows: seq<seq<nat>>, width: nat): (cols: seq<seq<nat>>)
    requires forall k :: 0 <= k < |rows| ==> |rows[k]| == width
    ensures |cols| == width && forall c :: 0 <= c < width ==> |cols[c]| == |rows|
    ensures forall c, k :: 0 <= c < width && 0 <= k < |rows| ==> cols[c][k] == rows[k][c]
  {
    seq(width, c requires 0 <= c < width => seq(|rows|, k requires 0 <= k < |rows| => rows[k][c]))
  }

  /** Transposing twice gives back the rows: `indexes` and `uniq` hold the same tuples. */
  lemma TransposeTwice(rows: seq<seq<nat>>, width: nat)
    requires forall k :: 0 <= k < |rows| ==> |rows[k]| == width
    ensures Transpose(Transpose(rows, width), |rows|) == rows
  {
    var back := Transpose(Transpose(rows, width), |rows|);
    assert forall k :: 0 <= k < |rows| ==> back[k] == rows[k];
  }

  /**
   * What every node satisfies. A leaf is a valid leaf. An edge has at least one child,
   * each valid, not a local copy and of the edge's width; every tuple names an entry of
   * every child, the last tuple is the gap tuple with count 0, and `indexes` is the
   * transpose of `uniq`. An edge that is not a local copy indexes only real tuples and
   * counts its columns; a local copy keeps the global index, which stays below the
   * global gap entry.
   */
  ghost predicate ValidNode(n: Node)
  {
    match n
    case LeafNode(l) => ValidLeaf(l)
    case Edge(_, children, uniq, counts, index, indexes, width, share) =>
      && |children| > 0
      && (forall c :: 0 <= c < |children| ==>
            ValidNode(children[c]) && UniqLength(children[c]) >= 1 && !IsShared(children[c]) && Width(children[c]) == width)
      && |uniq| == |counts| >= 1
      && (forall k :: 0 <= k < |uniq| ==> Fits(uniq[k], children))
      && Last(uniq) == GapTuple(children) && Last(counts) == 0
      && indexes == Transpose(uniq, |children|)
      && match share
         case None =>
           && (forall i :: 0 <= i < |index| ==> index[i] < |uniq| - 1)
           && (forall k :: 0 <= k < |counts| ==> counts[k] == multiset(index)[k])
         case Some(s) =>
           s.globalUniqLength >= 1 && forall i :: 0 <= i < |index| ==> index[i] < s.globalUniqLength - 1
  }

  lemma ValidNodeHasGap(n: Node)
    requires ValidNode(n)
    ensures UniqLength(n) >= 1
  {
  }

  /** A node that is not a local copy indexes only real entries, never its gap entry. */
  lemma ValidIndexBelowGap(n: Node)
    requires ValidNode(n) && !IsShared(n)
    ensures forall i :: 0 <= i < |Index(n)| ==> Index(n)[i] < UniqLength(n) - 1
  {
  }

  /** The length of the shortest row. */
  function MinLength(rows: seq<seq<nat>>): (m: nat)
    requires |rows| > 0
    ensures forall c :: 0 <= c < |rows| ==> m <= |rows[c]|
    ensures exists c :: 0 <= c < |rows| && m == |rows[c]|
  {
    if |rows| == 1 then |rows[0]|
    else
      var m := MinLength(rows[1..]);
      assert forall c :: 1 <= c < |rows| ==> rows[c] == rows[1..][c - 1];
      if |rows[0]| <= m then |rows[0]| else m
  }

  /** `zip(*rows)`: per position, the tuple of the rows' entries; as long as the shortest row. */
  function ZipAll(rows: seq<seq<nat>>): (tuples: seq<seq<nat>>)
    requires |rows| > 0
    ensures |tuples| == MinLength(rows)
    ensures forall i :: 0 <= i < |tuples| ==> |tuples[i]| == |rows|
    ensures forall i, c :: 0 <= i < |tuples| && 0 <= c < |rows| ==> tuples[i][c] == rows[c][i]
  {
    seq(MinLength(rows), i requires 0 <= i < MinLength(rows) =>
      seq(|rows|, c requires 0 <= c < |rows| => rows[c][i]))
  }

  /**
   * `zip(*rows)` cuts every row to the shortest and transposes; on rows of one length it
   * is undone by transposing back.
   */
  lemma ZipAllTransposes(rows: seq<seq<nat>>)
    requires |rows| > 0
    ensures var m := MinLength(rows);
      ZipAll(rows) == Transpose(seq(|rows|, c requires 0 <= c < |rows| => rows[c][..m]), m)
    ensures (forall c :: 0 <= c < |rows| ==> |rows[c]| == |rows[0]|) ==> Transpose(ZipAll(rows), |rows|) == rows
  {
    var m := MinLength(rows);
    var cut := seq(|rows|, c requires 0 <= c < |rows| => rows[c][..m]);
    var t := Transpose(cut, m);
    assert forall i :: 0 <= i < m ==> ZipAll(rows)[i] == t[i];
    if forall c :: 0 <= c < |rows| ==> |rows[c]| == |rows[0]| {
      var back := Transpose(ZipAll(rows), |rows|);
      assert forall c :: 0 <= c < |rows| ==> back[c] == rows[c];
    }
  }

  /** `[c.index for c in children]`. */
  function IndexRows(children: seq<Node>): (rows: seq<seq<nat>>)
    ensures |rows| == |children| && forall c :: 0 <= c < |children| ==> rows[c] == Index(children[c])
  {
    seq(|children|, c requires 0 <= c < |children| => Index(children[c]))
  }

  /** The tuple of the children's entries at column `i` of a pre-aligned edge. */
  function ColumnTuple(children: seq<Node>, i: nat): (t: seq<nat>)
    requires forall c :: 0 <= c < |children| ==> i < |Index(children[c])|
    ensures |t| == |children| && forall c :: 0 <= c < |children| ==> t[c] == Index(children[c])[i]
  {
    seq(|children|, c requires 0 <= c < |children| => Index(children[c])[i])
  }

  /**
   * The entry of child `i` at one alignment column (`align_index`): its gap entry for
   * `None`, else its index at that position. A missing position or one outside the
   * child raises IndexError; an index at or beyond the gap entry raises RuntimeError.
   */
  function AssignOne(c: Node, i: nat, alignIndex: seq<Option<int>>): Result<nat, Error>
    requires UniqLength(c) >= 1
  {
    if i >= |alignIndex| then Err(IndexError)
    else
      match alignIndex[i]
      case None => Ok(UniqLength(c) - 1)
      case Some(col) =>
        (match PyIndex(col, |Index(c)|)
         case None => Err(IndexError)
         case Some(p) => if Index(c)[p] < UniqLength(c) - 1 then Ok(Index(c)[p]) else Err(RuntimeError))
  }

  /** `assignments[i]`: child `i`'s entries at every alignment column. */
  function ChildAssignment(c: Node, i: nat, alignment: Alignment): Result<seq<nat>, Error>
    requires UniqLength(c) >= 1
  {
    Collect(seq(|alignment|, j requires 0 <= j < |alignment| => AssignOne(c, i, alignment[j])))
  }

  /** `assignments`, failing with the first error in child-then-column order. */
  function Assignments(children: seq<Node>, alignment: Alignment): Result<seq<seq<nat>>, Error>
    requires forall c :: 0 <= c < |children| ==> UniqLength(children[c]) >= 1
  {
    Collect(seq(|children|, i requires 0 <= i < |children| => ChildAssignment(children[i], i, alignment)))
  }

  /** The nested loops of the edge constructor that build `assignments` from an alignment map. */
  method BuildAssignments(children: seq<Node>, alignment: Alignment) returns (r: Result<seq<seq<nat>>, Error>)
    requires forall c :: 0 <= c < |children| ==> UniqLength(children[c]) >= 1
    ensures r == Assignments(children, alignment)
  {
    ghost var perChild := seq(|children|, i requires 0 <= i < |children| => ChildAssignment(children[i], i, alignment));
    var assignments: seq<seq<nat>> := [];
    var i := 0;
    while i < |children|
      invariant 0 <= i <= |children| && |assignments| == i
      invariant forall k :: 0 <= k < i ==> perChild[k] == Ok(assignments[k])
    {
      var c := children[i];
      ghost var steps := seq(|alignment|, j requires 0 <= j < |alignment| => AssignOne(c, i, alignment[j]));
      var a: seq<nat> := [];
      var j := 0;
      while j < |alignment|
        invariant 0 <= j <= |alignment| && |a| == j
        invariant forall m :: 0 <= m < j ==> steps[m] == Ok(a[m])
      {
        var alignIndex := alignment[j];
        var u: nat;
        if i >= |alignIndex| {
          CollectFirstError(steps, j);
          CollectFirstError(perChild, i);
          return Err(IndexError);
        }
        match alignIndex[i] {
          case None =>
            u := UniqLength(c) - 1;
          case Some(col) =>
            var p := PyIndex(col, |Index(c)|);
            if p.None? {
              CollectFirstError(steps, j);
              CollectFirstError(perChild, i);
              return Err(IndexError);
            }
            u := Index(c)[p.value];
            if !(u < UniqLength(c) - 1) {
              CollectFirstError(steps, j);
              CollectFirstError(perChild, i);
              return Err(RuntimeError);
            }
        }
        a := a + [u];
        j := j + 1;
      }
      CollectAllOk(steps, a);
      assignments := assignments + [a];
      i := i + 1;
    }
    CollectAllOk(perChild, assignments);
    r := Ok(assignments);
  }

  /** All children have the width of the first (the constructor's `assert`). */
  predicate SameWidth(children: seq<Node>)
    requires |children| > 0
  {
    forall c :: 0 <= c < |children| ==> Width(children[c]) == Width(children[0])
  }

  /** The edge the constructor builds from its tuples. */
  function EdgeFromTuples(children: seq<Node>, name: string, tuples: seq<seq<nat>>): Node
    requires |children| > 0 && forall c :: 0 <= c < |children| ==> UniqLength(children[c]) >= 1
    requires forall i :: 0 <= i < |tuples| ==> |tuples[i]| == |children|
  {
    var idx := Indexed(tuples);
    IndexedUniqueFromValues(tuples);
    var uniq := idx.unique + [GapTuple(children)];
    Edge(name, children, uniq, idx.counts + [0], idx.index, Transpose(uniq, |children|), Width(children[0]), None)
  }

  /** The fields of an edge built from its column tuples. */
  lemma EdgeFromTuplesFields(children: seq<Node>, name: string, tuples: seq<seq<nat>>)
    requires |children| > 0 && forall c :: 0 <= c < |children| ==> UniqLength(children[c]) >= 1
    requires forall i :: 0 <= i < |tuples| ==> |tuples[i]| == |children|
    ensures EdgeFromTuples(children, name, tuples).Edge?
    ensures EdgeFromTuples(children, name, tuples).index == Indexed(tuples).index
    ensures EdgeFromTuples(children, name, tuples).uniq == Indexed(tuples).unique + [GapTuple(children)]
    ensures EdgeFromTuples(children, name, tuples).counts == Indexed(tuples).counts + [0]
  {
  }

  /**
   * `_LikelihoodTreeEdge(children, edge_name, alignment)`. No children raises IndexError,
   * children of different widths fail the assertion, and an alignment map may raise
   * while it is translated.
   */
  function MakeEdge(children: seq<Node>, name: string, alignment: Option<Alignment>): Result<Node, Error>
    requires forall c :: 0 <= c < |children| ==> ValidNode(children[c])
  {
    if |children| == 0 then Err(IndexError)
    else if !SameWidth(children) then Err(AssertionError)
    else
      assert forall c :: 0 <= c < |children| ==> UniqLength(children[c]) >= 1 by {
        forall c | 0 <= c < |children| { ValidNodeHasGap(children[c]); }
      }
      match alignment
      case None => Ok(EdgeFromTuples(children, name, ZipAll(IndexRows(children))))
      case Some(al) =>
        (match Assignments(children, al)
         case Err(e) => Err(e)
         case Ok(rows) => Ok(EdgeFromTuples(children, name, ZipAll(rows))))
  }

  /** Whether child `i` accepts one alignment column: a gap, or a real position of it. */
  ghost predicate EntryFits(c: Node, i: nat, alignIndex: seq<Option<int>>)
  {
    && i < |alignIndex|
    && (alignIndex[i].Some? ==>
          && PyIndex(alignIndex[i].value, |Index(c)|).Some?
          && Index(c)[PyIndex(alignIndex[i].value, |Index(c)|).value] < UniqLength(c) - 1)
  }

  /** Whether every child accepts every alignment column. */
  ghost predicate AlignmentFits(children: seq<Node>, alignment: Alignment)
  {
    forall j, i :: 0 <= j < |alignment| && 0 <= i < |children| ==> EntryFits(children[i], i, alignment[j])
  }

  /** The entry of child `i` an accepted alignment column stands for. */
  ghost function AlignedEntry(c: Node, i: nat, alignIndex: seq<Option<int>>): nat
    requires UniqLength(c) >= 1 && EntryFits(c, i, alignIndex)
  {
    if alignIndex[i].None? then UniqLength(c) - 1
    else Index(c)[PyIndex(alignIndex[i].value, |Index(c)|).value]
  }

  /** The tuple an alignment column stands for: each child's gap entry or its entry at the position. */
  ghost function AlignedTuple(children: seq<Node>, alignIndex: seq<Option<int>>): (t: seq<nat>)
    requires forall c :: 0 <= c < |children| ==> UniqLength(children[c]) >= 1 && EntryFits(children[c], c, alignIndex)
    ensures |t| == |children| && forall c :: 0 <= c < |children| ==> t[c] == AlignedEntry(children[c], c, alignIndex)
  {
    seq(|children|, c requires 0 <= c < |children| => AlignedEntry(children[c], c, alignIndex))
  }

  lemma AssignOneOk(c: Node, i: nat, alignIndex: seq<Option<int>>)
    requires UniqLength(c) >= 1
    ensures AssignOne(c, i, alignIndex).Ok? <==> EntryFits(c, i, alignIndex)
    ensures AssignOne(c, i, alignIndex).Ok? ==> AssignOne(c, i, alignIndex).value == AlignedEntry(c, i, alignIndex)
  {
  }

  /** Where the alignment map is translated, `assignments[c][j]` is what column `j` stands for in child `c`. */
  lemma {:induction false} AssignmentsEntry(children: seq<Node>, alignment: Alignment, c: nat, j: nat)
    requires forall c :: 0 <= c < |children| ==> UniqLength(children[c]) >= 1
    requires Assignments(children, alignment).Ok? && c < |children| && j < |alignment|
    ensures var rows := Assignments(children, alignment).value;
      |rows| == |children| && |rows[c]| == |alignment| && AssignOne(children[c], c, alignment[j]) == Ok(rows[c][j])
  {
    var rows := Assignments(children, alignment).value;
    var perChild := seq(|children|, i requires 0 <= i < |children| => ChildAssignment(children[i], i, alignment));
    var steps := seq(|alignment|, m requires 0 <= m < |alignment| => AssignOne(children[c], c, alignment[m]));
    assert perChild[c] == Ok(rows[c]) && perChild[c] == Collect(steps);
    assert steps[j] == Ok(rows[c][j]);
  }

  lemma {:induction false} AssignmentsOk(children: seq<Node>, alignment: Alignment)
    requires forall c :: 0 <= c < |children| ==> UniqLength(children[c]) >= 1
    ensures Assignments(children, alignment).Ok? <==> AlignmentFits(children, alignment)
  {
    var perChild := seq(|children|, i requires 0 <= i < |children| => ChildAssignment(children[i], i, alignment));
    forall i, j | 0 <= i < |children| && 0 <= j < |alignment|
      ensures AssignOne(children[i], i, alignment[j]).Ok? <==> EntryFits(children[i], i, alignment[j])
    {
      AssignOneOk(children[i], i, alignment[j]);
    }
    forall i | 0 <= i < |children|
      ensures perChild[i].Ok? <==> forall j :: 0 <= j < |alignment| ==> AssignOne(children[i], i, alignment[j]).Ok?
    {
      var steps := seq(|alignment|, j requires 0 <= j < |alignment| => AssignOne(children[i], i, alignment[j]));
      assert perChild[i] == Collect(steps);
      assert forall j :: 0 <= j < |alignment| ==> steps[j] == AssignOne(children[i], i, alignment[j]);
    }
  }

  /**
   * An edge is built exactly when there is a child, all children have one width and,
   * given an alignment map, every child accepts every column. No children raises
   * IndexError and a width mismatch fails the assertion.
   */
  lemma {:induction false} MakeEdgeSucceeds(children: seq<Node>, name: string, alignment: Option<Alignment>)
    requires forall c :: 0 <= c < |children| ==> ValidNode(children[c])
    ensures MakeEdge(children, name, alignment).Ok? <==>
      |children| > 0 && SameWidth(children) && (alignment.Some? ==> AlignmentFits(children, alignment.value))
    ensures |children| == 0 ==> MakeEdge(children, name, alignment) == Err(IndexError)
    ensures |children| > 0 && !SameWidth(children) ==> MakeEdge(children, name, alignment) == Err(AssertionError)
  {
    if |children| > 0 && SameWidth(children) && alignment.Some? {
      forall c | 0 <= c < |children| { ValidNodeHasGap(children[c]); }
      AssignmentsOk(children, alignment.value);
    }
  }

  /**
   * A failing alignment map raises the error of the first child, and within it the
   * first column, that fails; over valid children that are not local copies it is
   * never the RuntimeError, only an IndexError.
   */
  lemma {:induction false} MakeEdgeAlignmentError(children: seq<Node>, name: string, alignment: Alignment)
    requires forall c :: 0 <= c < |children| ==> ValidNode(children[c])
    requires |children| > 0 && SameWidth(children)
    requires MakeEdge(children, name, Some(alignment)).Err?
    ensures forall c :: 0 <= c < |children| ==> UniqLength(children[c]) >= 1
    ensures exists i, j :: (0 <= i < |children| && 0 <= j < |alignment|
      && AssignOne(children[i], i, alignment[j]) == Err(MakeEdge(children, name, Some(alignment)).error)
      && (forall i', j' :: 0 <= i' < i && 0 <= j' < |alignment| ==> AssignOne(children[i'], i', alignment[j']).Ok?)
      && (forall j' :: 0 <= j' < j ==> AssignOne(children[i], i, alignment[j']).Ok?))
    ensures (forall c :: 0 <= c < |children| ==> !IsShared(children[c])) ==>
      MakeEdge(children, name, Some(alignment)).error == IndexError
  {
    forall c | 0 <= c < |children| { ValidNodeHasGap(children[c]); }
    assert MakeEdge(children, name, Some(alignment)).error == Assignments(children, alignment).error;
    var i, j := AssignmentsFailure(children, alignment);
    if forall c :: 0 <= c < |children| ==> !IsShared(children[c]) {
      ValidIndexBelowGap(children[i]);
      AssignOneIndexError(children[i], i, alignment[j]);
    }
  }

  /** Over a child whose indices all stay below its gap entry, a column fails only with IndexError. */
  lemma AssignOneIndexError(c: Node, i: nat, alignIndex: seq<Option<int>>)
    requires UniqLength(c) >= 1 && forall p :: 0 <= p < |Index(c)| ==> Index(c)[p] < UniqLength(c) - 1
    ensures AssignOne(c, i, alignIndex).Err? ==> AssignOne(c, i, alignIndex).error == IndexError
  {
  }

  /** The first child, and within it the first column, whose translation fails. */
  lemma {:induction false} AssignmentsFailure(children: seq<Node>, alignment: Alignment) returns (i: nat, j: nat)
    requires forall c :: 0 <= c < |children| ==> UniqLength(children[c]) >= 1
    requires Assignments(children, alignment).Err?
    ensures i < |children| && j < |alignment|
    ensures AssignOne(children[i], i, alignment[j]) == Err(Assignments(children, alignment).error)
    ensures forall i', j' :: 0 <= i' < i && 0 <= j' < |alignment| ==> AssignOne(children[i'], i', alignment[j']).Ok?
    ensures forall j' :: 0 <= j' < j ==> AssignOne(children[i], i, alignment[j']).Ok?
  {
    var e := Assignments(children, alignment).error;
    var perChild := seq(|children|, i requires 0 <= i < |children| => ChildAssignment(children[i], i, alignment));
    i := CollectFailure(perChild);
    var steps := seq(|alignment|, j requires 0 <= j < |alignment| => AssignOne(children[i], i, alignment[j]));
    assert Collect(steps) == Err(e);
    j := CollectFailure(steps);
    assert forall m :: 0 <= m < |alignment| ==> steps[m] == AssignOne(children[i], i, alignment[m]);
    forall i', j' | 0 <= i' < i && 0 <= j' < |alignment|
      ensures AssignOne(children[i'], i', alignment[j']).Ok?
    {
      assert perChild[i'].Ok?;
      PrefixChildSucceeds(children, alignment, i', j');
    }
  }

  lemma {:induction false} PrefixChildSucceeds(children: seq<Node>, alignment: Alignment, i: nat, j: nat)
    requires forall c :: 0 <= c < |children| ==> UniqLength(children[c]) >= 1
    requires i < |children| && j < |alignment| && ChildAssignment(children[i], i, alignment).Ok?
    ensures AssignOne(children[i], i, alignment[j]).Ok?
  {
    var steps := seq(|alignment|, m requires 0 <= m < |alignment| => AssignOne(children[i], i, alignment[m]));
    assert steps[j].Ok?;
  }

  /** Deduplicating tuples that fit the children gives a valid edge over them. */
  lemma {:induction false} EdgeFromTuplesValid(children: seq<Node>, name: string, tuples: seq<seq<nat>>)
    requires |children| > 0 && SameWidth(children)
    requires forall c :: 0 <= c < |children| ==> ValidNode(children[c]) && !IsShared(children[c])
    requires forall i :: 0 <= i < |tuples| ==> |tuples[i]| == |children| && Fits(tuples[i], children)
    ensures forall c :: 0 <= c < |children| ==> UniqLength(children[c]) >= 1
    ensures ValidNode(EdgeFromTuples(children, name, tuples))
  {
    forall c | 0 <= c < |children| { ValidNodeHasGap(children[c]); }
    var e := EdgeFromTuples(children, name, tuples);
    var idx := Indexed(tuples);
    IndexedUniqueFromValues(tuples);
    GapCountsColumns(tuples);
    assert e.uniq == idx.unique + [GapTuple(children)];
    assert e.counts == idx.counts + [0] && e.index == idx.index;
    forall k | 0 <= k < |e.uniq|
      ensures Fits(e.uniq[k], children)
    {
      if k < |idx.unique| {
        assert e.uniq[k] == idx.unique[k];
      }
    }
    forall k | 0 <= k < |e.counts|
      ensures e.counts[k] == multiset(e.index)[k]
    {
      assert e.counts[k] == (idx.counts + [0])[k];
    }
  }

  /**
   * A built edge over valid children that are not local copies is a valid node of
   * their width, named `edge_name`, and not a local copy.
   */
  lemma {:induction false} MakeEdgeValid(children: seq<Node>, name: string, alignment: Option<Alignment>)
    requires forall c :: 0 <= c < |children| ==> ValidNode(children[c]) && !IsShared(children[c])
    requires MakeEdge(children, name, alignment).Ok?
    ensures var e := MakeEdge(children, name, alignment).value;
      ValidNode(e) && !IsShared(e) && e.Edge? && Name(e) == name && Width(e) == Width(children[0])
  {
    forall c | 0 <= c < |children| ensures UniqLength(children[c]) >= 1 { ValidNodeHasGap(children[c]); }
    var rows := RowsFit(children, name, alignment);
    ZipFits(children, rows);
    EdgeFromTuplesValid(children, name, ZipAll(rows));
  }

  /** The rows the constructor zips, each entry naming a distinct entry of its child. */
  lemma {:induction false} RowsFit(children: seq<Node>, name: string, alignment: Option<Alignment>) returns (rows: seq<seq<nat>>)
    requires forall c :: 0 <= c < |children| ==> ValidNode(children[c]) && !IsShared(children[c])
    requires MakeEdge(children, name, alignment).Ok?
    ensures forall c :: 0 <= c < |children| ==> UniqLength(children[c]) >= 1
    ensures |rows| == |children| > 0 && SameWidth(children)
    ensures MakeEdge(children, name, alignment) == Ok(EdgeFromTuples(children, name, ZipAll(rows)))
    ensures forall c, i :: 0 <= c < |children| && 0 <= i < |rows[c]| ==> rows[c][i] < UniqLength(children[c])
  {
    forall c | 0 <= c < |children| ensures UniqLength(children[c]) >= 1 { ValidNodeHasGap(children[c]); }
    if alignment.None? {
      rows := IndexRows(children);
      forall c | 0 <= c < |children| { ValidIndexBelowGap(children[c]); }
    } else {
      rows := Assignments(children, alignment.value).value;
      AssignmentsFit(children, alignment.value);
    }
  }

  /** Every translated entry names a distinct entry of its child. */
  lemma {:induction false} AssignmentsFit(children: seq<Node>, alignment: Alignment)
    requires forall c :: 0 <= c < |children| ==> UniqLength(children[c]) >= 1
    requires Assignments(children, alignment).Ok?
    ensures var rows := Assignments(children, alignment).value;
      forall c, i :: 0 <= c < |rows| && 0 <= i < |rows[c]| ==> rows[c][i] < UniqLength(children[c])
  {
    var rows := Assignments(children, alignment).value;
    forall c, i | 0 <= c < |rows| && 0 <= i < |rows[c]|
      ensures rows[c][i] < UniqLength(children[c])
    {
      AssignmentsEntry(children, alignment, c, i);
    }
  }

  /** Zipping rows whose entries fit their children gives tuples that fit the children. */
  lemma {:induction false} ZipFits(children: seq<Node>, rows: seq<seq<nat>>)
    requires |rows| == |children| > 0
    requires forall c, i :: 0 <= c < |children| && 0 <= i < |rows[c]| ==> rows[c][i] < UniqLength(children[c])
    ensures forall i :: 0 <= i < |ZipAll(rows)| ==> |ZipAll(rows)[i]| == |children| && Fits(ZipAll(rows)[i], children)
  {
    var tuples := ZipAll(rows);
    forall i | 0 <= i < |tuples|
      ensures |tuples[i]| == |children| && Fits(tuples[i], children)
    {
      forall c | 0 <= c < |children|
        ensures tuples[i][c] < UniqLength(children[c])
      {
        assert tuples[i][c] == rows[c][i];
      }
    }
  }

  /**
   * A pre-aligned edge (no alignment map) has one column per column common to all
   * children, and `uniq[index[i]]` is the tuple of the children's indices at `i`.
   */
  lemma {:induction false} MakeEdgeColumns(children: seq<Node>, name: string)
    requires forall c :: 0 <= c < |children| ==> ValidNode(children[c])
    requires MakeEdge(children, name, None).Ok?
    ensures var e := MakeEdge(children, name, None).value;
      && e.Edge? && |e.index| == MinLength(IndexRows(children))
      && (forall c :: 0 <= c < |children| ==> |e.index| <= |Index(children[c])|)
      && forall i :: 0 <= i < |e.index| ==> e.index[i] < |e.uniq| && e.uniq[e.index[i]] == ColumnTuple(children, i)
  {
    forall c | 0 <= c < |children| { ValidNodeHasGap(children[c]); }
    var tuples := ZipAll(IndexRows(children));
    assert MakeEdge(children, name, None) == Ok(EdgeFromTuples(children, name, tuples));
    EdgeFromTuplesColumns(children, name, tuples);
    assert forall i :: 0 <= i < |tuples| ==> tuples[i] == ColumnTuple(children, i);
  }

  /**
   * An edge built from an alignment map has one column per alignment column, and
   * `uniq[index[j]]` is the tuple that column stands for.
   */
  lemma {:induction false} MakeEdgeAlignedColumns(children: seq<Node>, name: string, alignment: Alignment)
    requires forall c :: 0 <= c < |children| ==> ValidNode(children[c])
    requires MakeEdge(children, name, Some(alignment)).Ok?
    ensures forall c :: 0 <= c < |children| ==> UniqLength(children[c]) >= 1
    ensures AlignmentFits(children, alignment)
    ensures var e := MakeEdge(children, name, Some(alignment)).value;
      && e.Edge? && |e.index| == |alignment|
      && forall j :: 0 <= j < |alignment| ==> e.index[j] < |e.uniq| && e.uniq[e.index[j]] == AlignedTuple(children, alignment[j])
  {
    var tuples := AlignedTuples(children, name, alignment);
    EdgeFromTuplesColumns(children, name, tuples);
  }

  /** Column `i` of an edge built from tuples sits at the deduplicated copy of `tuples[i]`. */
  lemma EdgeFromTuplesColumns(children: seq<Node>, name: string, tuples: seq<seq<nat>>)
    requires |children| > 0 && forall c :: 0 <= c < |children| ==> UniqLength(children[c]) >= 1
    requires forall i :: 0 <= i < |tuples| ==> |tuples[i]| == |children|
    ensures EdgeFromTuples(children, name, tuples).Edge?
    ensures |EdgeFromTuples(children, name, tuples).index| == |tuples|
    ensures forall i :: 0 <= i < |tuples| ==>
      var e := EdgeFromTuples(children, name, tuples); e.index[i] < |e.uniq| && e.uniq[e.index[i]] == tuples[i]
  {
    var e := EdgeFromTuples(children, name, tuples);
    var idx := Indexed(tuples);
    IndexedMapsBack(tuples);
    EdgeFromTuplesFields(children, name, tuples);
    forall i | 0 <= i < |tuples|
      ensures e.index[i] < |e.uniq| && e.uniq[e.index[i]] == tuples[i]
    {
      assert e.uniq[e.index[i]] == idx.unique[idx.index[i]];
    }
  }

  /**
   * An alignment column that is a gap in every child becomes a real tuple equal to the
   * gap tuple, counted at least once, beside the synthetic gap entry with count 0.
   */
  lemma {:induction false} AllGapColumn(children: seq<Node>, name: string, alignment: Alignment, j: nat)
    requires forall c :: 0 <= c < |children| ==> ValidNode(children[c])
    requires MakeEdge(children, name, Some(alignment)).Ok?
    requires j < |alignment| && |alignment[j]| >= |children|
    requires forall c :: 0 <= c < |children| ==> alignment[j][c].None?
    ensures MakeEdge(children, name, Some(alignment)).value.Edge?
    ensures GapColumnCounted(MakeEdge(children, name, Some(alignment)).value, j)
  {
    var tuples := AlignedTuples(children, name, alignment);
    AllGapTuple(children, alignment[j]);
    GapTupleCounted(children, name, tuples, j);
  }

  /** The column tuples an edge built from an alignment map deduplicates. */
  lemma {:induction false} AlignedTuples(children: seq<Node>, name: string, alignment: Alignment) returns (tuples: seq<seq<nat>>)
    requires forall c :: 0 <= c < |children| ==> ValidNode(children[c])
    requires MakeEdge(children, name, Some(alignment)).Ok?
    ensures |children| > 0 && forall c :: 0 <= c < |children| ==> UniqLength(children[c]) >= 1
    ensures AlignmentFits(children, alignment)
    ensures |tuples| == |alignment| && forall i :: 0 <= i < |tuples| ==> |tuples[i]| == |children|
    ensures forall i :: 0 <= i < |tuples| ==> tuples[i] == AlignedTuple(children, alignment[i])
    ensures MakeEdge(children, name, Some(alignment)) == Ok(EdgeFromTuples(children, name, tuples))
  {
    forall c | 0 <= c < |children| { ValidNodeHasGap(children[c]); }
    MakeEdgeSucceeds(children, name, Some(alignment));
    var rows := Assignments(children, alignment).value;
    tuples := ZipAll(rows);
    AssignmentsShape(children, alignment);
    forall i | 0 <= i < |tuples|
      ensures tuples[i] == AlignedTuple(children, alignment[i])
    {
      forall c | 0 <= c < |children|
        ensures tuples[i][c] == AlignedTuple(children, alignment[i])[c]
      {
        AssignmentsEntry(children, alignment, c, i);
        AssignOneOk(children[c], c, alignment[i]);
      }
    }
  }

  /** Translated rows: one per child, one entry per alignment column. */
  lemma {:induction false} AssignmentsShape(children: seq<Node>, alignment: Alignment)
    requires |children| > 0 && forall c :: 0 <= c < |children| ==> UniqLength(children[c]) >= 1
    requires Assignments(children, alignment).Ok?
    ensures |Assignments(children, alignment).value| == |children|
    ensures MinLength(Assignments(children, alignment).value) == |alignment|
  {
    var rows := Assignments(children, alignment).value;
    var perChild := seq(|children|, i requires 0 <= i < |children| => ChildAssignment(children[i], i, alignment));
    forall c | 0 <= c < |children| ensures |rows[c]| == |alignment| {
      assert perChild[c] == Ok(rows[c]);
    }
  }

  /** A column that is a gap in every child stands for the gap tuple. */
  lemma AllGapTuple(children: seq<Node>, alignIndex: seq<Option<int>>)
    requires forall c :: 0 <= c < |children| ==> UniqLength(children[c]) >= 1
    requires |alignIndex| >= |children| && forall c :: 0 <= c < |children| ==> alignIndex[c].None?
    ensures forall c :: 0 <= c < |children| ==> EntryFits(children[c], c, alignIndex)
    ensures AlignedTuple(children, alignIndex) == GapTuple(children)
  {
  }

  /** Column `j` of edge `e` is at a real entry equal to the gap entry, counted at least once. */
  ghost predicate GapColumnCounted(e: Node, j: nat)
    requires e.Edge?
  {
    && j < |e.index| && e.index[j] < |e.uniq| - 1 && e.uniq[e.index[j]] == Last(e.uniq)
    && e.index[j] < |e.counts| && e.counts[e.index[j]] >= 1
  }

  /** A column whose tuple is the gap tuple is counted, at a real entry equal to the last one. */
  lemma GapTupleCounted(children: seq<Node>, name: string, tuples: seq<seq<nat>>, j: nat)
    requires |children| > 0 && forall c :: 0 <= c < |children| ==> UniqLength(children[c]) >= 1
    requires forall i :: 0 <= i < |tuples| ==> |tuples[i]| == |children|
    requires j < |tuples| && tuples[j] == GapTuple(children)
    ensures EdgeFromTuples(children, name, tuples).Edge?
    ensures GapColumnCounted(EdgeFromTuples(children, name, tuples), j)
  {
    var e := EdgeFromTuples(children, name, tuples);
    var idx := Indexed(tuples);
    GapCountsColumns(tuples);
    IndexedMapsBack(tuples);
    EdgeFromTuplesFields(children, name, tuples);
    assert e.uniq[e.index[j]] == idx.unique[idx.index[j]] == tuples[j];
    assert e.counts[e.index[j]] == multiset(idx.index)[idx.index[j]];
    assert idx.index[j] in idx.index;
  }

  /** Whether every leaf below `n` has all the columns `cols` names. */
  ghost predicate ColumnsFit(n: Node, cols: seq<int>)
  {
    match n
    case LeafNode(l) => ColumnsInRange(cols, |l.index|)
    case Edge(_, children, _, _, _, _, _, _) => forall c :: 0 <= c < |children| ==> ColumnsFit(children[c], cols)
  }

  /**
   * `selectColumns(cols)`: a leaf keeps the named columns; an edge selects them in every
   * child and pairs the results as a pre-aligned edge of the same name. It fails with
   * IndexError exactly when some leaf lacks a named column, and otherwise gives a valid
   * node of the same name and width with one column per entry of `cols`.
   */
  function SelectColumns(n: Node, cols: seq<int>): (r: Result<Node, Error>)
    requires ValidNode(n)
    decreases n, 2
    ensures r.Ok? <==> ColumnsFit(n, cols)
    ensures r.Err? ==> r.error == IndexError
    ensures r.Ok? ==> (ValidNode(r.value) && !IsShared(r.value) && r.value.Edge? == n.Edge? && Name(r.value) == Name(n)
      && Width(r.value) == Width(n) && |Index(r.value)| == |cols|)
  {
    match n
    case LeafNode(l) =>
      LeafSelectColumnsSucceeds(l, cols);
      if !ColumnsInRangeCompute(cols, |l.index|) then Err(IndexError)
      else
        LeafSelectColumnsColumns(l, cols);
        LeafSelectColumnsValid(l, cols);
        Ok(LeafNode(LeafSelectColumns(l, cols).value))
    case Edge(_, _, _, _, _, _, _, _) =>
      match SelectChildren(n, cols)
      case Err(e) => Err(e)
      case Ok(kids) =>
        SelectChildrenValid(n, cols);
        SelectedEdge(n, cols, kids)
  }

  /** The children of an edge, each with the columns `cols` selected; the first failure wins. */
  function SelectChildren(n: Node, cols: seq<int>): (r: Result<seq<Node>, Error>)
    requires n.Edge? && forall c :: 0 <= c < |n.children| ==> ValidNode(n.children[c]) && Width(n.children[c]) == n.width
    decreases n, 0
    ensures r.Ok? <==> forall c :: 0 <= c < |n.children| ==> ColumnsFit(n.children[c], cols)
    ensures r.Err? ==> r.error == IndexError
    ensures r.Ok? ==> |r.value| == |n.children| && forall c :: 0 <= c < |r.value| ==> r.value[c] == SelectColumns(n.children[c], cols).value
  {
    var rs := seq(|n.children|, c requires 0 <= c < |n.children| => SelectColumns(n.children[c], cols));
    assert forall c :: 0 <= c < |n.children| ==> rs[c] == SelectColumns(n.children[c], cols);
    Collect(rs)
  }

  /** The selected children are valid, not local copies, of the edge's width and have one column per entry of `cols`. */
  lemma SelectChildrenValid(n: Node, cols: seq<int>)
    requires n.Edge? && forall c :: 0 <= c < |n.children| ==> ValidNode(n.children[c]) && Width(n.children[c]) == n.width
    requires SelectChildren(n, cols).Ok?
    decreases n, 1
    ensures var kids := SelectChildren(n, cols).value; |kids| == |n.children| && forall c :: 0 <= c < |kids| ==>
      ValidNode(kids[c]) && !IsShared(kids[c]) && Width(kids[c]) == n.width && |Index(kids[c])| == |cols|
  {
  }

  /** The edge `selectColumns` builds over the selected children. */
  function SelectedEdge(n: Node, cols: seq<int>, kids: seq<Node>): (r: Result<Node, Error>)
    requires n.Edge? && ValidNode(n) && |kids| == |n.children|
    requires forall c :: 0 <= c < |kids| ==>
      ValidNode(kids[c]) && !IsShared(kids[c]) && Width(kids[c]) == Width(n) && |Index(kids[c])| == |cols|
    ensures r.Ok? && ValidNode(r.value) && !IsShared(r.value) && r.value.Edge? && Name(r.value) == Name(n)
      && Width(r.value) == Width(n) && |Index(r.value)| == |cols|
  {
    MakeEdgeSucceeds(kids, n.name, None);
    MakeEdgeValid(kids, n.name, None);
    MakeEdgeColumns(kids, n.name);
    MakeEdge(kids, n.name, None)
  }

  /**
   * `getEdge(name)`: the node itself when it has that name, else for an edge the first
   * match found in its children in order, else `None`.
   */
  function GetEdge(n: Node, name: string): (r: Option<Node>)
    ensures r.Some? ==> Name(r.value) == name
  {
    if Name(n) == name then Some(n)
    else if n.LeafNode? then None
    else
      var found := seq(|n.children|, c requires 0 <= c < |n.children| => GetEdge(n.children[c], name));
      assert forall c :: 0 <= c < |found| ==> found[c].Some? ==> Name(found[c].value) == name;
      FirstSome(found)
  }

  /** The nodes below and including `n`, each before its children, children in order. */
  function Preorder(n: Node): (r: seq<Node>)
    ensures |r| > 0 && r[0] == n
  {
    if n.LeafNode? then [n]
    else [n] + Concat(seq(|n.children|, c requires 0 <= c < |n.children| => Preorder(n.children[c])))
  }

  /** The first node of `s` with that name. */
  function FirstNamed(s: seq<Node>, name: string): (r: Option<Node>)
    ensures r.None? <==> forall i :: 0 <= i < |s| ==> Name(s[i]) != name
    ensures r.Some? ==> exists i :: (0 <= i < |s| && s[i] == r.value && Name(s[i]) == name
      && forall j :: 0 <= j < i ==> Name(s[j]) != name)
  {
    if s == [] then None
    else if Name(s[0]) == name then Some(s[0])
    else
      var r := FirstNamed(s[1..], name);
      assert forall i :: 1 <= i < |s| ==> s[i] == s[1..][i - 1];
      r
  }

  lemma {:induction false} FirstNamedAppend(a: seq<Node>, b: seq<Node>, name: string)
    ensures FirstNamed(a + b, name) == if FirstNamed(a, name).Some? then FirstNamed(a, name) else FirstNamed(b, name)
  {
    if a != [] {
      assert (a + b)[1..] == a[1..] + b;
      FirstNamedAppend(a[1..], b, name);
    } else {
      assert a + b == b;
    }
  }

  lemma {:induction false} FirstNamedConcat(ss: seq<seq<Node>>, name: string)
    ensures FirstNamed(Concat(ss), name) == FirstSome(seq(|ss|, i requires 0 <= i < |ss| => FirstNamed(ss[i], name)))
  {
    var found := seq(|ss|, i requires 0 <= i < |ss| => FirstNamed(ss[i], name));
    if ss != [] {
      FirstNamedAppend(ss[0], Concat(ss[1..]), name);
      FirstNamedConcat(ss[1..], name);
      assert found[1..] == seq(|ss[1..]|, i requires 0 <= i < |ss[1..]| => FirstNamed(ss[1..][i], name));
    }
  }

  /** `getEdge` finds the first node of that name in a depth-first, children-in-order walk. */
  lemma {:induction false} GetEdgeIsFirstInPreorder(n: Node, name: string)
    ensures GetEdge(n, name) == FirstNamed(Preorder(n), name)
  {
    if n.Edge? {
      var ss := seq(|n.children|, c requires 0 <= c < |n.children| => Preorder(n.children[c]));
      FirstNamedAppend([n], Concat(ss), name);
      FirstNamedConcat(ss, name);
      forall c | 0 <= c < |n.children|
        ensures GetEdge(n.children[c], name) == FirstNamed(ss[c], name)
      {
        GetEdgeIsFirstInPreorder(n.children[c], name);
      }
      assert seq(|n.children|, c requires 0 <= c < |n.children| => GetEdge(n.children[c], name))
          == seq(|ss|, i requires 0 <= i < |ss| => FirstNamed(ss[i], name));
    }
  }

  /**
   * `asLeaf(likelihoods)`: a leaf whose distinct entries are the given rows, with the
   * edge's counts, index and name; a row count other than `len(counts)` fails the
   * assertion.
   */
  function AsLeaf(e: Node, likelihoods: seq<Row>): Result<Leaf, Error>
    requires e.Edge?
  {
    if |likelihoods| != |e.counts| then Err(AssertionError)
    else Ok(Leaf(e.name, seq(|likelihoods|, k requires 0 <= k < |likelihoods| => Profile(likelihoods[k])),
                 likelihoods, e.counts, e.index))
  }

  /**
   * Over a valid edge that is not a local copy, with one row per distinct tuple, `asLeaf`
   * is a valid leaf whose every column holds the row of the edge's tuple there.
   */
  lemma {:induction false} AsLeafCorrect(e: Node, likelihoods: seq<Row>)
    requires e.Edge? && ValidNode(e) && !IsShared(e) && Rectangular(likelihoods)
    ensures AsLeaf(e, likelihoods).Ok? <==> |likelihoods| == |e.uniq|
    ensures AsLeaf(e, likelihoods).Err? ==> AsLeaf(e, likelihoods).error == AssertionError
    ensures AsLeaf(e, likelihoods).Ok? ==>
      var l := AsLeaf(e, likelihoods).value;
      && ValidLeaf(l) && l.name == e.name && l.index == e.index && l.counts == e.counts
      && forall i :: 0 <= i < |l.index| ==>
           l.uniq[l.index[i]] == Profile(likelihoods[e.index[i]]) && l.likelihoods[l.index[i]] == likelihoods[e.index[i]]
  {
  }
}
