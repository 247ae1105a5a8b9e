/**
 * What the columns of a likelihood tree stand for (cogent/evolve/likelihood_tree.py),
 * and how `selectColumns` and the edge constructor keep it. Column `i` of a subtree
 * holds, in every leaf below it, that leaf's motif and profile at column `i`; a distinct
 * entry of a node stands for the same nested motifs and profiles through its tuples.
 */
module EdgeColumns {
  import opened Wrappers
  import opened ColumnIndex
  import opened LikelihoodTree
  import opened LikelihoodEdge

  /** A column of a subtree: per leaf its motif and profile, nested as the tree is, or a column a leaf lacks. */
  datatype Content = Missing | LeafContent(entry: Entry, row: Row) | EdgeContent(parts: seq<Content>)

  /**
   * What distinct entry `u` of `n` stands for: for a leaf its motif and profile, for an
   * edge what each child's entry named by tuple `u` stands for.
   */
  function EntryContent(n: Node, u: nat): Content
    decreases n
  {
    match n
    case LeafNode(l) => if u < |l.uniq| && u < |l.likelihoods| then LeafContent(l.uniq[u], l.likelihoods[u]) else Missing
    case Edge(_, children, uniq, _, _, _, _, _) =>
      if u < |uniq| && |uniq[u]| == |children| then
        EdgeContent(seq(|children|, c requires 0 <= c < |children| => EntryContent(children[c], uniq[u][c])))
      else Missing
  }

  /** What column `col` holds in every leaf below `n` (a negative column counts from the leaf's end). */
  function ColumnAt(n: Node, col: int): Content
    decreases n
  {
    match n
    case LeafNode(l) =>
      (match PyIndex(col, |l.index|)
       case None => Missing
       case Some(p) => EntryContent(n, l.index[p]))
    case Edge(_, children, _, _, _, _, _, _) =>
      EdgeContent(seq(|children|, c requires 0 <= c < |children| => ColumnAt(children[c], col)))
  }

  /** The tuples of the children's indices at the columns `0 .. len - 1`. */
  function ColumnTuples(children: seq<Node>, len: nat): (t: seq<seq<nat>>)
    requires forall c :: 0 <= c < |children| ==> len <= |Index(children[c])|
    ensures |t| == len && forall i :: 0 <= i < len ==> t[i] == ColumnTuple(children, i)
  {
    seq(len, i requires 0 <= i < len => ColumnTuple(children, i))
  }

  /**
   * Every edge below `n` was built from pre-aligned children: its distinct tuples and its
   * index are those the constructor makes from the tuples of its children's indices at
   * each of its columns.
   */
  ghost predicate Columnwise(n: Node)
    decreases n
  {
    match n
    case LeafNode(_) => true
    case Edge(_, children, uniq, _, index, _, _, _) =>
      && |children| > 0
      && (forall c :: 0 <= c < |children| ==>
            UniqLength(children[c]) >= 1 && |index| <= |Index(children[c])| && Columnwise(children[c]))
      && index == Indexed(ColumnTuples(children, |index|)).index
      && uniq == Indexed(ColumnTuples(children, |index|)).unique + [GapTuple(children)]
  }

  /** An edge built from pre-aligned children that are themselves built so is built so. */
  lemma MakeEdgeColumnwise(children: seq<Node>, name: string)
    requires forall c :: 0 <= c < |children| ==> ValidNode(children[c]) && Columnwise(children[c])
    requires MakeEdge(children, name, None).Ok?
    ensures Columnwise(MakeEdge(children, name, None).value)
  {
    MakeEdgeColumns(children, name);
    forall c | 0 <= c < |children| ensures UniqLength(children[c]) >= 1 { ValidNodeHasGap(children[c]); }
    var tuples := ZipAll(IndexRows(children));
    assert MakeEdge(children, name, None) == Ok(EdgeFromTuples(children, name, tuples));
    EdgeFromTuplesFields(children, name, tuples);
    var e := MakeEdge(children, name, None).value;
    assert tuples == ColumnTuples(children, |e.index|) by {
      assert forall i :: 0 <= i < |tuples| ==> tuples[i] == ColumnTuple(children, i);
    }
  }

  /** The selection of an edge is the edge the constructor builds over the selected children. */
  lemma SelectedChildren(n: Node, cols: seq<int>)
    requires ValidNode(n) && n.Edge? && ColumnsFit(n, cols)
    ensures SelectChildren(n, cols).Ok?
    ensures MakeEdge(SelectChildren(n, cols).value, n.name, None).Ok?
    ensures SelectColumns(n, cols).value == MakeEdge(SelectChildren(n, cols).value, n.name, None).value
    ensures SelectColumns(n, cols).value.Edge? && SelectColumns(n, cols).value.children == SelectChildren(n, cols).value
  {
    SelectChildrenValid(n, cols);
    var kids := SelectChildren(n, cols).value;
    MakeEdgeSucceeds(kids, n.name, None);
    assert SameWidth(kids);
  }

  /** Selecting columns of any tree gives a tree whose edges are built from pre-aligned children. */
  lemma {:induction false} SelectColumnsColumnwise(n: Node, cols: seq<int>)
    requires ValidNode(n) && ColumnsFit(n, cols)
    ensures Columnwise(SelectColumns(n, cols).value)
    decreases n
  {
    if n.Edge? {
      SelectedChildren(n, cols);
      SelectChildrenValid(n, cols);
      var kids := SelectChildren(n, cols).value;
      forall c | 0 <= c < |kids|
        ensures ValidNode(kids[c]) && Columnwise(kids[c])
      {
        SelectColumnsColumnwise(n.children[c], cols);
      }
      MakeEdgeColumnwise(kids, n.name);
    }
  }

  /** In a tree built from pre-aligned children, the entry of column `i` stands for what every leaf holds at `i`. */
  lemma {:induction false} ColumnwiseContent(n: Node, i: nat)
    requires Columnwise(n) && i < |Index(n)|
    ensures EntryContent(n, Index(n)[i]) == ColumnAt(n, i)
    decreases n
  {
    match n
    case LeafNode(_) =>
    case Edge(name, children, _, _, index, _, _, _) =>
      var tuples := ColumnTuples(children, |index|);
      IndexedMapsBack(tuples);
      var t := n.uniq[index[i]];
      assert t == ColumnTuple(children, i);
      var parts := seq(|children|, c requires 0 <= c < |children| => EntryContent(children[c], t[c]));
      assert forall c :: 0 <= c < |children| ==> Columnwise(children[c]) && i < |Index(children[c])|;
      forall c | 0 <= c < |children|
        ensures parts[c] == ColumnAt(children[c], i)
      {
        ColumnwiseContent(children[c], i);
      }
      assert EntryContent(n, index[i]) == EdgeContent(parts);
  }

  /** Two edges whose children hold the same at columns `ja` and `jb` hold the same there. */
  lemma EdgeColumnsAgree(a: Node, b: Node, ja: int, jb: int)
    requires a.Edge? && b.Edge? && |a.children| == |b.children|
    requires forall c :: 0 <= c < |a.children| ==> ColumnAt(a.children[c], ja) == ColumnAt(b.children[c], jb)
    ensures ColumnAt(a, ja) == ColumnAt(b, jb)
  {
    assert ColumnAt(a, ja).parts == ColumnAt(b, jb).parts;
  }

  /**
   * `selectColumns(cols)` keeps what the columns hold: column `j` of the selection holds,
   * in every leaf, what that leaf held at column `cols[j]`.
   */
  lemma {:induction false} SelectColumnsColumnAt(n: Node, cols: seq<int>, j: nat)
    requires ValidNode(n) && ColumnsFit(n, cols) && j < |cols|
    ensures ColumnAt(SelectColumns(n, cols).value, j) == ColumnAt(n, cols[j])
    decreases n
  {
    if n.LeafNode? {
      LeafSelectColumnsColumns(n.leaf, cols);
    } else {
      SelectedChildren(n, cols);
      var kids := SelectChildren(n, cols).value;
      forall c | 0 <= c < |n.children|
        ensures ColumnAt(kids[c], j) == ColumnAt(n.children[c], cols[j])
      {
        SelectColumnsColumnAt(n.children[c], cols, j);
      }
      EdgeColumnsAgree(SelectColumns(n, cols).value, n, j, cols[j]);
    }
  }

  /**
   * Column `j` of the selection holds, in every leaf, what that leaf held at column
   * `cols[j]`, and the selection's distinct entry at `j` stands for exactly that.
   */
  lemma SelectColumnsContent(n: Node, cols: seq<int>, j: nat)
    requires ValidNode(n) && ColumnsFit(n, cols) && j < |cols|
    ensures ColumnAt(SelectColumns(n, cols).value, j) == ColumnAt(n, cols[j])
    ensures EntryContent(SelectColumns(n, cols).value, Index(SelectColumns(n, cols).value)[j]) == ColumnAt(n, cols[j])
  {
    SelectColumnsColumnAt(n, cols, j);
    SelectColumnsColumnwise(n, cols);
    ColumnwiseContent(SelectColumns(n, cols).value, j);
  }

  /** Whether every entry of `cols` is a column `0 <= i < len`. */
  ghost predicate PlainColumns(cols: seq<int>, len: nat)
  {
    forall j :: 0 <= j < |cols| ==> 0 <= cols[j] < len
  }

  /** In a tree built from pre-aligned children every leaf has every column of the root. */
  lemma {:induction false} ColumnwiseColumnsFit(n: Node, cols: seq<int>)
    requires Columnwise(n) && PlainColumns(cols, |Index(n)|)
    ensures ColumnsFit(n, cols)
    decreases n
  {
    if n.Edge? {
      forall c | 0 <= c < |n.children|
        ensures ColumnsFit(n.children[c], cols)
      {
        ColumnwiseColumnsFit(n.children[c], cols);
      }
    }
  }

  /** The index of an edge built from pre-aligned children deduplicates its column tuples. */
  lemma ColumnwiseIndex(n: Node)
    requires Columnwise(n) && n.Edge?
    ensures forall c :: 0 <= c < |n.children| ==> |n.index| <= |Index(n.children[c])|
    ensures n.index == Indexed(ColumnTuples(n.children, |n.index|)).index
  {
  }

  /**
   * In a tree built from pre-aligned children, two selected columns share a distinct
   * entry of the selection exactly when the columns they were taken from share one.
   */
  lemma {:induction false} SelectColumnsPattern(n: Node, cols: seq<int>, j: nat, j': nat)
    requires PatternReady(n, cols) && j < |cols| && j' < |cols|
    ensures ColumnsFit(n, cols)
    ensures Index(SelectColumns(n, cols).value)[j] == Index(SelectColumns(n, cols).value)[j'] <==>
      Index(n)[cols[j]] == Index(n)[cols[j']]
    decreases n, 1
  {
    if n.LeafNode? {
      ColumnwiseColumnsFit(n, cols);
      IndexedSameKeySameIndex<nat>(SubIndex(n.leaf, cols), j, j');
    } else {
      EdgePattern(n, cols, j, j');
    }
  }

  /**
   * An index that deduplicates the column tuples of the selected children keeps the
   * pattern that the edge's own index has at the selected columns.
   */
  lemma EdgePatternStep(selIndex: seq<nat>, n: Node, kids: seq<Node>, cols: seq<int>, j: nat, j': nat)
    requires n.Edge? && |kids| == |n.children| && j < |cols| && j' < |cols|
    requires 0 <= cols[j] < |n.index| && 0 <= cols[j'] < |n.index|
    requires forall c :: 0 <= c < |n.children| ==> |n.index| <= |Index(n.children[c])|
    requires n.index == Indexed(ColumnTuples(n.children, |n.index|)).index
    requires forall c :: 0 <= c < |kids| ==> |cols| <= |Index(kids[c])|
    requires selIndex == Indexed(ColumnTuples(kids, |cols|)).index
    requires forall c :: 0 <= c < |n.children| ==>
      (Index(kids[c])[j] == Index(kids[c])[j'] <==> Index(n.children[c])[cols[j]] == Index(n.children[c])[cols[j']])
    ensures selIndex[j] == selIndex[j'] <==> n.index[cols[j]] == n.index[cols[j']]
  {
    TuplesIndexPattern(kids, n.children, |cols|, |n.index|, j, j', cols[j], cols[j']);
  }

  /** The trees and columns `SelectColumnsPattern` speaks about. */
  ghost predicate PatternReady(n: Node, cols: seq<int>)
  {
    ValidNode(n) && Columnwise(n) && PlainColumns(cols, |Index(n)|)
  }

  /** The edge step of `SelectColumnsPattern`, from the pattern every selected child keeps. */
  lemma {:induction false} EdgePattern(n: Node, cols: seq<int>, j: nat, j': nat)
    requires PatternReady(n, cols) && n.Edge? && j < |cols| && j' < |cols|
    ensures ColumnsFit(n, cols)
    ensures Index(SelectColumns(n, cols).value)[j] == Index(SelectColumns(n, cols).value)[j'] <==>
      Index(n)[cols[j]] == Index(n)[cols[j']]
    decreases n, 0
  {
    var kids, selIndex := EdgeSelection(n, cols);
    forall c | 0 <= c < |n.children|
      ensures Index(kids[c])[j] == Index(kids[c])[j'] <==> Index(n.children[c])[cols[j]] == Index(n.children[c])[cols[j']]
    {
      SelectColumnsPattern(n.children[c], cols, j, j');
    }
    EdgePatternStep(selIndex, n, kids, cols, j, j');
  }

  /**
   * The selection of an edge built from pre-aligned children is built from the selected
   * children, and both its index and the edge's deduplicate their children's column tuples.
   */
  lemma EdgeSelection(n: Node, cols: seq<int>) returns (kids: seq<Node>, selIndex: seq<nat>)
    requires PatternReady(n, cols) && n.Edge?
    ensures ColumnsFit(n, cols) && SelectChildren(n, cols).Ok?
    ensures kids == SelectChildren(n, cols).value && selIndex == Index(SelectColumns(n, cols).value)
    ensures forall c :: 0 <= c < |n.children| ==> PatternReady(n.children[c], cols)
    ensures |kids| == |n.children| && (forall c :: 0 <= c < |kids| ==> |cols| <= |Index(kids[c])|)
    ensures selIndex == Indexed(ColumnTuples(kids, |cols|)).index
    ensures forall c :: 0 <= c < |n.children| ==> |n.index| <= |Index(n.children[c])|
    ensures n.index == Indexed(ColumnTuples(n.children, |n.index|)).index
  {
    kids, selIndex := SelectionIndex(n, cols);
    ColumnwiseIndex(n);
  }


  /** The selection of an edge deduplicates the column tuples of the selected children. */
  lemma SelectionIndex(n: Node, cols: seq<int>) returns (kids: seq<Node>, selIndex: seq<nat>)
    requires PatternReady(n, cols) && n.Edge?
    ensures ColumnsFit(n, cols) && SelectChildren(n, cols).Ok?
    ensures kids == SelectChildren(n, cols).value && selIndex == Index(SelectColumns(n, cols).value)
    ensures |kids| == |n.children| && (forall c :: 0 <= c < |kids| ==> |cols| <= |Index(kids[c])|)
    ensures selIndex == Indexed(ColumnTuples(kids, |cols|)).index
  {
    ColumnwiseColumnsFit(n, cols);
    var sel := SelectColumns(n, cols).value;
    SelectedChildren(n, cols);
    SelectColumnsColumnwise(n, cols);
    ColumnwiseIndex(sel);
    kids := sel.children;
    selIndex := sel.index;
  }

  /**
   * Deduplicated column tuples of two families of nodes share an entry at `j, j'` and at
   * `x, y` together when every node's pair of columns does.
   */
  lemma TuplesIndexPattern(kids: seq<Node>, children: seq<Node>, mk: nat, mn: nat, j: nat, j': nat, x: nat, y: nat)
    requires |kids| == |children| && j < mk && j' < mk && x < mn && y < mn
    requires forall c :: 0 <= c < |kids| ==> mk <= |Index(kids[c])|
    requires forall c :: 0 <= c < |children| ==> mn <= |Index(children[c])|
    requires forall c :: 0 <= c < |kids| ==> (Index(kids[c])[j] == Index(kids[c])[j'] <==> Index(children[c])[x] == Index(children[c])[y])
    ensures Indexed(ColumnTuples(kids, mk)).index[j] == Indexed(ColumnTuples(kids, mk)).index[j'] <==>
      Indexed(ColumnTuples(children, mn)).index[x] == Indexed(ColumnTuples(children, mn)).index[y]
  {
    TuplePattern(kids, children, j, j', x, y);
    IndexedSameKeySameIndex(ColumnTuples(kids, mk), j, j');
    IndexedSameKeySameIndex(ColumnTuples(children, mn), x, y);
  }

  /**
   * The column tuples of two families of nodes at `j, j'` and at `x, y` are equal together
   * when every node's pair of columns is.
   */
  lemma TuplePattern(kids: seq<Node>, children: seq<Node>, j: nat, j': nat, x: nat, y: nat)
    requires |kids| == |children|
    requires forall c :: 0 <= c < |kids| ==> j < |Index(kids[c])| && j' < |Index(kids[c])|
    requires forall c :: 0 <= c < |children| ==> x < |Index(children[c])| && y < |Index(children[c])|
    requires forall c :: 0 <= c < |kids| ==> (Index(kids[c])[j] == Index(kids[c])[j'] <==> Index(children[c])[x] == Index(children[c])[y])
    ensures ColumnTuple(kids, j) == ColumnTuple(kids, j') <==> ColumnTuple(children, x) == ColumnTuple(children, y)
  {
    SamePattern(ColumnTuple(kids, j), ColumnTuple(kids, j'), ColumnTuple(children, x), ColumnTuple(children, y));
  }

  /** Two pairs of tuples of one length whose entries agree in the same places are equal together. */
  lemma SamePattern(a: seq<nat>, a': seq<nat>, b: seq<nat>, b': seq<nat>)
    requires |a| == |a'| == |b| == |b'|
    requires forall c :: 0 <= c < |a| ==> (a[c] == a'[c] <==> b[c] == b'[c])
    ensures a == a' <==> b == b'
  {
    if a == a' {
      assert forall c :: 0 <= c < |b| ==> b[c] == b'[c];
    }
    if b == b' {
      assert forall c :: 0 <= c < |a| ==> a[c] == a'[c];
    }
  }

  /**
   * An edge built from pre-aligned children numbers its distinct tuples in order of first
   * use, and every real distinct tuple is used by some column.
   */
  lemma ColumnwiseLabels(n: Node)
    requires Columnwise(n) && n.Edge?
    ensures |n.uniq| >= 1
    ensures Canon(n.index, 0)
    ensures forall w :: 0 <= w < |n.uniq| - 1 ==> w in n.index
  {
    var tuples := ColumnTuples(n.children, |n.index|);
    IndexedLabels(tuples);
    forall w | 0 <= w < |n.uniq| - 1
      ensures w in n.index
    {
      IndexedCovers(tuples, w);
    }
  }
}
