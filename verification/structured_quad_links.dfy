/** Links of a structured quadrilateral grid and the selection of the active
    ones.

    A grid of `rows` x `cols` nodes numbers its nodes row by row, node
    (r, c) having id r * cols + c. Links join each node to its neighbour
    above and to its neighbour on the right. Vertical links come first: the
    link from (r, c) up to (r + 1, c) has id r * cols + c, the id of its
    tail node. Horizontal links follow: the link from (r, c) to (r, c + 1)
    has id (rows - 1) * cols + r * (cols - 1) + c. A link is active when
    neither end is a closed boundary and at least one end is a core node.
 */
module StructuredQuadLinks {

  /** The boundary condition a node carries. */
  datatype NodeStatus = Core | FixedValue | FixedGradient | Looped | Closed

  /** The number of node rows and node columns of a grid. */
  datatype Shape = Shape(rows: nat, cols: nat)

  /** The result of selecting active links: the ids, or the rejection of a
      status array whose length is not the number of nodes. */
  datatype ActiveLinksResult = Ids(ids: seq<nat>) | ShapeMismatch(nodes: nat, given: nat)

  function NodeCount(shape: Shape): nat
  {
    shape.rows * shape.cols
  }

  function VerticalCount(shape: Shape): nat
  {
    if shape.rows == 0 then 0 else (shape.rows - 1) * shape.cols
  }

  function HorizontalCount(shape: Shape): nat
  {
    if shape.cols == 0 then 0 else shape.rows * (shape.cols - 1)
  }

  function LinkCount(shape: Shape): nat
  {
    VerticalCount(shape) + HorizontalCount(shape)
  }

  /** Division with remainder is unique: q * d + m splits back into q and m. */
  lemma DivModOf(q: nat, m: nat, d: nat)
    requires m < d
    ensures (q * d + m) / d == q && (q * d + m) % d == m
  {
    var n := q * d + m;
    var k := n / d;
    assert n == k * d + n % d;
    if k > q {
      MulMonotone(q + 1, k, d);
      MulSucc(q, d);
    } else if k < q {
      MulMonotone(k + 1, q, d);
      MulSucc(k, d);
    }
  }

  lemma MulMonotone(a: nat, b: nat, d: nat)
    requires a <= b
    ensures a * d <= b * d
  {
  }

  lemma MulSucc(a: nat, d: nat)
    ensures (a + 1) * d == a * d + d
  {
  }

  /** A node id below rows * cols has a row below rows. */
  lemma RowInRange(shape: Shape, v: nat)
    requires v < NodeCount(shape)
    ensures shape.cols > 0 && v / shape.cols < shape.rows
  {
    var q := v / shape.cols;
    if q >= shape.rows {
      MulMonotone(shape.rows, q, shape.cols);
    }
  }

  /** The node at row r, column c. */
  function NodeAt(shape: Shape, r: nat, c: nat): (v: nat)
    requires r < shape.rows && c < shape.cols
    ensures v < NodeCount(shape)
    ensures v / shape.cols == r && v % shape.cols == c
  {
    DivModOf(r, c, shape.cols);
    MulMonotone(r + 1, shape.rows, shape.cols);
    r * shape.cols + c
  }

  /** Node b is the neighbour above node a, or the neighbour on its right. */
  predicate Adjacent(shape: Shape, a: nat, b: nat)
  {
    && a < NodeCount(shape) && b < NodeCount(shape)
    && (b == a + shape.cols || (b == a + 1 && a % shape.cols != shape.cols - 1))
  }

  /** The tail node of the h-th horizontal link in a grid of `cols` columns:
      each row holds cols - 1 horizontal links. */
  function HorizontalTail(cols: nat, h: nat): nat
    requires cols >= 2
  {
    (h / (cols - 1)) * cols + h % (cols - 1)
  }

  /** The position among the horizontal links of the link whose tail is
      node a. */
  function HorizontalIndex(cols: nat, a: nat): nat
    requires cols >= 2
  {
    (a / cols) * (cols - 1) + a % cols
  }

  /** The h-th horizontal link lies in row h / (cols - 1), its tail is not in
      the last column, and its head is a node of the grid. */
  lemma HorizontalTailFacts(rows: nat, cols: nat, h: nat)
    requires cols >= 2 && h < rows * (cols - 1)
    ensures var t := HorizontalTail(cols, h);
            && t / cols == h / (cols - 1) && t % cols == h % (cols - 1)
            && t % cols != cols - 1 && t + 1 < rows * cols
  {
    var r, c := h / (cols - 1), h % (cols - 1);
    assert h == r * (cols - 1) + c;
    if r >= rows {
      MulMonotone(rows, r, cols - 1);
    }
    DivModOf(r, c, cols);
    MulMonotone(r + 1, rows, cols);
    MulSucc(r, cols);
  }

  /** Encoding the tail of the h-th horizontal link gives h back. */
  lemma HorizontalIndexOfTail(rows: nat, cols: nat, h: nat)
    requires cols >= 2 && h < rows * (cols - 1)
    ensures HorizontalIndex(cols, HorizontalTail(cols, h)) == h
  {
    HorizontalTailFacts(rows, cols, h);
  }

  /** A node with a right neighbour is the tail of the horizontal link at its
      index, and that index is in range. */
  lemma HorizontalTailOfIndex(rows: nat, cols: nat, a: nat)
    requires cols >= 2 && a + 1 < rows * cols && a % cols != cols - 1
    ensures HorizontalIndex(cols, a) < rows * (cols - 1)
    ensures HorizontalTail(cols, HorizontalIndex(cols, a)) == a
  {
    var r, c := a / cols, a % cols;
    assert a == r * cols + c;
    if r >= rows {
      MulMonotone(rows, r, cols);
    }
    var k := r * (cols - 1) + c;
    DivModOf(r, c, cols - 1);
    assert k < rows * (cols - 1) by {
      MulMonotone(r + 1, rows, cols - 1);
      assert (r + 1) * (cols - 1) == r * (cols - 1) + (cols - 1);
    }
  }

  /** The node a link starts from. */
  function LinkTail(shape: Shape, id: nat): (t: nat)
    requires id < LinkCount(shape)
    ensures t < NodeCount(shape)
  {
    if id < VerticalCount(shape) then
      VerticalInRange(shape, id);
      id
    else
      HorizontalTailFacts(shape.rows, shape.cols, id - VerticalCount(shape));
      HorizontalTail(shape.cols, id - VerticalCount(shape))
  }

  /** The node a link ends at: the tail's upper neighbour for a vertical
      link, its right neighbour for a horizontal one. */
  function LinkHead(shape: Shape, id: nat): (h: nat)
    requires id < LinkCount(shape)
    ensures h < NodeCount(shape)
  {
    if id < VerticalCount(shape) then
      VerticalInRange(shape, id);
      id + shape.cols
    else
      HorizontalTailFacts(shape.rows, shape.cols, id - VerticalCount(shape));
      LinkTail(shape, id) + 1
  }

  /** The id of the link joining two adjacent nodes. */
  function LinkBetween(shape: Shape, a: nat, b: nat): nat
    requires Adjacent(shape, a, b)
  {
    if b == a + shape.cols then a else VerticalCount(shape) + HorizontalIndex(shape.cols, a)
  }

  /** A vertical link's head, one row above its tail, is a node of the grid. */
  lemma VerticalInRange(shape: Shape, id: nat)
    requires id < VerticalCount(shape)
    ensures id + shape.cols < NodeCount(shape)
  {
    assert (shape.rows - 1) * shape.cols + shape.cols == shape.rows * shape.cols;
  }

  /** A node with a neighbour above is the tail of a vertical link. */
  lemma VerticalOfNode(shape: Shape, a: nat)
    requires a + shape.cols < NodeCount(shape)
    ensures a < VerticalCount(shape)
  {
    assert (shape.rows - 1) * shape.cols + shape.cols == shape.rows * shape.cols;
  }

  /** Every link joins two adjacent nodes, and the link between them is that
      link: decoding an id and encoding its ends gives the id back. */
  lemma LinkDecodes(shape: Shape, id: nat)
    requires id < LinkCount(shape)
    ensures Adjacent(shape, LinkTail(shape, id), LinkHead(shape, id))
    ensures LinkBetween(shape, LinkTail(shape, id), LinkHead(shape, id)) == id
  {
    if id >= VerticalCount(shape) {
      HorizontalTailFacts(shape.rows, shape.cols, id - VerticalCount(shape));
      HorizontalIndexOfTail(shape.rows, shape.cols, id - VerticalCount(shape));
    }
  }

  /** Every pair of adjacent nodes is joined by a link, and that link's ends
      are the pair: encoding a pair and decoding the id gives the pair back. */
  lemma LinkEncodes(shape: Shape, a: nat, b: nat)
    requires Adjacent(shape, a, b)
    ensures LinkBetween(shape, a, b) < LinkCount(shape)
    ensures LinkTail(shape, LinkBetween(shape, a, b)) == a
    ensures LinkHead(shape, LinkBetween(shape, a, b)) == b
  {
    if b == a + shape.cols {
      VerticalOfNode(shape, a);
    } else {
      assert shape.cols >= 2;
      HorizontalTailOfIndex(shape.rows, shape.cols, a);
    }
  }

  /** A link is active when neither end is closed and one end is core. */
  predicate IsActive(shape: Shape, status: seq<NodeStatus>, id: nat)
    requires |status| == NodeCount(shape) && id < LinkCount(shape)
  {
    LinkDecodes(shape, id);
    var t, h := status[LinkTail(shape, id)], status[LinkHead(shape, id)];
    t != Closed && h != Closed && (t == Core || h == Core)
  }

  predicate Increasing(ids: seq<nat>)
  {
    forall i, j :: 0 <= i < j < |ids| ==> ids[i] < ids[j]
  }

  /** In an increasing sequence the elements after the first are exactly the
      elements greater than the first. */
  lemma IncreasingTail(xs: seq<nat>, x: nat)
    requires Increasing(xs) && xs != []
    ensures x in xs[1..] <==> x in xs && xs[0] < x
  {
    if x in xs && xs[0] < x {
      var i :| 0 <= i < |xs| && xs[i] == x;
      assert xs[1..][i - 1] == x;
    }
  }

  /** An increasing sequence is determined by its elements. */
  lemma {:induction false} IncreasingUnique(xs: seq<nat>, ys: seq<nat>)
    requires Increasing(xs) && Increasing(ys)
    requires forall x :: x in xs <==> x in ys
    ensures xs == ys
    decreases |xs|
  {
    assert xs != [] ==> xs[0] in ys;
    assert ys != [] ==> ys[0] in xs;
    if xs != [] && ys != [] {
      assert xs[0] == ys[0];
      forall x | true
        ensures x in xs[1..] <==> x in ys[1..]
      {
        IncreasingTail(xs, x);
        IncreasingTail(ys, x);
      }
      IncreasingUnique(xs[1..], ys[1..]);
      assert xs == [xs[0]] + xs[1..];
      assert ys == [ys[0]] + ys[1..];
    }
  }

  /** The active links among the first k, in ascending order. */
  function ActiveBelow(shape: Shape, status: seq<NodeStatus>, k: nat): (ids: seq<nat>)
    requires |status| == NodeCount(shape) && k <= LinkCount(shape)
    ensures Increasing(ids)
    ensures forall i :: 0 <= i < |ids| ==> ids[i] < k
    ensures forall id: nat :: id in ids <==> id < k && IsActive(shape, status, id)
  {
    if k == 0 then []
    else ActiveBelow(shape, status, k - 1) + (if IsActive(shape, status, k - 1) then [k - 1] else [])
  }

  /** The ids of the active links of a grid in ascending order, or the
      rejection of a status array of the wrong length. */
  function ActiveLinkIds(shape: Shape, status: seq<NodeStatus>): (r: ActiveLinksResult)
    ensures r.ShapeMismatch? <==> |status| != NodeCount(shape)
    ensures r.ShapeMismatch? ==> r == ShapeMismatch(NodeCount(shape), |status|)
    ensures r.Ids? ==> Increasing(r.ids)
    ensures r.Ids? ==> forall id: nat :: id in r.ids <==> id < LinkCount(shape) && IsActive(shape, status, id)
  {
    if |status| != NodeCount(shape) then ShapeMismatch(NodeCount(shape), |status|)
    else Ids(ActiveBelow(shape, status, LinkCount(shape)))
  }

  /** The active link ids are the one increasing list of exactly the active
      links. */
  lemma ActiveLinkIdsAre(shape: Shape, status: seq<NodeStatus>, expected: seq<nat>)
    requires |status| == NodeCount(shape) && Increasing(expected)
    requires forall id: nat :: id in expected ==> id < LinkCount(shape)
    requires forall id: nat :: id < LinkCount(shape) ==> (IsActive(shape, status, id) <==> id in expected)
    ensures ActiveLinkIds(shape, status) == Ids(expected)
  {
    IncreasingUnique(ActiveLinkIds(shape, status).ids, expected);
  }

  /** A link touching a closed node is never active. */
  lemma ClosedEndInactive(shape: Shape, status: seq<NodeStatus>, id: nat)
    requires |status| == NodeCount(shape) && id < LinkCount(shape)
    requires status[LinkTail(shape, id)] == Closed || status[LinkHead(shape, id)] == Closed
    ensures ActiveLinkIds(shape, status).Ids? && id !in ActiveLinkIds(shape, status).ids
  {
  }

  /** A link joining two nodes neither of which is core is never active. */
  lemma BoundaryPairInactive(shape: Shape, status: seq<NodeStatus>, id: nat)
    requires |status| == NodeCount(shape) && id < LinkCount(shape)
    requires status[LinkTail(shape, id)] != Core && status[LinkHead(shape, id)] != Core
    ensures ActiveLinkIds(shape, status).Ids? && id !in ActiveLinkIds(shape, status).ids
  {
  }

  /** A node on the outer rows or columns of the grid. */
  predicate OnPerimeter(shape: Shape, v: nat)
    requires shape.cols > 0
  {
    var r, c := v / shape.cols, v % shape.cols;
    r == 0 || r + 1 == shape.rows || c == 0 || c + 1 == shape.cols
  }

  /** The status array of a grid whose perimeter nodes are fixed-value
      boundaries and whose interior nodes are core. */
  function StatusWithPerimeterAsBoundary(shape: Shape): (status: seq<NodeStatus>)
    ensures |status| == NodeCount(shape)
    ensures forall r: nat, c: nat :: r < shape.rows && c < shape.cols ==>
              status[NodeAt(shape, r, c)]
              == if r == 0 || r + 1 == shape.rows || c == 0 || c + 1 == shape.cols then FixedValue else Core
  {
    seq(NodeCount(shape), v requires 0 <= v < NodeCount(shape) =>
      if OnPerimeter(shape, v) then FixedValue else Core)
  }

  /** With the perimeter as boundary, a link is active exactly when it does
      not run between two perimeter nodes. */
  lemma PerimeterActiveIff(shape: Shape, id: nat)
    requires id < LinkCount(shape)
    ensures var status := StatusWithPerimeterAsBoundary(shape);
            var ids := ActiveLinkIds(shape, status).ids;
            id in ids <==> !(OnPerimeter(shape, LinkTail(shape, id)) && OnPerimeter(shape, LinkHead(shape, id)))
  {
    LinkDecodes(shape, id);
  }
}
