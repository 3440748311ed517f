/** The active links of the two pinned grids, and the rejection of a status
    array of the wrong length. */
module LinkExamples {
  import opened StructuredQuadLinks

  /** A 4 x 5 grid, closed all round, with the 2 x 2 block of core nodes at
      rows 1-2, columns 2-3. */
  const CoreBlock: seq<NodeStatus> :=
    [Closed, Closed, Closed, Closed, Closed,
     Closed, Closed, Core, Core, Closed,
     Closed, Closed, Core, Core, Closed,
     Closed, Closed, Closed, Closed, Closed]

  lemma CoreBlockStatus(v: nat)
    requires v < 20
    ensures CoreBlock[v] == if v == 7 || v == 8 || v == 12 || v == 13 then Core else Closed
  {
  }

  /** A link of the core-block grid is active exactly when it is one of the
      four links inside the block. */
  lemma CoreBlockActive(id: nat)
    requires id < LinkCount(Shape(4, 5))
    ensures IsActive(Shape(4, 5), CoreBlock, id) <==> id == 7 || id == 8 || id == 21 || id == 25
  {
    var shape := Shape(4, 5);
    LinkDecodes(shape, id);
    var t, h := LinkTail(shape, id), LinkHead(shape, id);
    assert IsActive(shape, CoreBlock, id)
           <==> CoreBlock[t] != Closed && CoreBlock[h] != Closed && (CoreBlock[t] == Core || CoreBlock[h] == Core);
    CoreBlockStatus(t);
    CoreBlockStatus(h);
  }

  /** Only the four links inside the core block are active: the two
      vertical links joining its rows and the two horizontal links joining
      its columns. */
  lemma CoreBlockExample()
    ensures ActiveLinkIds(Shape(4, 5), CoreBlock) == Ids([7, 8, 21, 25])
  {
    forall id: nat | id < LinkCount(Shape(4, 5))
      ensures IsActive(Shape(4, 5), CoreBlock, id) <==> id in [7, 8, 21, 25]
    {
      CoreBlockActive(id);
    }
    ActiveLinkIdsAre(Shape(4, 5), CoreBlock, [7, 8, 21, 25]);
  }

  /** On a 3 x 4 grid with the perimeter as boundary only nodes 5 and 6 are
      core. */
  lemma PerimeterStatus(v: nat)
    requires v < 12
    ensures StatusWithPerimeterAsBoundary(Shape(3, 4))[v] == if v == 5 || v == 6 then Core else FixedValue
  {
  }

  /** A link of the perimeter grid is active exactly when it is one of the
      seven links touching the two core nodes. */
  lemma PerimeterActive(id: nat)
    requires id < LinkCount(Shape(3, 4))
    ensures IsActive(Shape(3, 4), StatusWithPerimeterAsBoundary(Shape(3, 4)), id)
            <==> id in [1, 2, 5, 6, 11, 12, 13]
  {
    PerimeterActiveTouchesCore(id);
    PerimeterTouchingListed(id);
  }

  /** A link of the perimeter grid is active exactly when it has an end at
      one of the two core nodes. */
  lemma PerimeterActiveTouchesCore(id: nat)
    requires id < LinkCount(Shape(3, 4))
    ensures var t, h := LinkTail(Shape(3, 4), id), LinkHead(Shape(3, 4), id);
            IsActive(Shape(3, 4), StatusWithPerimeterAsBoundary(Shape(3, 4)), id)
            <==> t == 5 || t == 6 || h == 5 || h == 6
  {
    var shape := Shape(3, 4);
    var status := StatusWithPerimeterAsBoundary(shape);
    LinkDecodes(shape, id);
    var t, h := LinkTail(shape, id), LinkHead(shape, id);
    assert IsActive(shape, status, id)
           <==> status[t] != Closed && status[h] != Closed && (status[t] == Core || status[h] == Core);
    PerimeterStatus(t);
    PerimeterStatus(h);
  }

  /** The links with an end at node 5 or 6 are exactly the seven listed. */
  lemma PerimeterTouchingListed(id: nat)
    requires id < LinkCount(Shape(3, 4))
    ensures var t, h := LinkTail(Shape(3, 4), id), LinkHead(Shape(3, 4), id);
            t == 5 || t == 6 || h == 5 || h == 6 <==> id in [1, 2, 5, 6, 11, 12, 13]
  {
    var shape := Shape(3, 4);
    LinkDecodes(shape, id);
    var t, h := LinkTail(shape, id), LinkHead(shape, id);
    if t == 5 || t == 6 || h == 5 || h == 6 {
      PerimeterLinkTouchingCore(t, h);
    }
    if id in [1, 2, 5, 6, 11, 12, 13] {
      PerimeterListedTouchCore(id);
    }
  }

  /** Each of the seven listed links has an end at node 5 or 6. */
  lemma PerimeterListedTouchCore(id: nat)
    requires id in [1, 2, 5, 6, 11, 12, 13]
    ensures var t, h := LinkTail(Shape(3, 4), id), LinkHead(Shape(3, 4), id);
            t == 5 || t == 6 || h == 5 || h == 6
  {
  }

  /** The links with an end at node 5 or 6 and their ids. */
  lemma PerimeterLinkTouchingCore(t: nat, h: nat)
    requires Adjacent(Shape(3, 4), t, h) && (t == 5 || t == 6 || h == 5 || h == 6)
    ensures LinkBetween(Shape(3, 4), t, h) in [1, 2, 5, 6, 11, 12, 13]
  {
  }

  /** The seven links touching the two core nodes are the active ones: four
      vertical links and three horizontal ones; the links along the
      perimeter are not. */
  lemma PerimeterExample()
    ensures ActiveLinkIds(Shape(3, 4), StatusWithPerimeterAsBoundary(Shape(3, 4)))
            == Ids([1, 2, 5, 6, 11, 12, 13])
  {
    forall id: nat | id < LinkCount(Shape(3, 4))
      ensures IsActive(Shape(3, 4), StatusWithPerimeterAsBoundary(Shape(3, 4)), id)
              <==> id in [1, 2, 5, 6, 11, 12, 13]
    {
      PerimeterActive(id);
    }
    PerimeterIdsIncrease();
    ActiveLinkIdsAre(Shape(3, 4), StatusWithPerimeterAsBoundary(Shape(3, 4)), [1, 2, 5, 6, 11, 12, 13]);
  }

  lemma PerimeterIdsIncrease()
    ensures Increasing([1, 2, 5, 6, 11, 12, 13])
  {
  }

  /** A status array of three entries does not fit a 3 x 4 grid. */
  lemma MismatchExample()
    ensures ActiveLinkIds(Shape(3, 4), [Core, Core, Core]) == ShapeMismatch(12, 3)
  {
  }
}
