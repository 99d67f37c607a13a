/**
 Ranges that an index scan cannot read: an index that satisfies the whole invariant, with two positions
 as the searches return them, between which the scan fails.

 The index has order 3. Inserting 1 to 6 gives the leaves (1, 2), (3, 4) and (5, 6); deleting 3 and then
 4 empties the leaf in the middle.
 */
module ScanFailures {
  import opened Common
  import opened IndexNode
  import opened IndexShape
  import opened IndexOrder
  import opened IndexScan

  const ROOT := 4
  const LEFT := Node(true, ROOT, END, 3, [1, 2], [Rid(1, 0), Rid(1, 1)])
  const MIDDLE := Node(true, ROOT, FIRST, 5, [], [])
  const RIGHT := Node(true, ROOT, 3, END, [5, 6], [Rid(1, 4), Rid(1, 5)])
  const TOP := Node(false, NO_PAGE, NO_PAGE, NO_PAGE, [1, 4, 5], [Rid(FIRST, -1), Rid(3, -1), Rid(5, -1)])

  const GAPPED := Tree(map[FIRST := LEFT, 3 := MIDDLE, 5 := RIGHT, ROOT := TOP], ROOT, 5)

  const INFO := map[FIRST := Info(FIRST, 3, 0), 3 := Info(3, 5, 0), 5 := Info(5, END, 0), ROOT := Info(FIRST, END, 1)]

  const GAPPED_SHAPE := Shape(INFO, map[3 := 4, 5 := 5], [FIRST, 3, 5])

  lemma LeavesOk()
    ensures Domain(GAPPED, GAPPED_SHAPE, DONE)
    ensures PageOk(GAPPED, GAPPED_SHAPE, 4, DONE, FIRST)
    ensures PageOk(GAPPED, GAPPED_SHAPE, 4, DONE, 3)
    ensures PageOk(GAPPED, GAPPED_SHAPE, 4, DONE, 5)
  {
    assert TOP.rids[0].pageNo == FIRST && TOP.rids[1].pageNo == 3 && TOP.rids[2].pageNo == 5;
  }

  lemma RootIsOk()
    ensures Domain(GAPPED, GAPPED_SHAPE, DONE)
    ensures PageOk(GAPPED, GAPPED_SHAPE, 4, DONE, ROOT)
  {
    forall i | 0 <= i < 3
      ensures ChildOk(GAPPED, GAPPED_SHAPE, DONE, ROOT, i) && KeyOk(GAPPED, GAPPED_SHAPE, 4, DONE, ROOT, i)
    {
      assert i == 0 || i == 1 || i == 2;
    }
  }

  lemma GappedChain()
    ensures Chain(GAPPED, GAPPED_SHAPE.leaves)
  {
    var leaves := GAPPED_SHAPE.leaves;
    assert leaves[0] == FIRST && leaves[1] == 3 && leaves[2] == 5;
    forall i | 0 <= i < |leaves|
      ensures Link(GAPPED, leaves, i)
    {
      assert i == 0 || i == 1 || i == 2;
    }
  }

  /** The index with the emptied leaf is a legal one. */
  lemma GappedIsLegal()
    ensures Inv(GAPPED, GAPPED_SHAPE, 4, DONE)
  {
    LeavesOk();
    RootIsOk();
    GappedChain();
    forall p | p in GAPPED.pages
      ensures PageOk(GAPPED, GAPPED_SHAPE, 4, DONE, p)
    {
      assert p == FIRST || p == 3 || p == 5 || p == ROOT;
    }
  }

  lemma GappedPlaces()
    ensures var leaves := GAPPED_SHAPE.leaves;
            && LeafRank(leaves, FIRST) == 0 && LeafRank(leaves, 3) == 1 && LeafRank(leaves, 5) == 2
            && LeafEntries(GAPPED, 3) == [] && |LeafEntries(GAPPED, FIRST)| == 2 && |LeafEntries(GAPPED, 5)| == 2
  {
    var leaves := GAPPED_SHAPE.leaves;
    assert leaves[0] == FIRST && leaves[1] == 3 && leaves[2] == 5;
  }

  /** From the first entry to the last: the emptied leaf lies between them. */
  lemma EmptiedLeafStopsScan()
    ensures var leaves, lower, upper := GAPPED_SHAPE.leaves, Iid(FIRST, 0), Iid(5, 1);
            && Inv(GAPPED, GAPPED_SHAPE, 4, DONE)
            && Normal(GAPPED, leaves, lower) && Normal(GAPPED, leaves, upper)
            && Place(GAPPED, leaves, lower) < Place(GAPPED, leaves, upper)
            && !Readable(GAPPED, leaves, lower, upper)
  {
    var leaves, lower, upper := GAPPED_SHAPE.leaves, Iid(FIRST, 0), Iid(5, 1);
    GappedIsLegal();
    GappedPlaces();
    assert leaves[1] == 3 && EmptiedBetween(GAPPED, leaves, 0, 2);
    Standing(GAPPED, leaves, lower);
    Standing(GAPPED, leaves, upper);
    LaterLeafIsLater(GAPPED, leaves, lower, 0, Place(GAPPED, leaves, lower), upper, 2, Place(GAPPED, leaves, upper));
  }

  /** From the second entry back to the first. */
  lemma ReversedRangeStopsScan()
    ensures var leaves, lower, upper := GAPPED_SHAPE.leaves, Iid(FIRST, 1), Iid(FIRST, 0);
            && Inv(GAPPED, GAPPED_SHAPE, 4, DONE)
            && Normal(GAPPED, leaves, lower) && Normal(GAPPED, leaves, upper)
            && !EmptiedBetween(GAPPED, leaves, LeafRank(leaves, lower.pageNo), LeafRank(leaves, upper.pageNo))
            && !Readable(GAPPED, leaves, lower, upper)
  {
    GappedIsLegal();
    GappedPlaces();
  }
}
