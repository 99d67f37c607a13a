/**
 Walking the leaf chain between two positions.

 The walk steps from a leaf's last entry to slot 0 of the next leaf without asking whether that
 leaf holds anything, and reading an empty slot fails. So a scan reads its whole range exactly
 when the range is not reversed and no leaf strictly inside it has been emptied.
 */
module IndexScan {
  import opened Common
  import opened IndexNode
  import opened IndexShape
  import opened IndexContents
  import opened IndexOrder
  import opened IndexHandle

  datatype ScanOutcome = Scanned(rids: seq<Rid>) | EntryNotFound

  ghost function RidsOf(es: seq<Entry>): seq<Rid> {
    seq(|es|, i requires 0 <= i < |es| => es[i].rid)
  }

  /** Some leaf strictly between leaves `i` and `j` of the chain holds no entry. */
  ghost predicate EmptiedBetween(t: Tree, leaves: seq<int>, i: int, j: int) {
    exists m :: i < m < j && 0 <= m < |leaves| && LeafEntries(t, leaves[m]) == []
  }

  /** The exact condition under which the scan reads its range. */
  ghost predicate Readable(t: Tree, leaves: seq<int>, lower: Iid, upper: Iid)
    requires Normal(t, leaves, lower) && Normal(t, leaves, upper)
  {
    && Place(t, leaves, lower) <= Place(t, leaves, upper)
    && !EmptiedBetween(t, leaves, LeafRank(leaves, lower.pageNo), LeafRank(leaves, upper.pageNo))
  }

  /** The walk from leaf `i`, entry `a` now stands in leaf `at` before entry `n`. It has passed over
      no emptied leaf, and not gone past its goal, entry `b`. */
  ghost predicate Walked(t: Tree, leaves: seq<int>, iid: Iid, i: nat, a: int, b: int, at: nat, n: int) {
    && StandsAt(t, leaves, iid, at, n) && i <= at && a <= n && (a <= b ==> n <= b)
    && !EmptiedBetween(t, leaves, i, at)
    && (iid.slotNo == |LeafEntries(t, leaves[at])| ==> at == |leaves| - 1 || (iid.slotNo == 0 && i < at))
  }

  lemma Standing(t: Tree, leaves: seq<int>, iid: Iid)
    requires Chain(t, leaves) && Normal(t, leaves, iid)
    ensures StandsAt(t, leaves, iid, LeafRank(leaves, iid.pageNo), Place(t, leaves, iid))
    ensures Place(t, leaves, iid) <= |Flat(t, leaves)|
    ensures iid.slotNo == |LeafEntries(t, iid.pageNo)| ==> LeafRank(leaves, iid.pageNo) == |leaves| - 1
  {
    RankOfPosition(t, leaves, iid, LeafRank(leaves, iid.pageNo), Place(t, leaves, iid));
  }

  /** Positions in different leaves compare as their leaves do. */
  lemma LaterLeafIsLater(t: Tree, leaves: seq<int>, x: Iid, at: nat, n: int, y: Iid, at': nat, n': int)
    requires StandsAt(t, leaves, x, at, n) && StandsAt(t, leaves, y, at', n') && at < at'
    ensures n + (|LeafEntries(t, leaves[at])| - x.slotNo) <= n'
  {
    OffsetStep(t, leaves, at);
    OffsetMonotone(t, leaves, at + 1, at');
  }

  /** Getting stuck on an empty slot means the range could not be read; on an entry, there is
      more of it to read. */
  lemma WalkHalts(t: Tree, leaves: seq<int>, upper: Iid, i: nat, j: nat, a: int, b: int,
                  iid: Iid, at: nat, n: int)
    requires StandsAt(t, leaves, upper, j, b)
    requires upper.slotNo == |LeafEntries(t, leaves[j])| ==> j == |leaves| - 1
    requires Walked(t, leaves, iid, i, a, b, at, n) && iid != upper
    ensures iid.slotNo == |LeafEntries(t, leaves[at])| ==> a > b || EmptiedBetween(t, leaves, i, j)
    ensures iid.slotNo < |LeafEntries(t, leaves[at])| && a <= b ==> n < b
  {
    if at < j {
      LaterLeafIsLater(t, leaves, iid, at, n, upper, j, b);
    } else if j < at {
      LaterLeafIsLater(t, leaves, upper, j, b, iid, at, n);
    }
  }

  /** Where the walk goes next. Past a leaf's last entry it goes to slot 0 of the next leaf,
      whatever that leaf holds. */
  function Step(t: Tree, iid: Iid): Iid
    requires iid.pageNo in t.pages
  {
    if iid.pageNo != t.last && iid.slotNo + 1 == |t.pages[iid.pageNo].keys|
    then Iid(t.pages[iid.pageNo].nextLeaf, 0)
    else Iid(iid.pageNo, iid.slotNo + 1)
  }

  lemma StepAdvances(t: Tree, leaves: seq<int>, iid: Iid, i: nat, a: int, b: int, at: nat, n: int)
      returns (at': nat)
    requires Chain(t, leaves) && Walked(t, leaves, iid, i, a, b, at, n)
    requires iid.slotNo < |LeafEntries(t, leaves[at])| && (a <= b ==> n < b)
    ensures iid.pageNo in t.pages && Walked(t, leaves, Step(t, iid), i, a, b, at', n + 1)
  {
    assert Link(t, leaves, at);
    at' := if Step(t, iid).pageNo == iid.pageNo then at else at + 1;
    assert at + 1 < |leaves| ==> Link(t, leaves, at + 1) && leaves[at] != leaves[at + 1];
    OffsetStep(t, leaves, at);
  }

  /** The record ids read so far are those of entries `a..n`. */
  ghost predicate HasRead(t: Tree, leaves: seq<int>, a: int, n: int, rids: seq<Rid>) {
    && 0 <= a <= n <= |Flat(t, leaves)| && |rids| == n - a
    && (forall k :: 0 <= k < |rids| ==> rids[k] == Flat(t, leaves)[a + k].rid)
  }

  lemma ReadOne(t: Tree, leaves: seq<int>, iid: Iid, a: int, at: nat, n: int, rids: seq<Rid>)
    requires StandsAt(t, leaves, iid, at, n) && iid.slotNo < |LeafEntries(t, leaves[at])|
    requires HasRead(t, leaves, a, n, rids)
    ensures HasRead(t, leaves, a, n + 1, rids + [LeafEntries(t, iid.pageNo)[iid.slotNo].rid])
  {
    FlatAt(t, leaves, at, iid.slotNo);
  }

  ghost predicate Goal(t: Tree, leaves: seq<int>, upper: Iid, j: nat, b: int) {
    && Chain(t, leaves) && StandsAt(t, leaves, upper, j, b)
    && (upper.slotNo == |LeafEntries(t, leaves[j])| ==> j == |leaves| - 1)
  }

  /** The state of the scan between two reads. */
  ghost predicate Reading(t: Tree, leaves: seq<int>, iid: Iid, i: nat, a: int, b: int,
                          at: nat, n: int, rids: seq<Rid>) {
    Walked(t, leaves, iid, i, a, b, at, n) && HasRead(t, leaves, a, n, rids)
  }

  lemma NormalIsOnChain(t: Tree, leaves: seq<int>, iid: Iid)
    requires Normal(t, leaves, iid)
    ensures OnChain(t, leaves, iid)
  {
  }

  /** Where a scan starts, and when it will get to its end. */
  lemma ReadingStarts(t: Tree, leaves: seq<int>, lower: Iid, upper: Iid)
    requires Chain(t, leaves) && Normal(t, leaves, lower) && Normal(t, leaves, upper)
    ensures
      var i, j := LeafRank(leaves, lower.pageNo), LeafRank(leaves, upper.pageNo);
      var a, b := Place(t, leaves, lower), Place(t, leaves, upper);
      && Goal(t, leaves, upper, j, b) && Reading(t, leaves, lower, i, a, b, i, a, [])
      && (Readable(t, leaves, lower, upper) <==> a <= b && !EmptiedBetween(t, leaves, i, j))
  {
    Standing(t, leaves, lower);
    Standing(t, leaves, upper);
  }

  lemma ReadingStands(t: Tree, leaves: seq<int>, iid: Iid, i: nat, a: int, b: int,
                      at: nat, n: int, rids: seq<Rid>)
    requires Chain(t, leaves) && Reading(t, leaves, iid, i, a, b, at, n, rids)
    ensures IsLeaf(t, iid.pageNo) && 0 <= iid.slotNo && n <= |Flat(t, leaves)|
  {
    assert Link(t, leaves, at);
  }

  lemma ReadingStops(t: Tree, leaves: seq<int>, upper: Iid, i: nat, j: nat, a: int, b: int,
                     iid: Iid, at: nat, n: int, rids: seq<Rid>)
    requires Goal(t, leaves, upper, j, b) && Reading(t, leaves, iid, i, a, b, at, n, rids)
    requires iid != upper && iid.slotNo >= |LeafEntries(t, iid.pageNo)|
    ensures a > b || EmptiedBetween(t, leaves, i, j)
  {
    WalkHalts(t, leaves, upper, i, j, a, b, iid, at, n);
  }

  lemma ReadingSteps(t: Tree, leaves: seq<int>, upper: Iid, i: nat, j: nat, a: int, b: int,
                     iid: Iid, at: nat, n: int, rids: seq<Rid>) returns (at': nat)
    requires Goal(t, leaves, upper, j, b) && Reading(t, leaves, iid, i, a, b, at, n, rids)
    requires iid != upper && iid.slotNo < |LeafEntries(t, iid.pageNo)|
    ensures iid.pageNo in t.pages && 0 <= iid.slotNo && n < |Flat(t, leaves)|
    ensures Reading(t, leaves, Step(t, iid), i, a, b, at', n + 1,
                    rids + [LeafEntries(t, iid.pageNo)[iid.slotNo].rid])
  {
    WalkHalts(t, leaves, upper, i, j, a, b, iid, at, n);
    ReadOne(t, leaves, iid, a, at, n, rids);
    at' := StepAdvances(t, leaves, iid, i, a, b, at, n);
  }

  lemma ReadingEnds(t: Tree, leaves: seq<int>, upper: Iid, i: nat, j: nat, a: int, b: int,
                    at: nat, n: int, rids: seq<Rid>)
    requires Goal(t, leaves, upper, j, b) && Reading(t, leaves, upper, i, a, b, at, n, rids)
    ensures 0 <= a <= b <= |Flat(t, leaves)| && !EmptiedBetween(t, leaves, i, j)
    ensures rids == RidsOf(Flat(t, leaves)[a..b])
  {
    RankOfPosition(t, leaves, upper, at, n);
    RankOfPosition(t, leaves, upper, j, b);
  }

  class IxScan {
    const ih: IxIndexHandle
    const end: Iid
    var iid: Iid

    constructor (ih: IxIndexHandle, lower: Iid, upper: Iid)
      ensures this.ih == ih && iid == lower && end == upper
    {
      this.ih, iid, end := ih, lower, upper;
    }

    method Next()
      requires iid.pageNo in ih.pages
      modifies this`iid, ih.pool
      ensures iid == Step(ih.View(), old(iid))
      ensures ih.pool.pins == old(ih.pool.pins) && ih.pool.dirty == old(ih.pool.dirty)
    {
      var page := iid.pageNo;
      ih.pool.Pin(page);
      var size := |ih.pages[iid.pageNo].keys|;
      iid := Iid(iid.pageNo, iid.slotNo + 1);
      if iid.pageNo != ih.lastLeaf && iid.slotNo == size {
        iid := Iid(ih.pages[iid.pageNo].nextLeaf, 0);
      }
      ih.pool.Unpin(page, false, old(ih.pool.pins));
    }
  }

  /** Reads the record ids between two positions. */
  method ReadRange(ih: IxIndexHandle, lower: Iid, upper: Iid) returns (r: ScanOutcome)
    requires ih.Valid()
    requires Normal(ih.View(), ih.shape.leaves, lower) && Normal(ih.View(), ih.shape.leaves, upper)
    modifies ih.pool
    ensures ih.pool.pins == old(ih.pool.pins) && ih.pool.dirty == old(ih.pool.dirty)
    ensures r.Scanned? <==> Readable(ih.View(), ih.shape.leaves, lower, upper)
    ensures r.Scanned? ==>
      var a, b := Place(ih.View(), ih.shape.leaves, lower), Place(ih.View(), ih.shape.leaves, upper);
      b <= |ih.Entries()| && r.rids == RidsOf(ih.Entries()[a..b])
  {
    hide Readable, Place, Reading, Goal, RidsOf, LeafEntries, EmptiedBetween, IxIndexHandle.Valid, Chain, Normal, Step;
    ghost var t, leaves := ih.View(), ih.shape.leaves;
    ih.HasChain();
    NormalIsOnChain(t, leaves, lower);
    NormalIsOnChain(t, leaves, upper);
    ReadingStarts(t, leaves, lower, upper);
    ghost var i, j := LeafRank(leaves, lower.pageNo), LeafRank(leaves, upper.pageNo);
    ghost var a, b := Place(t, leaves, lower), Place(t, leaves, upper);
    var scan := new IxScan(ih, lower, upper);
    var rids := [];
    ghost var at, n := i, a;
    while scan.iid != upper
      invariant scan.ih == ih && fresh(scan)
      invariant ih.pool.pins == old(ih.pool.pins) && ih.pool.dirty == old(ih.pool.dirty)
      invariant Reading(t, leaves, scan.iid, i, a, b, at, n, rids)
      decreases |Flat(t, leaves)| - n
    {
      ReadingStands(t, leaves, scan.iid, i, a, b, at, n, rids);
      var entry := ih.GetRid(scan.iid);
      if entry.Missing? {
        ReadingStops(t, leaves, upper, i, j, a, b, scan.iid, at, n, rids);
        return EntryNotFound;
      }
      at := ReadingSteps(t, leaves, upper, i, j, a, b, scan.iid, at, n, rids);
      rids := rids + [entry.rid];
      scan.Next();
      n := n + 1;
    }
    ReadingEnds(t, leaves, upper, i, j, a, b, at, n, rids);
    r := Scanned(rids);
  }
}
