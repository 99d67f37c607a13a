/**
 The entries of the whole index in leaf order, and the positions in that order.
 */
module IndexOrder {
  import opened Common
  import opened IndexNode
  import opened IndexShape
  import opened IndexContents

  datatype Entry = Entry(key: int, rid: Rid)

  /** A position in the index: a leaf and a slot in it. */
  datatype Iid = Iid(pageNo: int, slotNo: int)

  ghost function LeafEntries(t: Tree, p: int): seq<Entry> {
    if p in t.pages && |t.pages[p].keys| == |t.pages[p].rids| then
      var n := t.pages[p];
      seq(|n.keys|, i requires 0 <= i < |n.keys| => Entry(n.keys[i], n.rids[i]))
    else []
  }

  /** All entries of the given leaves, one leaf after the other. */
  ghost function Flat(t: Tree, leaves: seq<int>): seq<Entry> {
    if leaves == [] then []
    else Flat(t, leaves[..|leaves| - 1]) + LeafEntries(t, leaves[|leaves| - 1])
  }

  ghost function Offset(t: Tree, leaves: seq<int>, at: nat): nat
    requires at <= |leaves|
  {
    |Flat(t, leaves[..at])|
  }

  ghost predicate EntriesSorted(es: seq<Entry>) {
    forall i, j :: 0 <= i < j < |es| ==> es[i].key < es[j].key
  }

  /** The first `n` entries are exactly the ones below `bound`. */
  ghost predicate CutsEntries(es: seq<Entry>, bound: int, n: int) {
    && 0 <= n <= |es|
    && (forall i :: 0 <= i < n ==> es[i].key < bound)
    && (forall i :: n <= i < |es| ==> bound <= es[i].key)
  }

  lemma FlatStep(t: Tree, leaves: seq<int>, at: nat)
    requires at < |leaves|
    ensures Flat(t, leaves[..at + 1]) == Flat(t, leaves[..at]) + LeafEntries(t, leaves[at])
    ensures Offset(t, leaves, at + 1) == Offset(t, leaves, at) + |LeafEntries(t, leaves[at])|
  {
    assert leaves[..at + 1][..at] == leaves[..at];
  }

  lemma {:induction false} FlatPrefix(t: Tree, leaves: seq<int>, at: nat, upto: nat)
    requires at <= upto <= |leaves|
    ensures Offset(t, leaves, at) <= Offset(t, leaves, upto)
    ensures Flat(t, leaves[..at]) == Flat(t, leaves[..upto])[..Offset(t, leaves, at)]
    decreases upto - at
  {
    if at < upto {
      FlatPrefix(t, leaves, at, upto - 1);
      FlatStep(t, leaves, upto - 1);
    }
  }

  lemma OffsetStep(t: Tree, leaves: seq<int>, at: nat)
    requires at < |leaves|
    ensures Offset(t, leaves, at + 1) == Offset(t, leaves, at) + |LeafEntries(t, leaves[at])|
  {
    FlatStep(t, leaves, at);
  }

  lemma OffsetMonotone(t: Tree, leaves: seq<int>, at: nat, upto: nat)
    requires at <= upto <= |leaves|
    ensures Offset(t, leaves, at) <= Offset(t, leaves, upto) <= |Flat(t, leaves)|
  {
    FlatPrefix(t, leaves, at, upto);
    FlatPrefix(t, leaves, upto, |leaves|);
    assert leaves[..|leaves|] == leaves;
  }

  /** Slot `slot` of leaf `at` stands at `Offset + slot` in the whole order. */
  lemma {:induction false} FlatAt(t: Tree, leaves: seq<int>, at: nat, slot: nat)
    requires at < |leaves| && slot < |LeafEntries(t, leaves[at])|
    ensures Offset(t, leaves, at) + slot < |Flat(t, leaves)|
    ensures Flat(t, leaves)[Offset(t, leaves, at) + slot] == LeafEntries(t, leaves[at])[slot]
  {
    var m := |leaves| - 1;
    var before, here := Flat(t, leaves[..m]), LeafEntries(t, leaves[m]);
    if at < m {
      FlatAt(t, leaves[..m], at, slot);
      assert leaves[..m][..at] == leaves[..at];
      assert (before + here)[Offset(t, leaves, at) + slot] == before[Offset(t, leaves, at) + slot];
    } else {
      assert (before + here)[|before| + slot] == here[slot];
    }
  }

  // ---------------------------------------------------------------- the order of the entries

  lemma LeafKeysBounded(t: Tree, s: Shape, max: nat, at: nat, i: nat)
    requires Inv(t, s, max, DONE) && at < |s.leaves| && i < |LeafEntries(t, s.leaves[at])|
    ensures at > 0 ==> s.leaves[at] in s.sep && s.sep[s.leaves[at]] <= LeafEntries(t, s.leaves[at])[i].key
    ensures at + 1 < |s.leaves| ==>
      s.leaves[at + 1] in s.sep && LeafEntries(t, s.leaves[at])[i].key < s.sep[s.leaves[at + 1]]
  {
    assert Link(t, s.leaves, at) && (at + 1 < |s.leaves| ==> Link(t, s.leaves, at + 1));
    var p := s.leaves[at];
    assert at > 0 ==> p != s.leaves[0];
    assert PageOk(t, s, max, DONE, p);
    var key := t.pages[p].keys[i];
    assert AtLeast(s, p, key) && Below(s, t.pages[p].nextLeaf, key);
  }

  /** Everything in the leaves before a cut is below it. */
  lemma {:induction false} PrefixBelowCut(t: Tree, s: Shape, max: nat, at: nat)
    requires Inv(t, s, max, DONE) && 0 < at < |s.leaves| && Ordered(s)
    ensures s.leaves[at] in s.sep
    ensures forall i :: 0 <= i < Offset(t, s.leaves, at) ==>
      Flat(t, s.leaves[..at])[i].key < s.sep[s.leaves[at]]
  {
    FlatStep(t, s.leaves, at - 1);
    if at > 1 {
      PrefixBelowCut(t, s, max, at - 1);
    }
    var es := LeafEntries(t, s.leaves[at - 1]);
    forall i | 0 <= i < |es|
      ensures es[i].key < s.sep[s.leaves[at]]
    {
      LeafKeysBounded(t, s, max, at - 1, i);
    }
  }

  lemma SortedConcat(a: seq<Entry>, b: seq<Entry>, cut: int)
    requires EntriesSorted(a) && EntriesSorted(b)
    requires forall i :: 0 <= i < |a| ==> a[i].key < cut
    requires forall i :: 0 <= i < |b| ==> cut <= b[i].key
    ensures EntriesSorted(a + b)
  {
  }

  lemma LeafEntriesSorted(t: Tree, s: Shape, max: nat, at: nat)
    requires Inv(t, s, max, DONE) && at < |s.leaves|
    ensures EntriesSorted(LeafEntries(t, s.leaves[at]))
  {
    assert Link(t, s.leaves, at);
    NodeFacts(t, s, max, DONE, s.leaves[at]);
  }

  /** Keys increase strictly along the whole leaf chain. */
  lemma {:induction false} PrefixSorted(t: Tree, s: Shape, max: nat, at: nat)
    requires Inv(t, s, max, DONE) && at <= |s.leaves| && Ordered(s)
    ensures EntriesSorted(Flat(t, s.leaves[..at]))
  {
    hide Inv, Ordered, LeafEntries, EntriesSorted;
    if at > 0 {
      PrefixSorted(t, s, max, at - 1);
      FlatStep(t, s.leaves, at - 1);
      LeafEntriesSorted(t, s, max, at - 1);
      var before, es := Flat(t, s.leaves[..at - 1]), LeafEntries(t, s.leaves[at - 1]);
      if at > 1 {
        PrefixBelowCut(t, s, max, at - 1);
        forall i | 0 <= i < |es|
          ensures s.sep[s.leaves[at - 1]] <= es[i].key
        {
          LeafKeysBounded(t, s, max, at - 1, i);
        }
        SortedConcat(before, es, s.sep[s.leaves[at - 1]]);
      } else {
        assert before + es == es;
      }
    } else {
      NoneSorted();
    }
  }

  lemma NoneSorted()
    ensures EntriesSorted([])
  {
  }

  lemma FlatSorted(t: Tree, s: Shape, max: nat)
    requires Inv(t, s, max, DONE)
    ensures EntriesSorted(Flat(t, s.leaves))
  {
    LeavesAreOrdered(t, s, max);
    PrefixSorted(t, s, max, |s.leaves|);
    assert s.leaves[..|s.leaves|] == s.leaves;
  }

  // ---------------------------------------------------------------- entries and the map

  lemma {:induction false} FlatSource(t: Tree, leaves: seq<int>, n: nat) returns (at: nat, slot: nat)
    requires n < |Flat(t, leaves)|
    ensures at < |leaves| && slot < |LeafEntries(t, leaves[at])|
    ensures n == Offset(t, leaves, at) + slot
    ensures Flat(t, leaves)[n] == LeafEntries(t, leaves[at])[slot]
  {
    var m := |leaves| - 1;
    assert leaves[..m + 1] == leaves;
    FlatStep(t, leaves, m);
    if n < Offset(t, leaves, m) {
      at, slot := FlatSource(t, leaves[..m], n);
      assert leaves[..m][..at] == leaves[..at];
    } else {
      at, slot := m, n - Offset(t, leaves, m);
    }
  }

  /** The list of entries is the map, written out in key order. */
  lemma FlatIsContents(t: Tree, s: Shape, max: nat, contents: map<int, Rid>)
    requires Inv(t, s, max, DONE) && Holds(t, contents)
    ensures forall n :: 0 <= n < |Flat(t, s.leaves)| ==>
      var e := Flat(t, s.leaves)[n];
      e.key in contents && contents[e.key] == e.rid
    ensures forall k :: k in contents ==> Entry(k, contents[k]) in Flat(t, s.leaves)
  {
    forall n | 0 <= n < |Flat(t, s.leaves)|
      ensures
        var e := Flat(t, s.leaves)[n];
        e.key in contents && contents[e.key] == e.rid
    {
      var at, slot := FlatSource(t, s.leaves, n);
      assert Link(t, s.leaves, at);
    }
    forall k | k in contents
      ensures Entry(k, contents[k]) in Flat(t, s.leaves)
    {
      var p :| IsLeaf(t, p) && k in t.pages[p].keys;
      var slot :| 0 <= slot < |t.pages[p].keys| && t.pages[p].keys[slot] == k;
      var at :| 0 <= at < |s.leaves| && s.leaves[at] == p;
      NodeFacts(t, s, max, DONE, p);
      FlatAt(t, s.leaves, at, slot);
    }
  }

  // ---------------------------------------------------------------- positions

  /** Position `iid` stands before the `n`-th entry of the index. */
  ghost predicate StandsAt(t: Tree, leaves: seq<int>, iid: Iid, at: nat, n: int) {
    && at < |leaves| && iid.pageNo == leaves[at]
    && 0 <= iid.slotNo <= |LeafEntries(t, leaves[at])|
    && n == Offset(t, leaves, at) + iid.slotNo
  }

  ghost function LeafRank(leaves: seq<int>, p: int): nat
    requires p in leaves
  {
    var at :| 0 <= at < |leaves| && leaves[at] == p;
    at
  }

  ghost predicate OnChain(t: Tree, leaves: seq<int>, iid: Iid) {
    iid.pageNo in leaves && 0 <= iid.slotNo <= |LeafEntries(t, iid.pageNo)|
  }

  /** How many entries of the index come before position `iid`. */
  ghost function Place(t: Tree, leaves: seq<int>, iid: Iid): nat
    requires OnChain(t, leaves, iid)
  {
    Offset(t, leaves, LeafRank(leaves, iid.pageNo)) + iid.slotNo
  }

  /** A position as the searches return it: on an entry, or at the end of the last leaf. */
  ghost predicate Normal(t: Tree, leaves: seq<int>, iid: Iid) {
    && OnChain(t, leaves, iid)
    && (iid.slotNo == |LeafEntries(t, iid.pageNo)| ==> iid.pageNo == t.last)
  }

  lemma RankOfPosition(t: Tree, leaves: seq<int>, iid: Iid, at: nat, n: int)
    requires Chain(t, leaves) && StandsAt(t, leaves, iid, at, n)
    ensures OnChain(t, leaves, iid) && LeafRank(leaves, iid.pageNo) == at && Place(t, leaves, iid) == n
    ensures 0 <= n <= |Flat(t, leaves)|
  {
    assert iid.pageNo in leaves;
    OffsetStep(t, leaves, at);
    OffsetMonotone(t, leaves, at, at + 1);
  }

  ghost predicate Readies(t: Tree, leaves: seq<int>, at: nat)
    requires at < |leaves|
  {
    && IsLeaf(t, leaves[at])
    && |LeafEntries(t, leaves[at])| == |t.pages[leaves[at]].keys|
    && (t.pages[leaves[at]].nextLeaf == END <==> at + 1 == |leaves|)
    && (at + 1 < |leaves| ==> t.pages[leaves[at]].nextLeaf == leaves[at + 1])
  }

  /** The chain can be walked from any leaf to the end. */
  ghost predicate Walkable(t: Tree, leaves: seq<int>) {
    forall at: nat {:trigger Readies(t, leaves, at)} :: at < |leaves| ==> Readies(t, leaves, at)
  }

  lemma ChainIsWalkable(t: Tree, s: Shape, max: nat)
    requires Inv(t, s, max, DONE)
    ensures Walkable(t, s.leaves)
  {
    forall at: nat | at < |s.leaves|
      ensures Readies(t, s.leaves, at)
    {
      assert Link(t, s.leaves, at) && (at + 1 < |s.leaves| ==> Link(t, s.leaves, at + 1));
      NodeFacts(t, s, max, DONE, s.leaves[at]);
    }
  }

  /** The end of a leaf and the start of the next are the same place in the order. */
  lemma NextLeafStands(t: Tree, leaves: seq<int>, iid: Iid, at: nat, n: int)
    requires Walkable(t, leaves) && StandsAt(t, leaves, iid, at, n) && at + 1 < |leaves|
    requires iid.slotNo == |LeafEntries(t, leaves[at])|
    ensures iid.pageNo in t.pages && StandsAt(t, leaves, Iid(t.pages[iid.pageNo].nextLeaf, 0), at + 1, n)
  {
    assert Readies(t, leaves, at);
    OffsetStep(t, leaves, at);
  }

  lemma StopsNormal(t: Tree, leaves: seq<int>, iid: Iid, at: nat, n: int)
    requires Chain(t, leaves) && StandsAt(t, leaves, iid, at, n) && Readies(t, leaves, at)
    requires iid.slotNo == |t.pages[iid.pageNo].keys| ==> t.pages[iid.pageNo].nextLeaf == END
    ensures Normal(t, leaves, iid) && Place(t, leaves, iid) == n
  {
  }

  /** Entries of earlier leaves are below the key a leaf covers; entries of later leaves above. */
  lemma OtherLeavesAreCut(t: Tree, s: Shape, max: nat, at: nat, key: int, at': nat, slot': nat)
    requires Inv(t, s, max, DONE) && at < |s.leaves| && Covers(t, s, s.leaves[at], key)
    requires at' < |s.leaves| && slot' < |LeafEntries(t, s.leaves[at'])|
    ensures at' < at ==>
      && LeafEntries(t, s.leaves[at'])[slot'].key < key
      && Offset(t, s.leaves, at') + slot' < Offset(t, s.leaves, at)
    ensures at < at' ==>
      && key < LeafEntries(t, s.leaves[at'])[slot'].key
      && Offset(t, s.leaves, at + 1) <= Offset(t, s.leaves, at') + slot'
  {
    LeavesAreOrdered(t, s, max);
    LeafKeysBounded(t, s, max, at', slot');
    if at' < at {
      assert Link(t, s.leaves, at) && s.leaves[at] != s.leaves[0];
      OffsetStep(t, s.leaves, at');
      OffsetMonotone(t, s.leaves, at' + 1, at);
    } else if at < at' {
      assert Link(t, s.leaves, at) && Link(t, s.leaves, at + 1);
      OffsetMonotone(t, s.leaves, at + 1, at');
    }
  }

  lemma EntryIsCut(t: Tree, s: Shape, max: nat, at: nat, key: int, bound: int, slot: nat, n: nat)
    requires Inv(t, s, max, DONE) && at < |s.leaves| && Covers(t, s, s.leaves[at], key)
    requires bound == key || bound == key + 1
    requires SplitsBelow(t.pages[s.leaves[at]].keys, bound, slot) && n < |Flat(t, s.leaves)|
    ensures Flat(t, s.leaves)[n].key < bound <==> n < Offset(t, s.leaves, at) + slot
  {
    OffsetStep(t, s.leaves, at);
    NodeFacts(t, s, max, DONE, s.leaves[at]);
    var at', slot' := FlatSource(t, s.leaves, n);
    OtherLeavesAreCut(t, s, max, at, key, at', slot');
  }

  /** In the leaf that covers a key, the in-leaf cut is the cut of the whole index. */
  lemma LeafCutIsGlobal(t: Tree, s: Shape, max: nat, at: nat, key: int, bound: int, slot: nat)
    requires Inv(t, s, max, DONE) && at < |s.leaves| && Covers(t, s, s.leaves[at], key)
    requires bound == key || bound == key + 1
    requires SplitsBelow(t.pages[s.leaves[at]].keys, bound, slot)
    ensures CutsEntries(Flat(t, s.leaves), bound, Offset(t, s.leaves, at) + slot)
  {
    hide Inv, Covers, SplitsBelow, Flat;
    LeafCutInside(t, s, max, at, key, bound, slot);
    forall n | 0 <= n < |Flat(t, s.leaves)|
      ensures Flat(t, s.leaves)[n].key < bound <==> n < Offset(t, s.leaves, at) + slot
    {
      EntryIsCut(t, s, max, at, key, bound, slot, n);
    }
  }

  lemma LeafCutInside(t: Tree, s: Shape, max: nat, at: nat, key: int, bound: int, slot: nat)
    requires Inv(t, s, max, DONE) && at < |s.leaves| && Covers(t, s, s.leaves[at], key)
    requires SplitsBelow(t.pages[s.leaves[at]].keys, bound, slot)
    ensures Offset(t, s.leaves, at) + slot <= |Flat(t, s.leaves)|
  {
    OffsetStep(t, s.leaves, at);
    OffsetMonotone(t, s.leaves, at, at + 1);
    NodeFacts(t, s, max, DONE, s.leaves[at]);
  }
}
