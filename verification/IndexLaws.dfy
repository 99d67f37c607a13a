/**
 What the invariant says of the index as a whole, and of every run of operations on it.
 */
module IndexLaws {
  import opened Common
  import opened IndexNode
  import opened IndexShape
  import opened IndexContents
  import opened IndexOrder
  import opened IndexHandle

  // ---------------------------------------------------------------- separators

  /** A separator is the first key below its child, except over an emptied leaf, and over the first
      leaf of all, where it may be too high while that leaf is at most half full. */
  lemma SeparatorLaw(t: Tree, s: Shape, max: nat, p: int, i: int)
    requires Inv(t, s, max, DONE) && p in t.pages && !t.pages[p].isLeaf && 0 <= i < |t.pages[p].rids|
    ensures
      var n := t.pages[p];
      var c := n.rids[i].pageNo;
      && |n.keys| == |n.rids| && Sorted(n.keys) && c in t.pages
      && (|t.pages[c].keys| > 0 ==>
            || n.keys[i] == t.pages[c].keys[0]
            || (c == FIRST && n.keys[i] > t.pages[c].keys[0] && |t.pages[c].keys| <= max / 2))
  {
    assert PageOk(t, s, max, DONE, p) && ChildOk(t, s, DONE, p, i) && KeyOk(t, s, max, DONE, p, i);
    assert PageOk(t, s, max, DONE, t.pages[p].rids[i].pageNo);
  }

  // ---------------------------------------------------------------- depth

  /** The page `k` parent links above page `p`. */
  ghost function Ancestor(t: Tree, p: int, k: nat): int
    decreases k
  {
    if k == 0 || p !in t.pages then p else Ancestor(t, t.pages[p].parent, k - 1)
  }

  lemma {:induction false} ClimbsToRoot(t: Tree, s: Shape, max: nat, p: int, k: nat)
    requires Inv(t, s, max, DONE) && p in t.pages && s.info[p].height + k <= s.info[t.root].height
    ensures Ancestor(t, p, k) in t.pages && s.info[Ancestor(t, p, k)].height == s.info[p].height + k
    ensures Ancestor(t, p, k) == t.root <==> s.info[p].height + k == s.info[t.root].height
    decreases k
  {
    ParentFacts(t, s, max, DONE, p);
    if k > 0 {
      ClimbsToRoot(t, s, max, t.pages[p].parent, k - 1);
    }
  }

  /** Every leaf is the same number of parent links below the root. */
  lemma EqualDepth(t: Tree, s: Shape, max: nat, p: int, k: nat)
    requires Inv(t, s, max, DONE) && IsLeaf(t, p) && k <= s.info[t.root].height
    ensures Ancestor(t, p, k) == t.root <==> k == s.info[t.root].height
  {
    assert PageOk(t, s, max, DONE, p);
    ClimbsToRoot(t, s, max, p, k);
  }

  // ---------------------------------------------------------------- the leaf chain

  /** The leaves below a page, from left to right. */
  ghost function LeavesBelow(t: Tree, p: int, height: nat): seq<int>
    decreases height, 1, 0
  {
    if height == 0 || p !in t.pages then [p] else LeavesOfKids(t, p, height, |t.pages[p].rids|)
  }

  ghost function LeavesOfKids(t: Tree, p: int, height: nat, k: nat): seq<int>
    requires height > 0 && p in t.pages && k <= |t.pages[p].rids|
    decreases height, 0, k
  {
    if k == 0 then [] else LeavesOfKids(t, p, height, k - 1) + LeavesBelow(t, t.pages[p].rids[k - 1].pageNo, height - 1)
  }

  /** The place of a cut between leaves, named by the leaf on its right. */
  ghost function CutPlace(leaves: seq<int>, cut: int): nat {
    if cut in leaves then LeafRank(leaves, cut) else |leaves|
  }

  /** The leaves below a page are the run of the chain that the page covers. */
  ghost predicate CoversRun(t: Tree, s: Shape, p: int)
    requires p in s.info
  {
    var i, j := CutPlace(s.leaves, s.info[p].first), CutPlace(s.leaves, s.info[p].after);
    i < j <= |s.leaves| && LeavesBelow(t, p, s.info[p].height) == s.leaves[i..j]
  }

  lemma {:induction false} KidsCoverRun(t: Tree, s: Shape, p: int, k: nat)
    requires Domain(t, s, DONE) && p in t.pages && 0 < k <= |t.pages[p].rids| && s.info[p].height > 0
    requires forall i {:trigger ChildOk(t, s, DONE, p, i)} :: 0 <= i < |t.pages[p].rids| ==>
               ChildOk(t, s, DONE, p, i) && CoversRun(t, s, t.pages[p].rids[i].pageNo)
    ensures t.pages[p].rids[k - 1].pageNo in s.info
    ensures var i := CutPlace(s.leaves, s.info[p].first);
            var j := CutPlace(s.leaves, s.info[t.pages[p].rids[k - 1].pageNo].after);
            i < j <= |s.leaves| && LeavesOfKids(t, p, s.info[p].height, k) == s.leaves[i..j]
  {
    hide CutPlace;
    assert ChildOk(t, s, DONE, p, k - 1);
    var height := s.info[p].height;
    var below := LeavesBelow(t, t.pages[p].rids[k - 1].pageNo, height - 1);
    if k > 1 {
      assert ChildOk(t, s, DONE, p, k - 2);
      KidsCoverRun(t, s, p, k - 1);
    } else {
      assert LeavesOfKids(t, p, height, 0) + below == below;
    }
  }

  lemma RankOfLeaf(leaves: seq<int>, i: nat)
    requires i < |leaves| && forall a, b :: 0 <= a < b < |leaves| ==> leaves[a] != leaves[b]
    ensures LeafRank(leaves, leaves[i]) == i
  {
  }

  lemma EndIsNoLeaf(t: Tree, leaves: seq<int>)
    requires Chain(t, leaves)
    ensures END !in leaves
  {
    forall k | 0 <= k < |leaves|
      ensures leaves[k] != END
    {
      assert Link(t, leaves, k);
    }
  }

  lemma {:induction false} PageCoversRun(t: Tree, s: Shape, max: nat, p: int)
    requires Inv(t, s, max, DONE) && p in t.pages
    ensures p in s.info && CoversRun(t, s, p)
    decreases s.info[p].height
  {
    assert PageOk(t, s, max, DONE, p);
    if t.pages[p].isLeaf {
      var i := LeafRank(s.leaves, p);
      assert Link(t, s.leaves, i);
      RankOfLeaf(s.leaves, i);
      if i + 1 < |s.leaves| {
        RankOfLeaf(s.leaves, i + 1);
      } else {
        EndIsNoLeaf(t, s.leaves);
      }
    } else {
      forall i | 0 <= i < |t.pages[p].rids|
        ensures ChildOk(t, s, DONE, p, i) && CoversRun(t, s, t.pages[p].rids[i].pageNo)
      {
        assert ChildOk(t, s, DONE, p, i);
        PageCoversRun(t, s, max, t.pages[p].rids[i].pageNo);
      }
      hide PagesOk, Chain, CoversRun;
      var k := |t.pages[p].rids|;
      assert ChildOk(t, s, DONE, p, k - 1);
      KidsCoverRun(t, s, p, k);
      KidsMakeRun(t, s, p);
    }
  }

  lemma KidsMakeRun(t: Tree, s: Shape, p: int)
    requires p in t.pages && p in s.info && s.info[p].height > 0
    requires var i, j := CutPlace(s.leaves, s.info[p].first), CutPlace(s.leaves, s.info[p].after);
             i < j <= |s.leaves| && LeavesOfKids(t, p, s.info[p].height, |t.pages[p].rids|) == s.leaves[i..j]
    ensures CoversRun(t, s, p)
  {
  }

  /** The leaf chain, from the first leaf to the last, is exactly the leaves of the tree in order. */
  lemma ChainIsInOrder(t: Tree, s: Shape, max: nat)
    requires Inv(t, s, max, DONE)
    ensures LeavesBelow(t, t.root, s.info[t.root].height) == s.leaves
    ensures s.leaves[0] == FIRST && s.leaves[|s.leaves| - 1] == t.last
  {
    PageCoversRun(t, s, max, t.root);
    RankOfLeaf(s.leaves, 0);
    EndIsNoLeaf(t, s.leaves);
  }

  // ---------------------------------------------------------------- runs

  datatype Op = Insert(key: int, rid: Rid) | Delete(key: int) | Get(key: int)

  datatype Answer = Accepted | Refused | Removed | NotThere | Value(rid: Rid)

  /** What a finite map answers. */
  function MapAnswer(m: map<int, Rid>, op: Op): Answer {
    match op
    case Insert(k, _) => if k in m then Refused else Accepted
    case Delete(k) => if k in m then Removed else NotThere
    case Get(k) => if k in m then Value(m[k]) else NotThere
  }

  function MapStep(m: map<int, Rid>, op: Op): map<int, Rid> {
    match op
    case Insert(k, r) => if k in m then m else m[k := r]
    case Delete(k) => m - {k}
    case Get(_) => m
  }

  function MapRun(m: map<int, Rid>, ops: seq<Op>): seq<Answer>
    decreases |ops|
  {
    if ops == [] then [] else [MapAnswer(m, ops[0])] + MapRun(MapStep(m, ops[0]), ops[1..])
  }

  /** One operation on the index. */
  method Perform(ih: IxIndexHandle, op: Op) returns (a: Answer)
    requires ih.Valid()
    modifies ih, ih.pool
    ensures ih.Valid()
    ensures a == MapAnswer(old(ih.contents), op) && ih.contents == MapStep(old(ih.contents), op)
  {
    match op {
      case Insert(k, r) =>
        var outcome := ih.InsertEntry(k, r);
        a := if outcome.Duplicate? then Refused else Accepted;
      case Delete(k) =>
        var removed := ih.DeleteEntry(k);
        a := if removed then Removed else NotThere;
      case Get(k) =>
        var found := ih.GetValue(k);
        a := if found.Found? then Value(found.rid) else NotThere;
    }
  }

  /** Over every run from the empty index, the index answers as a finite map does. */
  method Run(order: nat, filePages: int, ops: seq<Op>) returns (answers: seq<Answer>)
    requires 3 <= order
    ensures answers == MapRun(map[], ops)
  {
    var ih := new IxIndexHandle(order, filePages);
    answers := [];
    for i := 0 to |ops|
      invariant ih.Valid() && fresh(ih) && fresh(ih.pool)
      invariant answers + MapRun(ih.contents, ops[i..]) == MapRun(map[], ops)
    {
      ghost var m := ih.contents;
      assert ops[i..][1..] == ops[i + 1..];
      var a := Perform(ih, ops[i]);
      answers := answers + [a];
    }
  }
}
