/**
 Splitting a full page, and telling its parent about the new half.
 */
module IndexSplit {
  import opened Common
  import opened IndexNode
  import opened IndexShape
  import opened IndexSteps

  ghost function Over(p: int): Todo { DONE.(over := p) }

  ghost function Halves(p: int, q: int): Todo { DONE.(left := p, right := q) }

  /** The page that keeps the first half, and the new page that takes the second. */
  function LeftHalf(n: Node): Node
    requires |n.keys| == |n.rids|
  {
    n.(keys := n.keys[..|n.keys| / 2], rids := n.rids[..|n.keys| / 2])
  }

  function RightHalf(n: Node): Node
    requires |n.keys| == |n.rids|
  {
    n.(keys := n.keys[|n.keys| / 2..], rids := n.rids[|n.keys| / 2..])
  }

  ghost predicate SplitPre(t: Tree, s: Shape, max: nat, p: int, fresh': int) {
    && 4 <= max && Inv(t, s, max, Over(p)) && p in t.pages
    && |t.pages[p].keys| == |t.pages[p].rids| == max
    && 2 <= fresh' && fresh' !in t.pages
  }

  // ---------------------------------------------------------------- leaves

  function SplitLeafPages(pages: map<int, Node>, p: int, q: int): map<int, Node>
    requires p in pages && |pages[p].keys| == |pages[p].rids|
  {
    var n := pages[p];
    var r := n.nextLeaf;
    var pages' := pages[p := LeftHalf(n).(nextLeaf := q)][q := RightHalf(n).(prevLeaf := p)];
    if r != END && r in pages' then pages'[r := pages'[r].(prevLeaf := q)] else pages'
  }

  /** The pages after the changes of a leaf split, one after the other. */
  lemma LeafHalvesMoved(pages: map<int, Node>, p: int, q: int)
    requires p in pages && q !in pages && |pages[p].keys| == |pages[p].rids| && pages[p].isLeaf
    requires pages[p].nextLeaf == END || (pages[p].nextLeaf in pages && pages[p].nextLeaf != p)
    ensures var n := pages[p];
            var half := |n.keys| / 2;
            var a := pages[q := Node(true, n.parent, p, n.nextLeaf, n.keys[half..], n.rids[half..])];
            var b := a[p := n.(keys := n.keys[..half], rids := n.rids[..half])];
            var c := if n.nextLeaf != END then b[n.nextLeaf := b[n.nextLeaf].(prevLeaf := q)] else b;
            c[p := c[p].(nextLeaf := q)] == SplitLeafPages(pages, p, q)
  {
  }

  function SplitLeafTree(t: Tree, p: int, q: int): Tree
    requires p in t.pages && |t.pages[p].keys| == |t.pages[p].rids|
  {
    Tree(SplitLeafPages(t.pages, p, q), t.root, if t.last == p then q else t.last)
  }

  ghost function SplitLeafShape(t: Tree, s: Shape, p: int, q: int, at: nat): Shape
    requires p in t.pages && p in s.info && 2 <= |t.pages[p].keys| && at < |s.leaves|
  {
    var info := s.info[p := s.info[p].(after := q)][q := Info(q, s.info[p].after, 0)];
    Shape(info, s.sep[q := t.pages[p].keys[|t.pages[p].keys| / 2]], InsertAt(s.leaves, at + 1, q))
  }

  ghost predicate SplitLeafPre(t: Tree, s: Shape, max: nat, p: int, q: int, at: nat) {
    SplitPre(t, s, max, p, q) && t.pages[p].isLeaf && at < |s.leaves| && s.leaves[at] == p
  }

  ghost predicate SplitChainPre(t: Tree, leaves: seq<int>, p: int, q: int, at: nat) {
    && Chain(t, leaves) && at < |leaves| && leaves[at] == p && q !in t.pages && q != END
    && IsLeaf(t, p) && |t.pages[p].keys| == |t.pages[p].rids|
  }

  lemma LeafPlace(t: Tree, leaves: seq<int>, p: int) returns (at: nat)
    requires Chain(t, leaves) && IsLeaf(t, p)
    ensures at < |leaves| && leaves[at] == p
    ensures t.pages[p].nextLeaf == END || (IsLeaf(t, t.pages[p].nextLeaf) && t.pages[p].nextLeaf != p)
  {
    at :| at < |leaves| && leaves[at] == p;
    assert Link(t, leaves, at);
    assert at + 1 < |leaves| ==> Link(t, leaves, at + 1) && leaves[at + 1] != leaves[at];
  }

  lemma SplitLeafLink(t: Tree, leaves: seq<int>, p: int, q: int, at: nat, i: nat)
    requires SplitChainPre(t, leaves, p, q, at) && i <= |leaves|
    ensures Link(SplitLeafTree(t, p, q), InsertAt(leaves, at + 1, q), i)
  {
    assert Link(t, leaves, at);
    assert at + 1 < |leaves| ==> Link(t, leaves, at + 1);
    if i <= at {
      assert Link(t, leaves, i);
      assert i < at ==> leaves[i] != leaves[at];
    } else if i > at + 1 {
      assert Link(t, leaves, i - 1);
    }
  }

  lemma SplitLeafMember(t: Tree, leaves: seq<int>, p: int, q: int, at: nat, r: int)
    requires SplitChainPre(t, leaves, p, q, at) && IsLeaf(SplitLeafTree(t, p, q), r)
    ensures r in InsertAt(leaves, at + 1, q)
  {
    var leaves' := InsertAt(leaves, at + 1, q);
    assert leaves'[at + 1] == q;
    if r != q {
      assert IsLeaf(t, r);
      var i :| 0 <= i < |leaves| && leaves[i] == r;
      assert leaves'[if i <= at then i else i + 1] == r;
    }
  }

  lemma SplitLeafChain(t: Tree, leaves: seq<int>, p: int, q: int, at: nat)
    requires SplitChainPre(t, leaves, p, q, at)
    ensures Chain(SplitLeafTree(t, p, q), InsertAt(leaves, at + 1, q))
  {
    var t', leaves' := SplitLeafTree(t, p, q), InsertAt(leaves, at + 1, q);
    forall i | 0 <= i < |leaves'|
      ensures Link(t', leaves', i)
    {
      SplitLeafLink(t, leaves, p, q, at, i);
    }
    forall r | IsLeaf(t', r)
      ensures r in leaves'
    {
      SplitLeafMember(t, leaves, p, q, at, r);
    }
    forall i | 0 <= i < |leaves|
      ensures leaves[i] != q
    {
      assert Link(t, leaves, i);
    }
  }

  /** What the split leaves alone. */
  lemma SplitLeafFrame(t: Tree, s: Shape, max: nat, p: int, q: int, at: nat)
    requires SplitLeafPre(t, s, max, p, q, at)
    ensures
      var t' := SplitLeafTree(t, p, q);
      && t'.pages.Keys == t.pages.Keys + {q}
      && (forall r :: IsLeaf(t', r) <==> r == q || IsLeaf(t, r))
      && (forall r :: r in t.pages && !IsLeaf(t, r) ==> t'.pages[r] == t.pages[r])
      && (forall r :: r in t.pages && r != p ==> t'.pages[r] == t.pages[r].(prevLeaf := t'.pages[r].prevLeaf))
      && t'.pages[p] == LeftHalf(t.pages[p]).(nextLeaf := q)
      && t'.pages[q] == RightHalf(t.pages[p]).(prevLeaf := p)
  {
    assert Link(t, s.leaves, at);
    assert at + 1 < |s.leaves| ==> Link(t, s.leaves, at + 1) && s.leaves[at] != s.leaves[at + 1];
  }

  lemma SplitLeafDomain(t: Tree, s: Shape, max: nat, p: int, q: int, at: nat)
    requires SplitLeafPre(t, s, max, p, q, at)
    ensures
      var t', s' := SplitLeafTree(t, p, q), SplitLeafShape(t, s, p, q, at);
      && Domain(t', s', Halves(p, q)) && RootOk(t', s', Halves(p, q))
      && (forall c, k :: c != q && Below(s, c, k) ==> Below(s', c, k))
  {
    SplitLeafFrame(t, s, max, p, q, at);
    assert PageOk(t, s, max, Over(p), p);
  }

  lemma SplitLeafLeft(t: Tree, s: Shape, max: nat, p: int, q: int, at: nat)
    requires SplitLeafPre(t, s, max, p, q, at)
    requires Domain(SplitLeafTree(t, p, q), SplitLeafShape(t, s, p, q, at), Halves(p, q))
    ensures PageOk(SplitLeafTree(t, p, q), SplitLeafShape(t, s, p, q, at), max, Halves(p, q), p)
  {
    SplitLeafFrame(t, s, max, p, q, at);
    assert PageOk(t, s, max, Over(p), p);
  }

  lemma SplitLeafRight(t: Tree, s: Shape, max: nat, p: int, q: int, at: nat)
    requires SplitLeafPre(t, s, max, p, q, at)
    requires Domain(SplitLeafTree(t, p, q), SplitLeafShape(t, s, p, q, at), Halves(p, q))
    ensures PageOk(SplitLeafTree(t, p, q), SplitLeafShape(t, s, p, q, at), max, Halves(p, q), q)
  {
    SplitLeafFrame(t, s, max, p, q, at);
    assert PageOk(t, s, max, Over(p), p);
  }

  lemma SplitLeafChild(t: Tree, s: Shape, max: nat, p: int, q: int, at: nat, r: int, i: int)
    requires SplitLeafPre(t, s, max, p, q, at)
    requires r in t.pages && !t.pages[r].isLeaf && 0 <= i < |t.pages[r].rids|
    requires Domain(SplitLeafTree(t, p, q), SplitLeafShape(t, s, p, q, at), Halves(p, q))
    requires SplitLeafTree(t, p, q).pages[r] == t.pages[r]
    ensures ChildOk(SplitLeafTree(t, p, q), SplitLeafShape(t, s, p, q, at), Halves(p, q), r, i)
  {
    SplitLeafFrame(t, s, max, p, q, at);
    assert PageOk(t, s, max, Over(p), r) && ChildOk(t, s, Over(p), r, i);
    if i + 1 < |t.pages[r].rids| {
      assert ChildOk(t, s, Over(p), r, i + 1);
    }
  }

  lemma SplitLeafKey(t: Tree, s: Shape, max: nat, p: int, q: int, at: nat, r: int, i: int)
    requires SplitLeafPre(t, s, max, p, q, at)
    requires r in t.pages && !t.pages[r].isLeaf && 0 <= i < |t.pages[r].rids|
    requires Domain(SplitLeafTree(t, p, q), SplitLeafShape(t, s, p, q, at), Halves(p, q))
    requires SplitLeafTree(t, p, q).pages[r] == t.pages[r]
    ensures KeyOk(SplitLeafTree(t, p, q), SplitLeafShape(t, s, p, q, at), max, Halves(p, q), r, i)
  {
    SplitLeafFrame(t, s, max, p, q, at);
    assert PageOk(t, s, max, Over(p), r) && KeyOk(t, s, max, Over(p), r, i);
    if t.pages[r].rids[i].pageNo == p {
      assert PageOk(t, s, max, Over(p), p);
    }
  }

  lemma SplitLeafPage(t: Tree, s: Shape, max: nat, p: int, q: int, at: nat, r: int)
    requires SplitLeafPre(t, s, max, p, q, at) && r in t.pages && r != p
    requires Domain(SplitLeafTree(t, p, q), SplitLeafShape(t, s, p, q, at), Halves(p, q))
    ensures PageOk(SplitLeafTree(t, p, q), SplitLeafShape(t, s, p, q, at), max, Halves(p, q), r)
  {
    var t', s' := SplitLeafTree(t, p, q), SplitLeafShape(t, s, p, q, at);
    SplitLeafFrame(t, s, max, p, q, at);
    SplitLeafDomain(t, s, max, p, q, at);
    assert PageOk(t, s, max, Over(p), r);
    if !t.pages[r].isLeaf {
      forall i | 0 <= i < |t.pages[r].rids|
        ensures ChildOk(t', s', Halves(p, q), r, i) && KeyOk(t', s', max, Halves(p, q), r, i)
      {
        SplitLeafChild(t, s, max, p, q, at, r, i);
        SplitLeafKey(t, s, max, p, q, at, r, i);
      }
    }
  }

  lemma SplitLeafStep(t: Tree, s: Shape, max: nat, p: int, q: int, at: nat)
    requires SplitLeafPre(t, s, max, p, q, at)
    ensures Inv(SplitLeafTree(t, p, q), SplitLeafShape(t, s, p, q, at), max, Halves(p, q))
  {
    var t', s' := SplitLeafTree(t, p, q), SplitLeafShape(t, s, p, q, at);
    SplitLeafFrame(t, s, max, p, q, at);
    SplitLeafDomain(t, s, max, p, q, at);
    SplitLeafChain(t, s.leaves, p, q, at);
    SplitLeafLeft(t, s, max, p, q, at);
    SplitLeafRight(t, s, max, p, q, at);
    forall r | r in t'.pages
      ensures PageOk(t', s', max, Halves(p, q), r)
    {
      if r != p && r != q {
        SplitLeafPage(t, s, max, p, q, at, r);
      }
    }
  }

  // ---------------------------------------------------------------- inner nodes

  /** The children that go to the new half. */
  ghost predicate Moves(n: Node, c: int) {
    exists j :: |n.keys| / 2 <= j < |n.rids| && n.rids[j].pageNo == c
  }

  /** `t'` is `t` with inner page `p` split into `p` and `q`, the moved children repointed. */
  ghost predicate IsInnerSplit(t: Tree, t': Tree, p: int, q: int)
    requires p in t.pages && |t.pages[p].keys| == |t.pages[p].rids|
  {
    var n := t.pages[p];
    && t'.root == t.root && t'.last == t.last
    && t'.pages.Keys == t.pages.Keys + {q}
    && t'.pages[p] == LeftHalf(n)
    && (exists prev, next :: t'.pages[q] == RightHalf(n).(prevLeaf := prev, nextLeaf := next))
    && (forall r {:trigger t'.pages[r]} :: r in t.pages && r != p && r != q ==>
          t'.pages[r] == if Moves(n, r) then t.pages[r].(parent := q) else t.pages[r])
  }

  ghost predicate SplitInnerPre(t: Tree, t': Tree, s: Shape, max: nat, p: int, q: int) {
    && SplitPre(t, s, max, p, q) && !t.pages[p].isLeaf && IsInnerSplit(t, t', p, q)
    && t.pages[p].rids[max / 2].pageNo in s.info
  }

  ghost function SplitInnerShape(t: Tree, s: Shape, max: nat, p: int, q: int): Shape
    requires p in t.pages && p in s.info && max / 2 < |t.pages[p].rids|
    requires t.pages[p].rids[max / 2].pageNo in s.info
  {
    var cut := s.info[t.pages[p].rids[max / 2].pageNo].first;
    s.(info := s.info[p := s.info[p].(after := cut)]
                     [q := Info(cut, s.info[p].after, s.info[p].height)])
  }

  /** The pages before the moved children are repointed. */
  function SplitInnerPages(pages: map<int, Node>, p: int, q: int): map<int, Node>
    requires p in pages && |pages[p].keys| == |pages[p].rids|
  {
    pages[p := LeftHalf(pages[p])][q := RightHalf(pages[p]).(prevLeaf := 0, nextLeaf := 0)]
  }

  lemma SplitInnerKids(t: Tree, s: Shape, max: nat, p: int, q: int)
    requires SplitPre(t, s, max, p, q) && !t.pages[p].isLeaf
    ensures forall i :: 0 <= i < max ==>
      var c := t.pages[p].rids[i].pageNo;
      c in t.pages && c in s.info && c != p && c != q
  {
    assert PageOk(t, s, max, Over(p), p);
    forall i | 0 <= i < max
      ensures
        var c := t.pages[p].rids[i].pageNo;
        c in t.pages && c in s.info && c != p && c != q
    {
      assert ChildOk(t, s, Over(p), p, i);
    }
  }

  /** Repointing the new page's children completes the split. */
  lemma SplitInnerRepointed(t: Tree, t': Tree, s: Shape, max: nat, p: int, q: int)
    requires SplitPre(t, s, max, p, q) && !t.pages[p].isLeaf
    requires t'.root == t.root && t'.last == t.last
    requires
      var pages := SplitInnerPages(t.pages, p, q);
      && t'.pages.Keys == pages.Keys
      && forall r :: r in pages ==>
           t'.pages[r] == if HasChild(pages[q], r) then pages[r].(parent := q) else pages[r]
    ensures SplitInnerPre(t, t', s, max, p, q)
  {
    var n := t.pages[p];
    var pages := SplitInnerPages(t.pages, p, q);
    SplitInnerKids(t, s, max, p, q);
    forall c
      ensures HasChild(pages[q], c) <==> Moves(n, c)
    {
      if HasChild(pages[q], c) {
        var i :| 0 <= i < |pages[q].rids| && pages[q].rids[i].pageNo == c;
        assert n.rids[max / 2 + i].pageNo == c;
      }
      if Moves(n, c) {
        var j :| max / 2 <= j < max && n.rids[j].pageNo == c;
        assert pages[q].rids[j - max / 2].pageNo == c;
      }
    }
    assert !Moves(n, p) && !Moves(n, q);
    assert t'.pages[q] == RightHalf(n).(prevLeaf := 0, nextLeaf := 0);
  }

  lemma SplitInnerDomain(t: Tree, t': Tree, s: Shape, max: nat, p: int, q: int)
    requires SplitInnerPre(t, t', s, max, p, q)
    ensures
      var s' := SplitInnerShape(t, s, max, p, q);
      && Domain(t', s', Halves(p, q)) && RootOk(t', s', Halves(p, q))
      && (forall r :: IsLeaf(t', r) <==> IsLeaf(t, r))
  {
    assert PageOk(t, s, max, Over(p), p);
    OnlyOwnChildrenMove(t, s, max, p, q, t.root);
  }

  lemma SplitInnerChain(t: Tree, t': Tree, s: Shape, max: nat, p: int, q: int)
    requires SplitInnerPre(t, t', s, max, p, q)
    requires forall r :: IsLeaf(t', r) <==> IsLeaf(t, r)
    ensures Chain(t', s.leaves)
  {
    forall i | 0 <= i < |s.leaves|
      ensures Link(t', s.leaves, i)
    {
      assert Link(t, s.leaves, i);
    }
  }

  lemma SplitInnerLeft(t: Tree, t': Tree, s: Shape, max: nat, p: int, q: int, i: int)
    requires SplitInnerPre(t, t', s, max, p, q) && 0 <= i < max / 2
    requires Domain(t', SplitInnerShape(t, s, max, p, q), Halves(p, q))
    ensures ChildOk(t', SplitInnerShape(t, s, max, p, q), Halves(p, q), p, i)
    ensures KeyOk(t', SplitInnerShape(t, s, max, p, q), max, Halves(p, q), p, i)
  {
    var n := t.pages[p];
    assert PageOk(t, s, max, Over(p), p);
    assert ChildOk(t, s, Over(p), p, i) && ChildOk(t, s, Over(p), p, i + 1) && KeyOk(t, s, max, Over(p), p, i);
    assert !Moves(n, n.rids[i].pageNo);
  }

  lemma SplitInnerRight(t: Tree, t': Tree, s: Shape, max: nat, p: int, q: int, i: int)
    requires SplitInnerPre(t, t', s, max, p, q) && 0 <= i < max - max / 2
    requires Domain(t', SplitInnerShape(t, s, max, p, q), Halves(p, q))
    ensures ChildOk(t', SplitInnerShape(t, s, max, p, q), Halves(p, q), q, i)
  {
    var j := max / 2 + i;
    assert PageOk(t, s, max, Over(p), p) && ChildOk(t, s, Over(p), p, j);
    assert j + 1 < max ==> ChildOk(t, s, Over(p), p, j + 1);
    assert Moves(t.pages[p], t.pages[p].rids[j].pageNo);
  }

  lemma SplitInnerRightKey(t: Tree, t': Tree, s: Shape, max: nat, p: int, q: int, i: int)
    requires SplitInnerPre(t, t', s, max, p, q) && 0 <= i < max - max / 2
    requires Domain(t', SplitInnerShape(t, s, max, p, q), Halves(p, q))
    ensures KeyOk(t', SplitInnerShape(t, s, max, p, q), max, Halves(p, q), q, i)
  {
    var j := max / 2 + i;
    assert PageOk(t, s, max, Over(p), p) && ChildOk(t, s, Over(p), p, j) && KeyOk(t, s, max, Over(p), p, j);
  }

  /** A page's children move only when that page splits. */
  lemma OnlyOwnChildrenMove(t: Tree, s: Shape, max: nat, p: int, q: int, c: int)
    requires SplitPre(t, s, max, p, q) && !t.pages[p].isLeaf
    requires c in t.pages && t.pages[c].parent != p
    ensures !Moves(t.pages[p], c)
  {
    assert PageOk(t, s, max, Over(p), p);
    forall j | max / 2 <= j < max
      ensures t.pages[p].rids[j].pageNo != c
    {
      assert ChildOk(t, s, Over(p), p, j);
    }
  }

  lemma SplitInnerOther(t: Tree, t': Tree, s: Shape, max: nat, p: int, q: int, r: int, i: int)
    requires SplitInnerPre(t, t', s, max, p, q)
    requires r in t.pages && r != p && !t.pages[r].isLeaf && 0 <= i < |t.pages[r].rids|
    requires Domain(t', SplitInnerShape(t, s, max, p, q), Halves(p, q))
    requires t'.pages[r].rids == t.pages[r].rids
    ensures ChildOk(t', SplitInnerShape(t, s, max, p, q), Halves(p, q), r, i)
  {
    assert PageOk(t, s, max, Over(p), r) && ChildOk(t, s, Over(p), r, i);
    assert i + 1 < |t.pages[r].rids| ==> ChildOk(t, s, Over(p), r, i + 1);
    OnlyOwnChildrenMove(t, s, max, p, q, t.pages[r].rids[i].pageNo);
  }

  lemma SplitInnerOtherKey(t: Tree, t': Tree, s: Shape, max: nat, p: int, q: int, r: int, i: int)
    requires SplitInnerPre(t, t', s, max, p, q)
    requires r in t.pages && r != p && !t.pages[r].isLeaf && 0 <= i < |t.pages[r].rids|
    requires Domain(t', SplitInnerShape(t, s, max, p, q), Halves(p, q))
    requires t'.pages[r].rids == t.pages[r].rids && t'.pages[r].keys == t.pages[r].keys
    ensures KeyOk(t', SplitInnerShape(t, s, max, p, q), max, Halves(p, q), r, i)
  {
    assert PageOk(t, s, max, Over(p), r) && ChildOk(t, s, Over(p), r, i) && KeyOk(t, s, max, Over(p), r, i);
    OnlyOwnChildrenMove(t, s, max, p, q, t.pages[r].rids[i].pageNo);
    if t.pages[r].rids[i].pageNo == p {
      assert PageOk(t, s, max, Over(p), p);
    }
  }

  lemma SplitInnerLeftPage(t: Tree, t': Tree, s: Shape, max: nat, p: int, q: int)
    requires SplitInnerPre(t, t', s, max, p, q)
    requires Domain(t', SplitInnerShape(t, s, max, p, q), Halves(p, q))
    requires forall r :: IsLeaf(t', r) <==> IsLeaf(t, r)
    ensures PageOk(t', SplitInnerShape(t, s, max, p, q), max, Halves(p, q), p)
  {
    var s', todo := SplitInnerShape(t, s, max, p, q), Halves(p, q);
    assert PageOk(t, s, max, Over(p), p) && ChildOk(t, s, Over(p), p, max / 2);
    SeparatorIsCut(t, s, max, Over(p), p, max / 2);
    assert PageOk(t, s, max, Over(p), t.pages[p].rids[max / 2].pageNo);
    SplitInnerParent(t, t', s, max, p, q, p);
    forall i | 0 <= i < |t'.pages[p].rids|
      ensures ChildOk(t', s', todo, p, i) && KeyOk(t', s', max, todo, p, i)
    {
      SplitInnerLeft(t, t', s, max, p, q, i);
    }
  }

  lemma SplitInnerRightPage(t: Tree, t': Tree, s: Shape, max: nat, p: int, q: int)
    requires SplitInnerPre(t, t', s, max, p, q)
    requires Domain(t', SplitInnerShape(t, s, max, p, q), Halves(p, q))
    requires forall r :: IsLeaf(t', r) <==> IsLeaf(t, r)
    ensures PageOk(t', SplitInnerShape(t, s, max, p, q), max, Halves(p, q), q)
  {
    var s', todo := SplitInnerShape(t, s, max, p, q), Halves(p, q);
    assert PageOk(t, s, max, Over(p), p) && ChildOk(t, s, Over(p), p, max / 2);
    assert PageOk(t, s, max, Over(p), t.pages[p].rids[max / 2].pageNo);
    forall i | 0 <= i < |t'.pages[q].rids|
      ensures ChildOk(t', s', todo, q, i) && KeyOk(t', s', max, todo, q, i)
    {
      SplitInnerRight(t, t', s, max, p, q, i);
      SplitInnerRightKey(t, t', s, max, p, q, i);
    }
  }

  lemma SplitInnerOtherNode(t: Tree, t': Tree, s: Shape, max: nat, p: int, q: int, r: int)
    requires SplitInnerPre(t, t', s, max, p, q) && r in t.pages && r != p
    requires forall r :: IsLeaf(t', r) <==> IsLeaf(t, r)
    ensures t'.pages[r] == t.pages[r].(parent := t'.pages[r].parent)
    ensures NodeOk(t', SplitInnerShape(t, s, max, p, q), max, NO_PAGE, r)
    ensures LeafOk(t', SplitInnerShape(t, s, max, p, q), r)
  {
    assert PageOk(t, s, max, Over(p), r);
  }

  lemma SplitInnerOtherPage(t: Tree, t': Tree, s: Shape, max: nat, p: int, q: int, r: int)
    requires SplitInnerPre(t, t', s, max, p, q) && r in t.pages && r != p
    requires Domain(t', SplitInnerShape(t, s, max, p, q), Halves(p, q))
    requires forall r :: IsLeaf(t', r) <==> IsLeaf(t, r)
    ensures PageOk(t', SplitInnerShape(t, s, max, p, q), max, Halves(p, q), r)
  {
    var s', todo := SplitInnerShape(t, s, max, p, q), Halves(p, q);
    assert KidsOk(t, s, Over(p), r) by {
      assert PageOk(t, s, max, Over(p), r);
    }
    SplitInnerOtherNode(t, t', s, max, p, q, r);
    SplitInnerParent(t, t', s, max, p, q, r);
    if !t'.pages[r].isLeaf {
      forall i | 0 <= i < |t'.pages[r].rids|
        ensures ChildOk(t', s', todo, r, i) && KeyOk(t', s', max, todo, r, i)
      {
        SplitInnerOther(t, t', s, max, p, q, r, i);
        SplitInnerOtherKey(t, t', s, max, p, q, r, i);
      }
    }
  }

  lemma SplitInnerParent(t: Tree, t': Tree, s: Shape, max: nat, p: int, q: int, r: int)
    requires SplitInnerPre(t, t', s, max, p, q) && r in t.pages
    ensures ParentOk(t', Halves(p, q), r)
  {
    var n, g := t.pages[p], t.pages[r].parent;
    if r != t.root {
      assert PageOk(t, s, max, Over(p), r);
      var i :| 0 <= i < |t.pages[g].rids| && t.pages[g].rids[i].pageNo == r;
      if g == p {
        assert PageOk(t, s, max, Over(p), p) && ChildOk(t, s, Over(p), p, i);
        if i < max / 2 {
          assert !Moves(n, r) && t'.pages[p].rids[i].pageNo == r;
        } else {
          assert Moves(n, r) && t'.pages[q].rids[i - max / 2].pageNo == r;
        }
      } else {
        OnlyOwnChildrenMove(t, s, max, p, q, r);
        assert t'.pages[g].rids[i].pageNo == r;
      }
    }
  }

  lemma SplitInnerStep(t: Tree, t': Tree, s: Shape, max: nat, p: int, q: int)
    requires SplitInnerPre(t, t', s, max, p, q)
    ensures Inv(t', SplitInnerShape(t, s, max, p, q), max, Halves(p, q))
  {
    var s', todo := SplitInnerShape(t, s, max, p, q), Halves(p, q);
    SplitInnerDomain(t, t', s, max, p, q);
    SplitInnerChain(t, t', s, max, p, q);
    SplitInnerLeftPage(t, t', s, max, p, q);
    SplitInnerRightPage(t, t', s, max, p, q);
    forall r | r in t'.pages
      ensures PageOk(t', s', max, todo, r)
    {
      if r != p && r != q {
        SplitInnerOtherPage(t, t', s, max, p, q, r);
      }
    }
  }
}
