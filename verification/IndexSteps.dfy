/**
 Each change the index makes to its pages, as a step between states of the invariant.
 */
module IndexSteps {
  import opened Common
  import opened IndexNode
  import opened IndexShape

  function SetPage(t: Tree, p: int, n: Node): Tree {
    t.(pages := t.pages[p := n])
  }

  // ---------------------------------------------------------------- a leaf gains or loses an entry

  /** The cuts after leaf `p` has come to hold `keys`: a leaf's cut follows its first key. */
  ghost function MoveCut(s: Shape, p: int, keys: seq<int>): Shape {
    if p == FIRST || keys == [] then s else s.(sep := s.sep[p := keys[0]])
  }

  /** The leaf's separator stays right when its entries go from `a` to `b`. */
  ghost predicate KeepsSeparator(a: seq<int>, b: seq<int>, p: int, max: nat) {
    || b == []
    || (a != [] && b[0] == a[0] && |b| <= |a|)
    || (a != [] && b[0] == a[0] && |b| == max == |a| + 1)
    || (a != [] && p == FIRST && |b| == max == |a| + 1 && 1 < |b| && b[0] < a[0] == b[1])
  }

  ghost predicate LeafRewrite(t: Tree, s: Shape, max: nat, p: int, n: Node) {
    && IsLeaf(t, p)
    && n == t.pages[p].(keys := n.keys, rids := n.rids)
    && |n.keys| == |n.rids| <= max && Sorted(n.keys)
    && (forall i :: 0 <= i < |n.keys| ==> AtLeast(s, p, n.keys[i]) && Below(s, n.nextLeaf, n.keys[i]))
  }

  ghost predicate LeafStepPre(t: Tree, s: Shape, max: nat, p: int, n: Node, todo: Todo) {
    && 4 <= max && Inv(t, s, max, DONE) && LeafRewrite(t, s, max, p, n)
    && todo == DONE.(over := if |n.keys| == max then p else NO_PAGE, dirty := todo.dirty)
    && (todo.dirty == p || todo.dirty == NO_PAGE)
    && (todo.dirty == p ==> |n.keys| > 0)
    && (todo.dirty == NO_PAGE ==> KeepsSeparator(t.pages[p].keys, n.keys, p, max))
  }

  lemma LeafStepDomain(t: Tree, s: Shape, max: nat, p: int, n: Node, todo: Todo)
    requires LeafStepPre(t, s, max, p, n, todo)
    ensures
      var t', s' := SetPage(t, p, n), MoveCut(s, p, n.keys);
      && Domain(t', s', todo) && RootOk(t', s', todo) && Chain(t', s'.leaves)
      && (forall q :: IsLeaf(t', q) <==> IsLeaf(t, q))
      && (forall c, k :: Below(s, c, k) ==> Below(s', c, k))
  {
    var t', s' := SetPage(t, p, n), MoveCut(s, p, n.keys);
    assert PageOk(t, s, max, DONE, p);
    forall i | 0 <= i < |s'.leaves|
      ensures Link(t', s'.leaves, i)
    {
      assert Link(t, s.leaves, i);
    }
  }

  lemma LeafStepSelf(t: Tree, s: Shape, max: nat, p: int, n: Node, todo: Todo)
    requires LeafStepPre(t, s, max, p, n, todo)
    requires Domain(SetPage(t, p, n), MoveCut(s, p, n.keys), todo)
    ensures PageOk(SetPage(t, p, n), MoveCut(s, p, n.keys), max, todo, p)
  {
    LeafStepDomain(t, s, max, p, n, todo);
    assert PageOk(t, s, max, DONE, p);
  }

  lemma LeafStepLeaf(t: Tree, s: Shape, max: nat, p: int, n: Node, todo: Todo, q: int)
    requires LeafStepPre(t, s, max, p, n, todo) && IsLeaf(t, q) && q != p
    requires Domain(SetPage(t, p, n), MoveCut(s, p, n.keys), todo)
    ensures PageOk(SetPage(t, p, n), MoveCut(s, p, n.keys), max, todo, q)
  {
    LeafStepDomain(t, s, max, p, n, todo);
    assert PageOk(t, s, max, DONE, q);
  }

  lemma LeafStepSeparator(t: Tree, s: Shape, max: nat, p: int, n: Node, todo: Todo, key: int)
    requires LeafStepPre(t, s, max, p, n, todo) && KeyFits(t, s, max, key, p)
    ensures
      var t', s' := SetPage(t, p, n), MoveCut(s, p, n.keys);
      if todo.dirty == p then KeyLags(t', s', key, p) else KeyFits(t', s', max, key, p)
  {
    assert PageOk(t, s, max, DONE, p);
  }

  lemma LeafStepChild(t: Tree, s: Shape, max: nat, p: int, n: Node, todo: Todo, q: int, i: int)
    requires LeafStepPre(t, s, max, p, n, todo) && q in t.pages && !IsLeaf(t, q)
    requires 0 <= i < |t.pages[q].rids|
    requires Domain(SetPage(t, p, n), MoveCut(s, p, n.keys), todo)
    ensures ChildOk(SetPage(t, p, n), MoveCut(s, p, n.keys), todo, q, i)
    ensures KeyOk(SetPage(t, p, n), MoveCut(s, p, n.keys), max, todo, q, i)
  {
    assert PageOk(t, s, max, DONE, q);
    assert ChildOk(t, s, DONE, q, i) && KeyOk(t, s, max, DONE, q, i);
    if t.pages[q].rids[i].pageNo == p {
      LeafStepSeparator(t, s, max, p, n, todo, t.pages[q].keys[i]);
    }
  }

  lemma LeafStepInner(t: Tree, s: Shape, max: nat, p: int, n: Node, todo: Todo, q: int)
    requires LeafStepPre(t, s, max, p, n, todo) && q in t.pages && !IsLeaf(t, q)
    requires Domain(SetPage(t, p, n), MoveCut(s, p, n.keys), todo)
    ensures PageOk(SetPage(t, p, n), MoveCut(s, p, n.keys), max, todo, q)
  {
    LeafStepDomain(t, s, max, p, n, todo);
    var t', s' := SetPage(t, p, n), MoveCut(s, p, n.keys);
    assert PageOk(t, s, max, DONE, q);
    forall i | 0 <= i < |t.pages[q].rids|
      ensures ChildOk(t', s', todo, q, i) && KeyOk(t', s', max, todo, q, i)
    {
      LeafStepChild(t, s, max, p, n, todo, q, i);
    }
  }

  lemma LeafStep(t: Tree, s: Shape, max: nat, p: int, n: Node, todo: Todo)
    requires LeafStepPre(t, s, max, p, n, todo)
    ensures Inv(SetPage(t, p, n), MoveCut(s, p, n.keys), max, todo)
  {
    var t', s' := SetPage(t, p, n), MoveCut(s, p, n.keys);
    LeafStepDomain(t, s, max, p, n, todo);
    forall q | q in t'.pages
      ensures PageOk(t', s', max, todo, q)
    {
      if q == p {
        LeafStepSelf(t, s, max, p, n, todo);
      } else if IsLeaf(t, q) {
        LeafStepLeaf(t, s, max, p, n, todo, q);
      } else {
        LeafStepInner(t, s, max, p, n, todo, q);
      }
    }
  }

  // ---------------------------------------------------------------- a first key moves up

  ghost function Dirty(p: int): Todo { DONE.(dirty := p) }

  ghost predicate RaisePre(t: Tree, s: Shape, max: nat, c: int, p: int, rank: int) {
    && Inv(t, s, max, Dirty(c)) && c in t.pages && |t.pages[c].keys| > 0
    && p in t.pages && p == t.pages[c].parent && !t.pages[p].isLeaf
    && 0 <= rank < |t.pages[p].rids| && t.pages[p].rids[rank].pageNo == c
    && rank < |t.pages[p].keys|
  }

  function RaiseKey(n: Node, rank: int, key: int): Node
    requires 0 <= rank < |n.keys|
  {
    n.(keys := n.keys[rank := key])
  }

  ghost function Raised(t: Tree, s: Shape, max: nat, c: int, p: int, rank: int): Tree
    requires RaisePre(t, s, max, c, p, rank)
  {
    SetPage(t, p, RaiseKey(t.pages[p], rank, t.pages[c].keys[0]))
  }

  lemma RaiseDomain(t: Tree, s: Shape, max: nat, c: int, p: int, rank: int)
    requires RaisePre(t, s, max, c, p, rank)
    ensures
      var t' := Raised(t, s, max, c, p, rank);
      && Domain(t', s, Dirty(p)) && RootOk(t', s, Dirty(p)) && Chain(t', s.leaves)
      && (forall q :: IsLeaf(t', q) <==> IsLeaf(t, q))
  {
    var t' := Raised(t, s, max, c, p, rank);
    forall i | 0 <= i < |s.leaves|
      ensures Link(t', s.leaves, i)
    {
      assert Link(t, s.leaves, i);
    }
  }

  /** Raising a separator to its child's first key keeps the node's keys in order. */
  lemma RaiseSorted(t: Tree, s: Shape, max: nat, c: int, p: int, rank: int)
    requires RaisePre(t, s, max, c, p, rank)
    ensures NodeOk(Raised(t, s, max, c, p, rank), s, max, NO_PAGE, p)
  {
    var todo := Dirty(c);
    assert PageOk(t, s, max, todo, p) && PageOk(t, s, max, todo, c);
    assert ChildOk(t, s, todo, p, rank) && KeyOk(t, s, max, todo, p, rank);
    RaiseDomain(t, s, max, c, p, rank);
    if rank + 1 < |t.pages[p].rids| {
      assert t.pages[p].rids[rank + 1].pageNo != c && ChildOk(t, s, todo, p, rank + 1);
      assert PageOk(t, s, max, todo, t.pages[p].rids[rank + 1].pageNo);
      SeparatorIsCut(t, s, max, todo, p, rank + 1);
    }
  }

  lemma RaiseChild(t: Tree, s: Shape, max: nat, c: int, p: int, rank: int, q: int, i: int)
    requires RaisePre(t, s, max, c, p, rank)
    requires q in t.pages && !t.pages[q].isLeaf && 0 <= i < |t.pages[q].rids|
    requires Domain(Raised(t, s, max, c, p, rank), s, Dirty(p))
    ensures ChildOk(Raised(t, s, max, c, p, rank), s, Dirty(p), q, i)
    ensures KeyOk(Raised(t, s, max, c, p, rank), s, max, Dirty(p), q, i)
  {
    var todo := Dirty(c);
    assert PageOk(t, s, max, todo, p) && PageOk(t, s, max, todo, q);
    assert ChildOk(t, s, todo, p, rank) && ChildOk(t, s, todo, q, i) && KeyOk(t, s, max, todo, q, i);
    if q == p && i == rank {
      assert PageOk(t, s, max, todo, c);
    } else if t.pages[q].rids[i].pageNo == p {
      assert KeyOk(t, s, max, todo, p, rank);
    }
  }

  lemma RaisePage(t: Tree, s: Shape, max: nat, c: int, p: int, rank: int, q: int)
    requires RaisePre(t, s, max, c, p, rank) && q in t.pages
    requires Domain(Raised(t, s, max, c, p, rank), s, Dirty(p))
    ensures PageOk(Raised(t, s, max, c, p, rank), s, max, Dirty(p), q)
  {
    var t' := Raised(t, s, max, c, p, rank);
    RaiseDomain(t, s, max, c, p, rank);
    RaiseSorted(t, s, max, c, p, rank);
    assert PageOk(t, s, max, Dirty(c), q);
    if !t.pages[q].isLeaf {
      forall i | 0 <= i < |t.pages[q].rids|
        ensures ChildOk(t', s, Dirty(p), q, i) && KeyOk(t', s, max, Dirty(p), q, i)
      {
        RaiseChild(t, s, max, c, p, rank, q, i);
      }
    }
  }

  lemma RaiseStep(t: Tree, s: Shape, max: nat, c: int, p: int, rank: int)
    requires RaisePre(t, s, max, c, p, rank)
    ensures Inv(Raised(t, s, max, c, p, rank), s, max, Dirty(p))
  {
    var t' := Raised(t, s, max, c, p, rank);
    RaiseDomain(t, s, max, c, p, rank);
    forall q | q in t'.pages
      ensures PageOk(t', s, max, Dirty(p), q)
    {
      RaisePage(t, s, max, c, p, rank, q);
    }
  }

  /** Nothing is left to do once the page has no parent, or its separator is its first key. */
  lemma Settle(t: Tree, s: Shape, max: nat, c: int)
    requires Inv(t, s, max, Dirty(c)) && c in t.pages
    requires
      var p := t.pages[c].parent;
      p != NO_PAGE ==>
        p in t.pages && exists i :: && 0 <= i < |t.pages[p].rids| && i < |t.pages[p].keys|
                                    && t.pages[p].rids[i].pageNo == c && |t.pages[c].keys| > 0
                                    && t.pages[p].keys[i] == t.pages[c].keys[0]
    ensures Inv(t, s, max, DONE)
  {
    assert PageOk(t, s, max, Dirty(c), c);
    forall q | q in t.pages
      ensures PageOk(t, s, max, DONE, q)
    {
      assert PageOk(t, s, max, Dirty(c), q);
      forall i | !t.pages[q].isLeaf && 0 <= i < |t.pages[q].rids|
        ensures ChildOk(t, s, DONE, q, i) && KeyOk(t, s, max, DONE, q, i)
      {
        assert ChildOk(t, s, Dirty(c), q, i) && KeyOk(t, s, max, Dirty(c), q, i);
        if t.pages[q].rids[i].pageNo == c && s.info[c].first != FIRST && !t.pages[c].isLeaf {
          FirstKeyIsCut(t, s, max, Dirty(c), c);
        }
      }
    }
  }
}
