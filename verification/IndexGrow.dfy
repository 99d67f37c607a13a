/**
 The new half of a split page is entered in its parent, or in a new root above both halves.
 */
module IndexGrow {
  import opened Common
  import opened IndexNode
  import opened IndexShape
  import opened IndexSteps
  import opened IndexSplit

  // ---------------------------------------------------------------- a new root

  function RootNode(pages: map<int, Node>, p: int, q: int): Node
    requires p in pages && q in pages && |pages[p].keys| > 0 && |pages[q].keys| > 0
  {
    Node(false, NO_PAGE, NO_PAGE, NO_PAGE,
         [pages[p].keys[0], pages[q].keys[0]], [Rid(p, -1), Rid(q, -1)])
  }

  function NewRootTree(t: Tree, p: int, q: int, r: int): Tree
    requires p in t.pages && q in t.pages && |t.pages[p].keys| > 0 && |t.pages[q].keys| > 0
  {
    Tree(t.pages[p := t.pages[p].(parent := r)]
                [q := t.pages[q].(parent := r)]
                [r := RootNode(t.pages, p, q)], r, t.last)
  }

  ghost function NewRootShape(s: Shape, p: int, r: int): Shape
    requires p in s.info
  {
    s.(info := s.info[r := Info(FIRST, END, s.info[p].height + 1)])
  }

  ghost predicate NewRootPre(t: Tree, s: Shape, max: nat, p: int, q: int, r: int) {
    && 4 <= max && Inv(t, s, max, Halves(p, q)) && p == t.root && p in t.pages && q in t.pages
    && 2 <= r && r !in t.pages
  }

  lemma NewRootDomain(t: Tree, s: Shape, max: nat, p: int, q: int, r: int)
    requires NewRootPre(t, s, max, p, q, r)
    ensures
      var t', s' := NewRootTree(t, p, q, r), NewRootShape(s, p, r);
      && Domain(t', s', DONE) && RootOk(t', s', DONE) && Chain(t', s'.leaves)
      && (forall c :: IsLeaf(t', c) <==> IsLeaf(t, c))
      && (forall c :: c in t.pages ==> t'.pages[c] == t.pages[c].(parent := t'.pages[c].parent))
  {
    var t', s' := NewRootTree(t, p, q, r), NewRootShape(s, p, r);
    forall i | 0 <= i < |s.leaves|
      ensures Link(t', s.leaves, i)
    {
      assert Link(t, s.leaves, i);
    }
  }

  /** Before the new root exists, no page has either half as a child. */
  lemma HalvesHaveNoParent(t: Tree, s: Shape, max: nat, p: int, q: int, r: int, c: int, i: int)
    requires NewRootPre(t, s, max, p, q, r)
    requires c in t.pages && !t.pages[c].isLeaf && 0 <= i < |t.pages[c].rids|
    ensures t.pages[c].rids[i].pageNo != p && t.pages[c].rids[i].pageNo != q
  {
    assert PageOk(t, s, max, Halves(p, q), c) && ChildOk(t, s, Halves(p, q), c, i);
  }

  lemma NewRootSelf(t: Tree, s: Shape, max: nat, p: int, q: int, r: int)
    requires NewRootPre(t, s, max, p, q, r)
    requires Domain(NewRootTree(t, p, q, r), NewRootShape(s, p, r), DONE)
    ensures PageOk(NewRootTree(t, p, q, r), NewRootShape(s, p, r), max, DONE, r)
  {
    var t', s' := NewRootTree(t, p, q, r), NewRootShape(s, p, r);
    NewRootDomain(t, s, max, p, q, r);
    assert PageOk(t, s, max, Halves(p, q), p) && PageOk(t, s, max, Halves(p, q), q);
    FirstKeyIsCut(t, s, max, Halves(p, q), q);
    forall i | 0 <= i < 2
      ensures ChildOk(t', s', DONE, r, i) && KeyOk(t', s', max, DONE, r, i)
    {
    }
  }

  lemma NewRootChild(t: Tree, s: Shape, max: nat, p: int, q: int, r: int, c: int, i: int)
    requires NewRootPre(t, s, max, p, q, r)
    requires c in t.pages && !t.pages[c].isLeaf && 0 <= i < |t.pages[c].rids|
    requires Domain(NewRootTree(t, p, q, r), NewRootShape(s, p, r), DONE)
    ensures ChildOk(NewRootTree(t, p, q, r), NewRootShape(s, p, r), DONE, c, i)
    ensures KeyOk(NewRootTree(t, p, q, r), NewRootShape(s, p, r), max, DONE, c, i)
  {
    HalvesHaveNoParent(t, s, max, p, q, r, c, i);
    assert PageOk(t, s, max, Halves(p, q), c);
    assert ChildOk(t, s, Halves(p, q), c, i) && KeyOk(t, s, max, Halves(p, q), c, i);
  }

  lemma NewRootPage(t: Tree, s: Shape, max: nat, p: int, q: int, r: int, c: int)
    requires NewRootPre(t, s, max, p, q, r) && c in t.pages
    requires Domain(NewRootTree(t, p, q, r), NewRootShape(s, p, r), DONE)
    ensures PageOk(NewRootTree(t, p, q, r), NewRootShape(s, p, r), max, DONE, c)
  {
    var t', s' := NewRootTree(t, p, q, r), NewRootShape(s, p, r);
    NewRootDomain(t, s, max, p, q, r);
    assert PageOk(t, s, max, Halves(p, q), c);
    assert t'.pages[r].rids[0].pageNo == p && t'.pages[r].rids[1].pageNo == q;
    if !t.pages[c].isLeaf {
      forall i | 0 <= i < |t.pages[c].rids|
        ensures ChildOk(t', s', DONE, c, i) && KeyOk(t', s', max, DONE, c, i)
      {
        NewRootChild(t, s, max, p, q, r, c, i);
      }
    }
  }

  lemma NewRootStep(t: Tree, s: Shape, max: nat, p: int, q: int, r: int)
    requires NewRootPre(t, s, max, p, q, r)
    ensures Inv(NewRootTree(t, p, q, r), NewRootShape(s, p, r), max, DONE)
  {
    var t', s' := NewRootTree(t, p, q, r), NewRootShape(s, p, r);
    NewRootDomain(t, s, max, p, q, r);
    NewRootSelf(t, s, max, p, q, r);
    forall c | c in t'.pages
      ensures PageOk(t', s', max, DONE, c)
    {
      if c != r {
        NewRootPage(t, s, max, p, q, r, c);
      }
    }
  }

  // ---------------------------------------------------------------- one more child

  ghost predicate AdoptPre(t: Tree, s: Shape, max: nat, p: int, q: int, g: int, pos: int) {
    && 4 <= max && Inv(t, s, max, Halves(p, q)) && p in t.pages && q in t.pages
    && g == t.pages[p].parent && g in t.pages && !t.pages[g].isLeaf
    && 0 <= pos < |t.pages[g].rids| && |t.pages[g].keys| == |t.pages[g].rids|
    && t.pages[g].rids[pos].pageNo == p && |t.pages[q].keys| > 0
  }

  ghost function Adopted(t: Tree, s: Shape, max: nat, p: int, q: int, g: int, pos: int): Tree
    requires AdoptPre(t, s, max, p, q, g, pos)
  {
    t.(pages := t.pages[g := InsertPair(t.pages[g], pos + 1, t.pages[q].keys[0], Rid(q, -1))]
                       [q := t.pages[q].(parent := g)])
  }

  ghost function AdoptTodo(t: Tree, max: nat, g: int): Todo
    requires g in t.pages
  {
    DONE.(over := if |t.pages[g].keys| + 1 == max then g else NO_PAGE)
  }

  lemma AdoptDomain(t: Tree, s: Shape, max: nat, p: int, q: int, g: int, pos: int)
    requires AdoptPre(t, s, max, p, q, g, pos)
    ensures
      var t', todo := Adopted(t, s, max, p, q, g, pos), AdoptTodo(t, max, g);
      && g != q
      && Domain(t', s, todo) && RootOk(t', s, todo) && Chain(t', s.leaves)
      && (forall c :: IsLeaf(t', c) <==> IsLeaf(t, c))
  {
    var t' := Adopted(t, s, max, p, q, g, pos);
    assert PageOk(t, s, max, Halves(p, q), g) && ChildOk(t, s, Halves(p, q), g, pos);
    forall i | 0 <= i < |s.leaves|
      ensures Link(t', s.leaves, i)
    {
      assert Link(t, s.leaves, i);
    }
  }

  lemma AdoptBetween(t: Tree, s: Shape, max: nat, p: int, q: int, g: int, pos: int)
    requires AdoptPre(t, s, max, p, q, g, pos)
    ensures t.pages[g].keys[pos] < t.pages[q].keys[0]
    ensures pos + 1 < |t.pages[g].keys| ==> t.pages[q].keys[0] < t.pages[g].keys[pos + 1]
    ensures g in s.info && Below(s, s.info[g].after, t.pages[q].keys[0])
  {
    var todo := Halves(p, q);
    assert PageOk(t, s, max, todo, g) && PageOk(t, s, max, todo, q);
    assert ChildOk(t, s, todo, g, pos) && KeyOk(t, s, max, todo, g, pos);
    if pos + 1 < |t.pages[g].rids| {
      assert ChildOk(t, s, todo, g, pos + 1);
      assert PageOk(t, s, max, todo, t.pages[g].rids[pos + 1].pageNo);
      SeparatorIsCut(t, s, max, todo, g, pos + 1);
      assert Below(s, s.info[g].after, t.pages[g].keys[pos + 1]);
    }
  }

  /** The new half's first key falls strictly between its neighbours' separators. */
  lemma AdoptSorted(t: Tree, s: Shape, max: nat, p: int, q: int, g: int, pos: int)
    requires AdoptPre(t, s, max, p, q, g, pos)
    ensures NodeOk(Adopted(t, s, max, p, q, g, pos), s, max, AdoptTodo(t, max, g).over, g)
  {
    assert PageOk(t, s, max, Halves(p, q), g);
    AdoptDomain(t, s, max, p, q, g, pos);
    AdoptBetween(t, s, max, p, q, g, pos);
  }

  lemma AdoptOwnChild(t: Tree, s: Shape, max: nat, p: int, q: int, g: int, pos: int, i: int)
    requires AdoptPre(t, s, max, p, q, g, pos) && 0 <= i <= |t.pages[g].rids| && i != pos + 1
    requires Domain(Adopted(t, s, max, p, q, g, pos), s, AdoptTodo(t, max, g)) && g != q
    ensures ChildOk(Adopted(t, s, max, p, q, g, pos), s, AdoptTodo(t, max, g), g, i)
  {
    var todo := Halves(p, q);
    assert PageOk(t, s, max, todo, g);
    var j := if i <= pos then i else i - 1;
    assert ChildOk(t, s, todo, g, j);
    assert j != pos ==> t.pages[g].rids[j].pageNo != p;
  }

  lemma AdoptNewChild(t: Tree, s: Shape, max: nat, p: int, q: int, g: int, pos: int)
    requires AdoptPre(t, s, max, p, q, g, pos)
    requires Domain(Adopted(t, s, max, p, q, g, pos), s, AdoptTodo(t, max, g)) && g != q
    ensures ChildOk(Adopted(t, s, max, p, q, g, pos), s, AdoptTodo(t, max, g), g, pos + 1)
  {
    var todo := Halves(p, q);
    assert PageOk(t, s, max, todo, g) && ChildOk(t, s, todo, g, pos);
    assert PageOk(t, s, max, todo, p);
  }

  lemma AdoptOwnKey(t: Tree, s: Shape, max: nat, p: int, q: int, g: int, pos: int, i: int)
    requires AdoptPre(t, s, max, p, q, g, pos) && 0 <= i <= |t.pages[g].rids|
    requires Domain(Adopted(t, s, max, p, q, g, pos), s, AdoptTodo(t, max, g)) && g != q
    ensures KeyOk(Adopted(t, s, max, p, q, g, pos), s, max, AdoptTodo(t, max, g), g, i)
  {
    var todo := Halves(p, q);
    assert PageOk(t, s, max, todo, g);
    if i == pos + 1 {
      assert PageOk(t, s, max, todo, q);
    } else {
      var j := if i <= pos then i else i - 1;
      assert ChildOk(t, s, todo, g, j) && KeyOk(t, s, max, todo, g, j);
    }
  }

  lemma AdoptOtherChild(t: Tree, s: Shape, max: nat, p: int, q: int, g: int, pos: int, c: int, i: int)
    requires AdoptPre(t, s, max, p, q, g, pos)
    requires c in t.pages && c != g && !t.pages[c].isLeaf && 0 <= i < |t.pages[c].rids|
    requires Domain(Adopted(t, s, max, p, q, g, pos), s, AdoptTodo(t, max, g))
    ensures ChildOk(Adopted(t, s, max, p, q, g, pos), s, AdoptTodo(t, max, g), c, i)
    ensures KeyOk(Adopted(t, s, max, p, q, g, pos), s, max, AdoptTodo(t, max, g), c, i)
  {
    var todo := Halves(p, q);
    assert PageOk(t, s, max, todo, c);
    assert ChildOk(t, s, todo, c, i) && KeyOk(t, s, max, todo, c, i);
  }

  lemma AdoptParent(t: Tree, s: Shape, max: nat, p: int, q: int, g: int, pos: int, c: int)
    requires AdoptPre(t, s, max, p, q, g, pos) && c in t.pages && g != q
    ensures ParentOk(Adopted(t, s, max, p, q, g, pos), AdoptTodo(t, max, g), c)
  {
    var t' := Adopted(t, s, max, p, q, g, pos);
    assert t'.pages[g].rids[pos + 1].pageNo == q;
    assert PageOk(t, s, max, Halves(p, q), c);
    if c != t.root && c != q {
      var h := t.pages[c].parent;
      var i :| 0 <= i < |t.pages[h].rids| && t.pages[h].rids[i].pageNo == c;
      assert t'.pages[h].rids[if h == g && i > pos then i + 1 else i].pageNo == c;
    }
  }

  lemma AdoptSelf(t: Tree, s: Shape, max: nat, p: int, q: int, g: int, pos: int)
    requires AdoptPre(t, s, max, p, q, g, pos) && g != q
    requires Domain(Adopted(t, s, max, p, q, g, pos), s, AdoptTodo(t, max, g))
    ensures PageOk(Adopted(t, s, max, p, q, g, pos), s, max, AdoptTodo(t, max, g), g)
  {
    var t', todo := Adopted(t, s, max, p, q, g, pos), AdoptTodo(t, max, g);
    assert PageOk(t, s, max, Halves(p, q), g);
    AdoptSorted(t, s, max, p, q, g, pos);
    AdoptParent(t, s, max, p, q, g, pos, g);
    forall i | 0 <= i < |t'.pages[g].rids|
      ensures ChildOk(t', s, todo, g, i) && KeyOk(t', s, max, todo, g, i)
    {
      if i == pos + 1 {
        AdoptNewChild(t, s, max, p, q, g, pos);
      } else {
        AdoptOwnChild(t, s, max, p, q, g, pos, i);
      }
      AdoptOwnKey(t, s, max, p, q, g, pos, i);
    }
    forall j | 0 <= j < |t.pages[g].rids|
      ensures t.pages[g].rids[j].pageNo != q
    {
      assert ChildOk(t, s, Halves(p, q), g, j);
    }
  }

  lemma AdoptPage(t: Tree, s: Shape, max: nat, p: int, q: int, g: int, pos: int, c: int)
    requires AdoptPre(t, s, max, p, q, g, pos) && c in t.pages && c != g && g != q
    requires Domain(Adopted(t, s, max, p, q, g, pos), s, AdoptTodo(t, max, g))
    ensures PageOk(Adopted(t, s, max, p, q, g, pos), s, max, AdoptTodo(t, max, g), c)
  {
    var t', todo := Adopted(t, s, max, p, q, g, pos), AdoptTodo(t, max, g);
    AdoptDomain(t, s, max, p, q, g, pos);
    assert PageOk(t, s, max, Halves(p, q), c);
    AdoptParent(t, s, max, p, q, g, pos, c);
    if !t.pages[c].isLeaf {
      forall i | 0 <= i < |t'.pages[c].rids|
        ensures ChildOk(t', s, todo, c, i) && KeyOk(t', s, max, todo, c, i)
      {
        AdoptOtherChild(t, s, max, p, q, g, pos, c, i);
      }
    }
  }

  lemma AdoptStep(t: Tree, s: Shape, max: nat, p: int, q: int, g: int, pos: int)
    requires AdoptPre(t, s, max, p, q, g, pos)
    ensures Inv(Adopted(t, s, max, p, q, g, pos), s, max, AdoptTodo(t, max, g))
  {
    var t', todo := Adopted(t, s, max, p, q, g, pos), AdoptTodo(t, max, g);
    AdoptDomain(t, s, max, p, q, g, pos);
    AdoptSelf(t, s, max, p, q, g, pos);
    forall c | c in t'.pages
      ensures PageOk(t', s, max, todo, c)
    {
      if c != g {
        AdoptPage(t, s, max, p, q, g, pos, c);
      }
    }
  }
}
