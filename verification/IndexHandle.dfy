/**
 The unique B+ tree index: search, insertion with recursive splits, and deletion without merging.
 */
module IndexHandle {
  import opened Common
  import opened IndexNode
  import opened IndexShape
  import opened IndexSteps
  import opened IndexSplit
  import opened IndexGrow
  import opened IndexContents
  import opened IndexOrder
  import opened PinLedger

  datatype Lookup = Missing | Found(rid: Rid)

  datatype InsertOutcome = Duplicate | Inserted(pageNo: int)

  // ---------------------------------------------------------------- the index

  class IxIndexHandle {
    const order: nat
    const pool: Ledger
    var pages: map<int, Node>
    var root: int
    var firstLeaf: int
    var lastLeaf: int
    var numPages: int
    var nextPage: int
    ghost var shape: Shape
    ghost var contents: map<int, Rid>

    function MaxSize(): nat { order + 1 }

    function View(): Tree
      reads this
    {
      Tree(pages, root, lastLeaf)
    }

    /** The invariant, up to what the operation in progress has still to do. */
    ghost predicate Working(todo: Todo)
      reads this
    {
      && firstLeaf == FIRST && INIT_NUM_PAGES <= numPages <= nextPage
      && Sound(View(), shape, MaxSize(), todo, contents, nextPage)
    }

    ghost predicate Valid()
      reads this
    {
      Working(DONE)
    }

    /** A new index: one empty leaf, which is also the root. */
    constructor (order: nat, filePages: int)
      requires 3 <= order
      ensures Valid() && contents == map[] && this.order == order && fresh(pool)
    {
      this.order := order;
      pool := new Ledger();
      var leaf := Node(true, NO_PAGE, LEAF_HEADER_PAGE, LEAF_HEADER_PAGE, [], []);
      pages := map[INIT_ROOT_PAGE := leaf];
      root, firstLeaf, lastLeaf := INIT_ROOT_PAGE, INIT_ROOT_PAGE, INIT_ROOT_PAGE;
      numPages := INIT_NUM_PAGES;
      nextPage := if filePages < INIT_NUM_PAGES then INIT_NUM_PAGES else filePages;
      contents := map[];
      shape := Shape(map[FIRST := Info(FIRST, END, 0)], map[], [FIRST]);
      new;
      assert Link(View(), shape.leaves, 0);
      assert PageOk(View(), shape, MaxSize(), DONE, FIRST);
    }

    /** Descends from the root to the leaf where `key` belongs, and leaves that leaf pinned. */
    method FindLeafPage(key: int) returns (p: int)
      requires Valid()
      modifies pool
      ensures Covers(View(), shape, p, key)
      ensures pool.pins == old(pool.pins) + multiset{p} && pool.dirty == old(pool.dirty)
    {
      p := root;
      pool.Pin(p);
      assert PageOk(View(), shape, MaxSize(), DONE, p);
      while !pages[p].isLeaf
        invariant p in pages && p in shape.info
        invariant NodeOk(View(), shape, MaxSize(), NO_PAGE, p)
        invariant AtLeast(shape, shape.info[p].first, key)
        invariant Below(shape, shape.info[p].after, key)
        invariant pool.pins == old(pool.pins) + multiset{p} && pool.dirty == old(pool.dirty)
        decreases shape.info[p].height
      {
        var pos := InternalLookup(pages[p].keys, key);
        assert PageOk(View(), shape, MaxSize(), DONE, p);
        assert ChildOk(View(), shape, DONE, p, pos);
        if pos > 0 {
          SeparatorIsCut(View(), shape, MaxSize(), DONE, p, pos);
        }
        if pos + 1 < |pages[p].keys| {
          SeparatorIsCut(View(), shape, MaxSize(), DONE, p, pos + 1);
        }
        var child := pages[p].rids[pos].pageNo;
        pool.Unpin(p, false, old(pool.pins));
        p := child;
        pool.Pin(p);
        assert PageOk(View(), shape, MaxSize(), DONE, p);
      }
      assert PageOk(View(), shape, MaxSize(), DONE, p);
    }

    /** The lookup answers as the map does. */
    method GetValue(key: int) returns (r: Lookup)
      requires Valid()
      modifies pool
      ensures r == if key in contents then Found(contents[key]) else Missing
      ensures pool.pins == old(pool.pins) && pool.dirty == old(pool.dirty)
    {
      var leaf := FindLeafPage(key);
      assert PageOk(View(), shape, MaxSize(), DONE, leaf);
      CoverAnswers(View(), shape, MaxSize(), contents, leaf, key);
      var pos := LowerBound(pages[leaf].keys, key);
      if pos < |pages[leaf].keys| && pages[leaf].keys[pos] == key {
        r := Found(pages[leaf].rids[pos]);
      } else {
        r := Missing;
      }
      pool.Unpin(leaf, false, old(pool.pins));
    }

    /** Carries a page's new first key to its ancestors' separators, as far as it reaches. On the way up it
        goes on reading the page that it has just given back: that page, and no other, is read unpinned. */
    method MaintainParent(node: int)
      requires Working(Dirty(node)) && node in pages && |pages[node].keys| > 0 && node in pool.pins
      modifies this`pages, pool
      ensures Valid()
      ensures pool.pins == old(pool.pins)
      ensures Owes(old(pages), old(pool.dirty), pages, pool.dirty, {})
    {
      hide Owes, Holds;
      ghost var was, log := pages, pool.dirty;
      OwesNothing(was, log, {});
      var curr := node;
      while pages[curr].parent != NO_PAGE
        invariant Working(Dirty(curr)) && curr in pages && |pages[curr].keys| > 0
        invariant pool.pins == old(pool.pins)
        invariant Owes(was, log, pages, pool.dirty, {})
        invariant curr in pool.pins || (pool.dirty != [] && pool.dirty[|pool.dirty| - 1] == curr)
        decreases shape.info[root].height - shape.info[curr].height
      {
        var p := pages[curr].parent;
        pool.Pin(p);
        ParentFacts(View(), shape, MaxSize(), Dirty(curr), curr);
        var rank := FindChild(pages[p].rids, curr);
        if pages[p].keys[rank] == pages[curr].keys[0] {
          pool.Unpin(p, false, old(pool.pins));
          break;
        }
        RaiseSound(View(), shape, MaxSize(), curr, p, rank, contents, nextPage);
        OwesPage(was, log, pages, pool.dirty, {}, p, RaiseKey(pages[p], rank, pages[curr].keys[0]));
        pages := pages[p := RaiseKey(pages[p], rank, pages[curr].keys[0])];
        pool.Unpin(p, true, old(pool.pins));
        curr := p;
      }
      Settle(View(), shape, MaxSize(), curr);
    }

    /** A page of its own for a new node, pinned. */
    method CreateNode() returns (p: int)
      requires numPages <= nextPage
      modifies this`numPages, this`nextPage, pool`pins
      ensures pool.pins == old(pool.pins) + multiset{p}
      ensures p == old(nextPage) && nextPage == p + 1 && numPages == old(numPages) + 1
    {
      numPages := numPages + 1;
      p := nextPage;
      nextPage := nextPage + 1;
      pool.Pin(p);
    }

    /** Points the children of `q` back at it. */
    method MaintainChildren(q: int)
      requires q in pages && q in pool.pins
      requires forall i :: 0 <= i < |pages[q].rids| ==> pages[q].rids[i].pageNo in pages
      requires forall i :: 0 <= i < |pages[q].rids| ==> pages[q].rids[i].pageNo != q
      modifies this`pages, pool
      ensures pool.pins == old(pool.pins)
      ensures Owes(old(pages), old(pool.dirty), pages, pool.dirty, {})
      ensures pages.Keys == old(pages).Keys && pages[q] == old(pages)[q]
      ensures forall r :: r in pages ==>
        pages[r] == if HasChild(pages[q], r) then old(pages)[r].(parent := q) else old(pages)[r]
    {
      hide Owes;
      ghost var was, log := pages, pool.dirty;
      OwesNothing(was, log, {});
      var rids := pages[q].rids;
      for i := 0 to |rids|
        invariant pool.pins == old(pool.pins)
        invariant Owes(was, log, pages, pool.dirty, {})
        invariant pages.Keys == old(pages).Keys && pages[q] == old(pages)[q]
        invariant forall r :: r in pages ==>
          pages[r] == if exists j :: 0 <= j < i && rids[j].pageNo == r then old(pages)[r].(parent := q)
                      else old(pages)[r]
      {
        var child := rids[i].pageNo;
        pool.Pin(child);
        OwesPage(was, log, pages, pool.dirty, {}, child, pages[child].(parent := q));
        pages := pages[child := pages[child].(parent := q)];
        pool.Unpin(child, true, old(pool.pins));
      }
    }

    /** Moves the second half of leaf `p` to page `q` and links it in after `p`. */
    method MoveHalfLeaf(p: int, q: int)
      requires p in pages && q !in pages && |pages[p].keys| == |pages[p].rids| && pages[p].isLeaf
      requires p in pool.pins && q in pool.pins
      requires pages[p].nextLeaf == LEAF_HEADER_PAGE || (pages[p].nextLeaf in pages && pages[p].nextLeaf != p)
      modifies this`pages, this`lastLeaf, pool
      ensures View() == SplitLeafTree(old(View()), p, q)
      ensures pool.pins == old(pool.pins)
      ensures Owes(old(pages), old(pool.dirty), pages, pool.dirty, {p, q})
    {
      hide SplitLeafPages, Owes;
      ghost var was, log, owed := pages, pool.dirty, {p, q};
      OwesNothing(was, log, owed);
      LeafHalvesMoved(pages, p, q);
      var n := pages[p];
      var half := |n.keys| / 2;
      OwesWrite(was, log, pages, log, owed, q, Node(true, n.parent, p, n.nextLeaf, n.keys[half..], n.rids[half..]));
      pages := pages[q := Node(true, n.parent, p, n.nextLeaf, n.keys[half..], n.rids[half..])];
      OwesWrite(was, log, pages, log, owed, p, n.(keys := n.keys[..half], rids := n.rids[..half]));
      pages := pages[p := n.(keys := n.keys[..half], rids := n.rids[..half])];
      if n.nextLeaf != LEAF_HEADER_PAGE {
        pool.Pin(n.nextLeaf);
        OwesPage(was, log, pages, log, owed, n.nextLeaf, pages[n.nextLeaf].(prevLeaf := q));
        pages := pages[n.nextLeaf := pages[n.nextLeaf].(prevLeaf := q)];
        pool.Unpin(n.nextLeaf, true, old(pool.pins));
      }
      OwesWrite(was, log, pages, pool.dirty, owed, p, pages[p].(nextLeaf := q));
      pages := pages[p := pages[p].(nextLeaf := q)];
      if lastLeaf == p {
        lastLeaf := q;
      }
    }

    /** Moves the second half of a full leaf to a new leaf. */
    method SplitLeaf(p: int) returns (q: int)
      requires Working(Over(p)) && IsLeaf(View(), p) && |pages[p].keys| == MaxSize() && p in pool.pins
      modifies this`pages, this`lastLeaf, this`numPages, this`nextPage, this`shape, pool
      ensures Working(Halves(p, q)) && q in pages
      ensures pool.pins == old(pool.pins) + multiset{q}
      ensures Owes(old(pages), old(pool.dirty), pages, pool.dirty, {p, q})
      ensures shape.info == old(shape.info)[p := shape.info[p]][q := shape.info[q]]
      ensures p in shape.info && shape.info[p].height == old(shape.info)[p].height
      ensures p in pages && |pages[p].keys| == MaxSize() / 2 && |pages[q].keys| == MaxSize() - MaxSize() / 2
    {
      hide Owes, Holds;
      ghost var t, s, max := View(), shape, MaxSize();
      NodeFacts(t, s, max, Over(p), p);
      ghost var at := LeafPlace(t, s.leaves, p);
      q := CreateNode();
      SplitLeafSound(t, s, max, p, q, at, contents);
      MoveHalfLeaf(p, q);
      shape := SplitLeafShape(t, s, p, q, at);
    }

    /** Moves the second half of inner page `p`, and the children that go with it, to page `q`. */
    method MoveHalfInner(p: int, q: int)
      requires p in pages && q !in pages && |pages[p].keys| == |pages[p].rids| && !pages[p].isLeaf
      requires p in pool.pins && q in pool.pins
      requires forall i :: 0 <= i < |pages[p].rids| ==> pages[p].rids[i].pageNo in pages
      modifies this`pages, pool
      ensures pool.pins == old(pool.pins)
      ensures Owes(old(pages), old(pool.dirty), pages, pool.dirty, {p, q})
      ensures
        var split := SplitInnerPages(old(pages), p, q);
        && pages.Keys == split.Keys
        && forall r :: r in split ==>
             pages[r] == if HasChild(split[q], r) then split[r].(parent := q) else split[r]
    {
      hide Owes;
      ghost var was, log := pages, pool.dirty;
      var n := pages[p];
      var half := |n.keys| / 2;
      OwesNothing(was, log, {p, q});
      OwesWrite(was, log, pages, log, {p, q}, q, Node(false, n.parent, 0, 0, n.keys[half..], n.rids[half..]));
      pages := pages[q := Node(false, n.parent, 0, 0, n.keys[half..], n.rids[half..])];
      OwesWrite(was, log, pages, log, {p, q}, p, n.(keys := n.keys[..half], rids := n.rids[..half]));
      pages := pages[p := n.(keys := n.keys[..half], rids := n.rids[..half])];
      assert pages == SplitInnerPages(old(pages), p, q);
      ghost var split := pages;
      MaintainChildren(q);
      OwesTogether(was, log, split, log, pages, pool.dirty, {p, q}, {}, {p, q});
    }

    /** Moves the second half of a full inner page to a new page. */
    method SplitInner(p: int) returns (q: int)
      requires Working(Over(p)) && p in pages && !pages[p].isLeaf && |pages[p].keys| == MaxSize() && p in pool.pins
      modifies this`pages, this`numPages, this`nextPage, this`shape, pool
      ensures Working(Halves(p, q)) && q in pages
      ensures pool.pins == old(pool.pins) + multiset{q}
      ensures Owes(old(pages), old(pool.dirty), pages, pool.dirty, {p, q})
      ensures shape.info == old(shape.info)[p := shape.info[p]][q := shape.info[q]]
      ensures p in shape.info && shape.info[p].height == old(shape.info)[p].height
      ensures p in pages && |pages[p].keys| == MaxSize() / 2 && |pages[q].keys| == MaxSize() - MaxSize() / 2
    {
      hide Owes, Holds, Chain;
      ghost var t, s, max := View(), shape, MaxSize();
      NodeFacts(t, s, max, Over(p), p);
      q := CreateNode();
      SplitInnerKids(t, s, max, p, q);
      MoveHalfInner(p, q);
      SplitInnerRepointed(t, View(), s, max, p, q);
      SplitInnerSound(t, View(), s, max, p, q, contents);
      shape := SplitInnerShape(t, s, max, p, q);
    }

    method Split(p: int) returns (q: int)
      requires Working(Over(p)) && p in pages && |pages[p].keys| == MaxSize() && p in pool.pins
      modifies this`pages, this`lastLeaf, this`numPages, this`nextPage, this`shape, pool
      ensures Working(Halves(p, q)) && q in pages
      ensures pool.pins == old(pool.pins) + multiset{q}
      ensures Owes(old(pages), old(pool.dirty), pages, pool.dirty, {p, q})
      ensures shape.info == old(shape.info)[p := shape.info[p]][q := shape.info[q]]
      ensures p in shape.info && shape.info[p].height == old(shape.info)[p].height
      ensures p in pages && |pages[p].keys| == MaxSize() / 2 && |pages[q].keys| == MaxSize() - MaxSize() / 2
    {
      if pages[p].isLeaf {
        q := SplitLeaf(p);
      } else {
        q := SplitInner(p);
      }
    }

    /** Puts a new root above the two halves of the old one. */
    method GrowRoot(p: int, q: int)
      requires Working(Halves(p, q)) && p == root && p in pages && q in pages && p in pool.pins && q in pool.pins
      modifies this`pages, this`root, this`numPages, this`nextPage, this`shape, pool
      ensures Valid()
      ensures pool.pins == old(pool.pins)
      ensures Owes(old(pages), old(pool.dirty), pages, pool.dirty, {p, q})
    {
      hide Owes, Holds;
      ghost var was, log, owed := pages, pool.dirty, {p, q};
      NewRootSound(View(), shape, MaxSize(), p, q, nextPage, contents);
      var r := CreateNode();
      var left, right := pages[p], pages[q];
      OwesNothing(was, log, owed);
      OwesWrite(was, log, pages, log, owed, p, left.(parent := r));
      OwesWrite(was, log, pages[p := left.(parent := r)], log, owed, q, right.(parent := r));
      pages := pages[p := left.(parent := r)][q := right.(parent := r)];
      OwesPage(was, log, pages, log, owed, r, Node(false, NO_PAGE, NO_PAGE, NO_PAGE,
                                                   [left.keys[0], right.keys[0]], [Rid(p, -1), Rid(q, -1)]));
      pages := pages[r := Node(false, NO_PAGE, NO_PAGE, NO_PAGE,
                               [left.keys[0], right.keys[0]], [Rid(p, -1), Rid(q, -1)])];
      root := r;
      shape := NewRootShape(shape, p, r);
      pool.Unpin(r, true, old(pool.pins));
    }

    /** Enters the new half `q` of page `p` in their parent `g`. */
    method Adopt(p: int, q: int, g: int)
      requires Working(Halves(p, q)) && p in pages && q in pages && p != root && g == pages[p].parent
      requires p in pool.pins && q in pool.pins && g in pool.pins
      modifies this`pages
      ensures g in pages && |pages[g].keys| <= MaxSize()
      ensures Owes(old(pages), pool.dirty, pages, pool.dirty, {g, q})
      ensures Working(if |pages[g].keys| == MaxSize() then Over(g) else DONE)
    {
      hide Owes, Holds;
      ghost var t, log := View(), pool.dirty;
      ParentFacts(t, shape, MaxSize(), Halves(p, q), p);
      var pos := FindChild(pages[g].rids, p);
      AdoptSound(t, shape, MaxSize(), p, q, g, pos, contents, nextPage);
      AdoptDomain(t, shape, MaxSize(), p, q, g, pos);
      OwesNothing(pages, log, {g, q});
      OwesWrite(t.pages, log, pages, log, {g, q}, g, InsertPair(pages[g], pos + 1, pages[q].keys[0], Rid(q, -1)));
      pages := pages[g := InsertPair(pages[g], pos + 1, pages[q].keys[0], Rid(q, -1))];
      OwesWrite(t.pages, log, pages, log, {g, q}, q, pages[q].(parent := g));
      pages := pages[q := pages[q].(parent := g)];
      assert View() == Adopted(t, shape, MaxSize(), p, q, g, pos);
    }

    /** Enters the new half `q` of page `p` in their parent, growing the tree where it must. */
    method InsertIntoParent(p: int, q: int)
      requires Working(Halves(p, q)) && p in pages && q in pages && p in pool.pins && q in pool.pins
      modifies this`pages, this`root, this`lastLeaf, this`numPages, this`nextPage, this`shape, pool
      ensures Valid()
      ensures pool.pins == old(pool.pins)
      ensures Owes(old(pages), old(pool.dirty), pages, pool.dirty, {p, q})
      decreases shape.info[root].height - shape.info[p].height
    {
      hide Owes, Holds, PagesOk, Chain;
      ParentFacts(View(), shape, MaxSize(), Halves(p, q), p);
      ghost var was, log := pages, pool.dirty;
      if pages[p].parent == NO_PAGE {
        GrowRoot(p, q);
      } else {
        var g := pages[p].parent;
        pool.Pin(g);
        Adopt(p, q, g);
        if |pages[g].keys| >= MaxSize() {
          ghost var adopted := pages;
          var g' := Split(g);
          OwesTogether(was, log, adopted, log, pages, pool.dirty, {g, q}, {g, g'}, {g, q, g'});
          ghost var split, log' := pages, pool.dirty;
          InsertIntoParent(g, g');
          OwesTogether(was, log, split, log', pages, pool.dirty, {g, q, g'}, {g, g'}, {g, q, g'});
          OwesPaid(was, log, pages, pool.dirty, {g, q, g'}, g', {g, q});
          pool.Unpin(g', true, old(pool.pins) + multiset{g});
        }
        OwesPaid(was, log, pages, pool.dirty, {g, q}, g, {p, q});
        pool.Unpin(g, true, old(pool.pins));
      }
    }

    /** Puts a key that the index does not hold into the leaf where it belongs. */
    method InsertInLeaf(leaf: int, key: int, value: Rid)
      requires Valid() && Covers(View(), shape, leaf, key) && key !in contents && leaf in pool.pins
      modifies this`pages, this`shape, this`contents
      ensures Owes(old(pages), pool.dirty, pages, pool.dirty, {leaf})
      ensures leaf in pages && 0 < |pages[leaf].keys| <= MaxSize()
      ensures Working(if |pages[leaf].keys| == MaxSize() then Over(leaf) else Dirty(leaf))
      ensures contents == old(contents)[key := value]
    {
      hide Owes, Holds;
      NodeFacts(View(), shape, MaxSize(), DONE, leaf);
      var pos := LowerBound(pages[leaf].keys, key);
      InsertSound(View(), shape, MaxSize(), leaf, pos, key, value, contents, nextPage);
      OwesNothing(pages, pool.dirty, {leaf});
      OwesWrite(pages, pool.dirty, pages, pool.dirty, {leaf}, leaf, InsertPair(pages[leaf], pos, key, value));
      pages := pages[leaf := InsertPair(pages[leaf], pos, key, value)];
      shape := MoveCut(shape, leaf, pages[leaf].keys);
      contents := contents[key := value];
    }

    /** Inserts a key that the index does not hold yet; a key it holds is refused. */
    method InsertEntry(key: int, value: Rid) returns (r: InsertOutcome)
      requires Valid()
      modifies this, pool
      ensures Valid()
      ensures pool.pins == old(pool.pins)
      ensures Owes(old(pages), old(pool.dirty), pages, pool.dirty, {})
      ensures r.Duplicate? <==> key in old(contents)
      ensures r.Inserted? ==> Covers(old(View()), old(shape), r.pageNo, key)
      ensures contents == if r.Duplicate? then old(contents) else old(contents)[key := value]
    {
      hide Owes, Holds, PagesOk, Chain;
      ghost var was, log := pages, pool.dirty;
      OwesNothing(was, log, {});
      var existing := GetValue(key);
      if existing.Found? {
        return Duplicate;
      }
      var leaf := FindLeafPage(key);
      InsertInLeaf(leaf, key, value);
      ghost var inserted := pages;
      if |pages[leaf].keys| >= MaxSize() {
        var newLeaf := Split(leaf);
        ghost var split, log', owed := pages, pool.dirty, {leaf, newLeaf};
        OwesTogether(was, log, inserted, log, split, log', {leaf}, owed, owed);
        InsertIntoParent(leaf, newLeaf);
        OwesTogether(was, log, split, log', pages, pool.dirty, owed, owed, owed);
        OwesPaid(was, log, pages, pool.dirty, owed, newLeaf, {leaf});
        pool.Unpin(newLeaf, true, old(pool.pins) + multiset{leaf});
      } else {
        MaintainParent(leaf);
        OwesTogether(was, log, inserted, log, pages, pool.dirty, {leaf}, {}, {leaf});
      }
      OwesPaid(was, log, pages, pool.dirty, {leaf}, leaf, {});
      pool.Unpin(leaf, true, old(pool.pins));
      r := Inserted(leaf);
    }

    /** Removes a key; a leaf may be left empty, and stays where it is. */
    method DeleteEntry(key: int) returns (removed: bool)
      requires Valid()
      modifies this, pool
      ensures Valid()
      ensures pool.pins == old(pool.pins)
      ensures Owes(old(pages), old(pool.dirty), pages, pool.dirty, {})
      ensures removed <==> key in old(contents)
      ensures contents == old(contents) - {key}
    {
      hide Owes, PagesOk, Chain;
      ghost var was, log := pages, pool.dirty;
      OwesNothing(was, log, {});
      var leaf := FindLeafPage(key);
      NodeFacts(View(), shape, MaxSize(), DONE, leaf);
      CoverAnswers(View(), shape, MaxSize(), contents, leaf, key);
      var pos := LowerBound(pages[leaf].keys, key);
      removed := pos < |pages[leaf].keys| && pages[leaf].keys[pos] == key;
      if removed {
        EraseFromLeaf(leaf, pos);
        ghost var erased := pages;
        if |pages[leaf].keys| > 0 && pos == 0 {
          MaintainParent(leaf);
        }
        OwesNothing(erased, log, {});
        OwesTogether(was, log, erased, log, pages, pool.dirty, {leaf}, {}, {leaf});
        OwesPaid(was, log, pages, pool.dirty, {leaf}, leaf, {});
      }
      pool.Unpin(leaf, removed, old(pool.pins));
    }

    /** Takes the pair at `pos` out of a leaf. */
    method EraseFromLeaf(leaf: int, pos: nat)
      requires Valid() && IsLeaf(View(), leaf) && pos < |pages[leaf].keys| == |pages[leaf].rids| && leaf in pool.pins
      modifies this`pages, this`shape, this`contents
      ensures Owes(old(pages), pool.dirty, pages, pool.dirty, {leaf})
      ensures leaf in pages && |pages[leaf].keys| == |old(pages)[leaf].keys| - 1
      ensures Working(if |pages[leaf].keys| > 0 && pos == 0 then Dirty(leaf) else DONE)
      ensures contents == old(contents) - {old(pages)[leaf].keys[pos]}
    {
      hide Owes, Holds, PagesOk, Chain;
      EraseSound(View(), shape, MaxSize(), leaf, pos, contents, nextPage);
      OwesNothing(pages, pool.dirty, {leaf});
      OwesWrite(pages, pool.dirty, pages, pool.dirty, {leaf}, leaf, ErasePair(pages[leaf], pos));
      contents := contents - {pages[leaf].keys[pos]};
      pages := pages[leaf := ErasePair(pages[leaf], pos)];
      shape := MoveCut(shape, leaf, pages[leaf].keys);
    }

    // -------------------------------------------------------------- positions

    lemma HasChain()
      requires Valid()
      ensures Chain(View(), shape.leaves)
    {
    }

    /** All entries of the index, in key order. */
    ghost function Entries(): seq<Entry>
      reads this
    {
      Flat(View(), shape.leaves)
    }

    /** Moves on from the end of a leaf, over any emptied leaves, to the next entry. */
    method SkipToEntry(p: int, slot: nat, ghost at: nat, ghost n: nat, ghost rest: multiset<int>) returns (iid: Iid)
      requires Chain(View(), shape.leaves) && Walkable(View(), shape.leaves)
      requires StandsAt(View(), shape.leaves, Iid(p, slot), at, n)
      requires pool.pins == rest + multiset{p}
      modifies pool
      ensures pool.pins == rest && pool.dirty == old(pool.dirty)
      ensures Normal(View(), shape.leaves, iid) && Place(View(), shape.leaves, iid) == n
    {
      ghost var t, leaves, i := View(), shape.leaves, at;
      var leaf := p;
      iid := Iid(p, slot);
      assert Readies(t, leaves, i);
      while iid.slotNo == |pages[leaf].keys| && pages[leaf].nextLeaf != LEAF_HEADER_PAGE
        invariant i < |leaves| && Readies(t, leaves, i) && iid.pageNo == leaf == leaves[i]
        invariant StandsAt(t, leaves, iid, i, n)
        invariant pool.pins == rest + multiset{leaf} && pool.dirty == old(pool.dirty)
        decreases |leaves| - i
      {
        NextLeafStands(t, leaves, iid, i, n);
        var next := pages[leaf].nextLeaf;
        pool.Unpin(leaf, false, rest);
        leaf := next;
        pool.Pin(leaf);
        iid := Iid(leaf, 0);
        i := i + 1;
        assert Readies(t, leaves, i);
      }
      StopsNormal(t, leaves, iid, i, n);
      pool.Unpin(leaf, false, rest);
    }

    /** The position of the first entry not below `key`, or the end of the last leaf. */
    method LowerBoundOf(key: int) returns (iid: Iid)
      requires Valid()
      modifies pool
      ensures pool.pins == old(pool.pins) && pool.dirty == old(pool.dirty)
      ensures Normal(View(), shape.leaves, iid)
      ensures CutsEntries(Entries(), key, Place(View(), shape.leaves, iid))
    {
      var leaf := FindLeafPage(key);
      NodeFacts(View(), shape, MaxSize(), DONE, leaf);
      var pos := LowerBound(pages[leaf].keys, key);
      ghost var at: nat :| at < |shape.leaves| && shape.leaves[at] == leaf;
      LeafCutIsGlobal(View(), shape, MaxSize(), at, key, key, pos);
      ChainIsWalkable(View(), shape, MaxSize());
      iid := SkipToEntry(leaf, pos, at, Offset(View(), shape.leaves, at) + pos, old(pool.pins));
    }

    /** The position of the first entry above `key`, or the end of the last leaf. */
    method UpperBoundOf(key: int) returns (iid: Iid)
      requires Valid()
      modifies pool
      ensures pool.pins == old(pool.pins) && pool.dirty == old(pool.dirty)
      ensures Normal(View(), shape.leaves, iid)
      ensures CutsEntries(Entries(), key + 1, Place(View(), shape.leaves, iid))
    {
      var leaf := FindLeafPage(key);
      NodeFacts(View(), shape, MaxSize(), DONE, leaf);
      var pos := UpperBound(pages[leaf].keys, key);
      ghost var at: nat :| at < |shape.leaves| && shape.leaves[at] == leaf;
      LeafCutIsGlobal(View(), shape, MaxSize(), at, key, key + 1, pos);
      ChainIsWalkable(View(), shape, MaxSize());
      iid := SkipToEntry(leaf, pos, at, Offset(View(), shape.leaves, at) + pos, old(pool.pins));
    }

    /** The record id at a position, if there is an entry there. */
    method GetRid(iid: Iid) returns (r: Lookup)
      requires Valid() && iid.pageNo in pages && 0 <= iid.slotNo
      modifies pool
      ensures pool.pins == old(pool.pins) && pool.dirty == old(pool.dirty)
      ensures
        var es := LeafEntries(View(), iid.pageNo);
        r == if iid.slotNo < |es| then Found(es[iid.slotNo].rid) else Missing
    {
      NodeFacts(View(), shape, MaxSize(), DONE, iid.pageNo);
      pool.Pin(iid.pageNo);
      if iid.slotNo >= |pages[iid.pageNo].keys| {
        r := Missing;
      } else {
        r := Found(pages[iid.pageNo].rids[iid.slotNo]);
      }
      pool.Unpin(iid.pageNo, false, old(pool.pins));
    }
  }
}
