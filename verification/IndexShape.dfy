/**
 The invariant of the B+ tree, stated page by page.

 Every page covers a run of leaves. `info[p].first` names the first leaf below page `p` and
 `info[p].after` the leaf that follows the last one (the leaf header page when there is none),
 so a cut between two leaves is named by the leaf on its right. `sep` gives the key at each
 cut; there is none at the first leaf, whose lower end is open.
 */
module IndexShape {
  import opened Common
  import opened IndexNode

  datatype Tree = Tree(pages: map<int, Node>, root: int, last: int)

  datatype Info = Info(first: int, after: int, height: nat)

  datatype Shape = Shape(info: map<int, Info>, sep: map<int, int>, leaves: seq<int>)

  const FIRST := INIT_ROOT_PAGE
  const END := LEAF_HEADER_PAGE

  /** What an operation in progress has left unfinished.
      `over` is a page that has just filled up; `dirty` is a page whose first key has changed
      and whose parent has not been told; `left`/`right` are the two halves of a split page of
      which the parent knows only the first. */
  datatype Todo = Todo(over: int, dirty: int, left: int, right: int)

  const DONE := Todo(NO_PAGE, NO_PAGE, NO_PAGE, NO_PAGE)

  ghost predicate AtLeast(s: Shape, cut: int, key: int) {
    cut == FIRST || (cut in s.sep && s.sep[cut] <= key)
  }

  ghost predicate Below(s: Shape, cut: int, key: int) {
    cut == END || (cut in s.sep && key < s.sep[cut])
  }

  ghost predicate HasChild(n: Node, child: int) {
    exists i :: 0 <= i < |n.rids| && n.rids[i].pageNo == child
  }

  ghost predicate IsLeaf(t: Tree, p: int) {
    p in t.pages && t.pages[p].isLeaf
  }

  /** The end of the run of leaves that the parent of `p` believes `p` to cover. */
  ghost function Reach(s: Shape, p: int, todo: Todo): int
    requires p in s.info && (p == todo.left ==> todo.right in s.info)
  {
    if p == todo.left then s.info[todo.right].after else s.info[p].after
  }

  ghost predicate Domain(t: Tree, s: Shape, todo: Todo) {
    && s.info.Keys == t.pages.Keys
    && t.root in t.pages && IsLeaf(t, FIRST)
    && (forall p :: p in t.pages ==> 2 <= p)
    && (todo.left == NO_PAGE <==> todo.right == NO_PAGE)
    && (todo.left != NO_PAGE ==>
          && todo.left in t.pages && todo.right in t.pages && todo.left != todo.right
          && todo.right != t.root
          && s.info[todo.left].height == s.info[todo.right].height
          && s.info[todo.left].after == s.info[todo.right].first
          && |t.pages[todo.right].keys| > 0 && |t.pages[todo.left].keys| > 0)
  }

  ghost predicate RootOk(t: Tree, s: Shape, todo: Todo)
    requires Domain(t, s, todo)
  {
    && t.pages[t.root].parent == NO_PAGE
    && s.info[t.root].first == FIRST
    && Reach(s, t.root, todo) == END
  }

  /** Sizes, order, and the position of the page in the run of leaves. */
  ghost predicate NodeOk(t: Tree, s: Shape, max: nat, over: int, p: int)
    requires p in t.pages && p in s.info
  {
    var n := t.pages[p];
    && |n.keys| == |n.rids|
    && Sorted(n.keys)
    && (|n.keys| < max || (p == over && |n.keys| == max))
    && IsLeaf(t, s.info[p].first)
    && (s.info[p].after == END || (IsLeaf(t, s.info[p].after) && s.info[p].after != FIRST))
    && (forall i :: 0 <= i < |n.keys| ==> Below(s, s.info[p].after, n.keys[i]))
    && (n.isLeaf <==> s.info[p].height == 0)
    && t.root in s.info && s.info[p].height <= s.info[t.root].height
    && (!n.isLeaf ==> |n.keys| >= 2)
  }

  ghost predicate LeafOk(t: Tree, s: Shape, p: int)
    requires p in t.pages && p in s.info
  {
    var n := t.pages[p];
    n.isLeaf ==>
      && s.info[p].first == p
      && s.info[p].after == n.nextLeaf
      && (p != FIRST ==> p in s.sep && Below(s, n.nextLeaf, s.sep[p]))
      && (forall i :: 0 <= i < |n.keys| ==> AtLeast(s, p, n.keys[i]))
      && (p != FIRST && |n.keys| > 0 ==> n.keys[0] == s.sep[p])
  }

  ghost predicate ChildOk(t: Tree, s: Shape, todo: Todo, p: int, i: int)
    requires Domain(t, s, todo) && p in t.pages && 0 <= i < |t.pages[p].rids|
  {
    var n := t.pages[p];
    var c := n.rids[i].pageNo;
    && c in t.pages && c != todo.right && t.pages[c].parent == p
    && s.info[c].height + 1 == s.info[p].height
    && (if i == 0 then s.info[c].first == s.info[p].first else s.info[c].first != FIRST)
    && (if i + 1 < |n.rids|
        then n.rids[i + 1].pageNo in s.info && Reach(s, c, todo) == s.info[n.rids[i + 1].pageNo].first
        else Reach(s, c, todo) == s.info[p].after)
  }

  ghost predicate KidsOk(t: Tree, s: Shape, todo: Todo, p: int)
    requires Domain(t, s, todo) && p in t.pages
  {
    var n := t.pages[p];
    !n.isLeaf ==>
      && (forall i {:trigger ChildOk(t, s, todo, p, i)} :: 0 <= i < |n.rids| ==> ChildOk(t, s, todo, p, i))
      && (forall i, j :: 0 <= i < j < |n.rids| ==> n.rids[i].pageNo != n.rids[j].pageNo)
  }

  /** A separator is its child's first key. An emptied leaf keeps its cut. At the first leaf the
      separator may be too high, but only while the leaf is at most half full (or, when it has
      just filled up, by a single key). */
  ghost predicate KeyFits(t: Tree, s: Shape, max: nat, key: int, c: int)
    requires c in t.pages
  {
    var n := t.pages[c];
    if !n.isLeaf then |n.keys| > 0 && key == n.keys[0]
    else if c != FIRST then c in s.sep && key == s.sep[c]
    else |n.keys| > 0 ==>
      || key == n.keys[0]
      || (key > n.keys[0] && |n.keys| <= max / 2)
      || (key > n.keys[0] && 1 < |n.keys| == max && key <= n.keys[1])
  }

  ghost predicate KeyLags(t: Tree, s: Shape, key: int, c: int)
    requires c in t.pages && c in s.info
  {
    |t.pages[c].keys| > 0 && (s.info[c].first != FIRST ==> key <= t.pages[c].keys[0])
  }

  ghost predicate KeyOk(t: Tree, s: Shape, max: nat, todo: Todo, p: int, i: int)
    requires Domain(t, s, todo) && p in t.pages && 0 <= i < |t.pages[p].rids|
  {
    var n := t.pages[p];
    var c := n.rids[i].pageNo;
    && i < |n.keys| && c in t.pages
    && (if c == todo.dirty then KeyLags(t, s, n.keys[i], c) else KeyFits(t, s, max, n.keys[i], c))
    && (c == todo.left ==> n.keys[i] < t.pages[todo.right].keys[0])
  }

  ghost predicate KeysOk(t: Tree, s: Shape, max: nat, todo: Todo, p: int)
    requires Domain(t, s, todo) && p in t.pages
  {
    var n := t.pages[p];
    !n.isLeaf ==>
      forall i {:trigger KeyOk(t, s, max, todo, p, i)} :: 0 <= i < |n.rids| ==> KeyOk(t, s, max, todo, p, i)
  }

  ghost predicate ParentOk(t: Tree, todo: Todo, p: int)
    requires p in t.pages
  {
    var q := t.pages[p].parent;
    p != t.root && p != todo.right ==>
      && q in t.pages && !t.pages[q].isLeaf && HasChild(t.pages[q], p)
  }

  ghost predicate PageOk(t: Tree, s: Shape, max: nat, todo: Todo, p: int)
    requires Domain(t, s, todo) && p in t.pages
  {
    && NodeOk(t, s, max, todo.over, p) && LeafOk(t, s, p)
    && KidsOk(t, s, todo, p) && KeysOk(t, s, max, todo, p) && ParentOk(t, todo, p)
  }

  ghost predicate PagesOk(t: Tree, s: Shape, max: nat, todo: Todo)
    requires Domain(t, s, todo)
  {
    forall p {:trigger PageOk(t, s, max, todo, p)} :: p in t.pages ==> PageOk(t, s, max, todo, p)
  }

  ghost predicate Link(t: Tree, leaves: seq<int>, i: int)
    requires 0 <= i < |leaves|
  {
    && IsLeaf(t, leaves[i]) && leaves[i] != END
    && t.pages[leaves[i]].nextLeaf == (if i + 1 < |leaves| then leaves[i + 1] else END)
    && t.pages[leaves[i]].prevLeaf == (if i > 0 then leaves[i - 1] else END)
  }

  /** The leaves, in order, are linked both ways from the first leaf to the last. */
  ghost predicate Chain(t: Tree, leaves: seq<int>) {
    && |leaves| > 0 && leaves[0] == FIRST && leaves[|leaves| - 1] == t.last
    && (forall i {:trigger Link(t, leaves, i)} :: 0 <= i < |leaves| ==> Link(t, leaves, i))
    && (forall i, j :: 0 <= i < j < |leaves| ==> leaves[i] != leaves[j])
    && (forall p :: IsLeaf(t, p) ==> p in leaves)
  }

  ghost predicate Inv(t: Tree, s: Shape, max: nat, todo: Todo) {
    && Domain(t, s, todo) && RootOk(t, s, todo) && PagesOk(t, s, max, todo) && Chain(t, s.leaves)
  }

  /** The entries of the leaves are exactly the entries of the map. */
  ghost predicate Holds(t: Tree, contents: map<int, Rid>) {
    && (forall p, i :: IsLeaf(t, p) && 0 <= i < |t.pages[p].keys| && i < |t.pages[p].rids| ==>
          t.pages[p].keys[i] in contents && contents[t.pages[p].keys[i]] == t.pages[p].rids[i])
    && (forall k :: k in contents ==> exists p :: IsLeaf(t, p) && k in t.pages[p].keys)
  }

  /** Leaf `p` is where `key` belongs. */
  ghost predicate Covers(t: Tree, s: Shape, p: int, key: int) {
    IsLeaf(t, p) && AtLeast(s, p, key) && Below(s, t.pages[p].nextLeaf, key)
  }

  lemma NodeFacts(t: Tree, s: Shape, max: nat, todo: Todo, p: int)
    requires Inv(t, s, max, todo) && p in t.pages
    ensures Sorted(t.pages[p].keys) && |t.pages[p].keys| == |t.pages[p].rids|
    ensures |t.pages[p].keys| < max || (p == todo.over && |t.pages[p].keys| == max)
    ensures p in s.info && s.info[p].height <= s.info[t.root].height
  {
    assert PageOk(t, s, max, todo, p);
  }

  /** A page other than the root has a parent that lists it. */
  lemma ParentFacts(t: Tree, s: Shape, max: nat, todo: Todo, p: int)
    requires Inv(t, s, max, todo) && p in t.pages && p != todo.right
    ensures p == t.root <==> t.pages[p].parent == NO_PAGE
    ensures p != t.root ==>
      var q := t.pages[p].parent;
      && q in t.pages && !t.pages[q].isLeaf && HasChild(t.pages[q], p)
      && |t.pages[q].keys| == |t.pages[q].rids|
      && (|t.pages[q].keys| < max || (q == todo.over && |t.pages[q].keys| == max))
      && p in s.info && q in s.info && s.info[q].height == s.info[p].height + 1 <= s.info[t.root].height
  {
    assert PageOk(t, s, max, todo, p);
    if p != t.root {
      var q := t.pages[p].parent;
      assert PageOk(t, s, max, todo, q);
      var i :| 0 <= i < |t.pages[q].rids| && t.pages[q].rids[i].pageNo == p;
      assert ChildOk(t, s, todo, q, i);
    }
  }

  // ---------------------------------------------------------------- routing

  /** Below a finished part of the tree, an inner node's first key is the key at its cut. */
  lemma {:induction false} FirstKeyIsCut(t: Tree, s: Shape, max: nat, todo: Todo, p: int)
    requires Inv(t, s, max, todo)
    requires p in t.pages && |t.pages[p].keys| > 0 && s.info[p].first != FIRST
    requires todo.dirty in t.pages ==> s.info[p].height <= s.info[todo.dirty].height
    ensures s.info[p].first in s.sep && t.pages[p].keys[0] == s.sep[s.info[p].first]
    decreases s.info[p].height
  {
    assert PageOk(t, s, max, todo, p);
    if !t.pages[p].isLeaf {
      assert ChildOk(t, s, todo, p, 0) && KeyOk(t, s, max, todo, p, 0);
      var c := t.pages[p].rids[0].pageNo;
      assert PageOk(t, s, max, todo, c);
      if !t.pages[c].isLeaf {
        FirstKeyIsCut(t, s, max, todo, c);
      }
    }
  }

  lemma SeparatorIsCut(t: Tree, s: Shape, max: nat, todo: Todo, p: int, i: int)
    requires Inv(t, s, max, todo)
    requires p in t.pages && !t.pages[p].isLeaf && 0 < i < |t.pages[p].rids|
    requires t.pages[p].rids[i].pageNo != todo.dirty
    requires todo.dirty in t.pages ==> s.info[p].height <= s.info[todo.dirty].height + 1
    ensures
      var n := t.pages[p];
      var c := n.rids[i].pageNo;
      && c in s.info && s.info[c].first in s.sep
      && |n.keys| == |n.rids| && n.keys[i] == s.sep[s.info[c].first]
  {
    assert PageOk(t, s, max, todo, p) && ChildOk(t, s, todo, p, i) && KeyOk(t, s, max, todo, p, i);
    var c := t.pages[p].rids[i].pageNo;
    assert PageOk(t, s, max, todo, c);
    if !t.pages[c].isLeaf {
      FirstKeyIsCut(t, s, max, todo, c);
    }
  }

  // ---------------------------------------------------------------- the order of the leaves

  /** The cuts increase along the leaves. */
  ghost predicate Ordered(s: Shape) {
    && (forall i {:trigger s.leaves[i]} :: 0 < i < |s.leaves| ==> s.leaves[i] in s.sep)
    && (forall i, j :: 0 < i < j < |s.leaves| ==> s.sep[s.leaves[i]] < s.sep[s.leaves[j]])
  }

  lemma {:induction false} CutsIncrease(t: Tree, s: Shape, max: nat, i: int, j: int)
    requires Inv(t, s, max, DONE)
    requires 0 < i <= j < |s.leaves|
    ensures s.leaves[i] in s.sep && s.leaves[j] in s.sep
    ensures s.sep[s.leaves[i]] <= s.sep[s.leaves[j]]
    ensures i < j ==> s.sep[s.leaves[i]] < s.sep[s.leaves[j]]
    decreases j - i
  {
    assert Link(t, s.leaves, i) && s.leaves[i] != s.leaves[0];
    assert PageOk(t, s, max, DONE, s.leaves[i]);
    if i < j {
      assert Link(t, s.leaves, i + 1);
      CutsIncrease(t, s, max, i + 1, j);
    }
  }

  lemma LeavesAreOrdered(t: Tree, s: Shape, max: nat)
    requires Inv(t, s, max, DONE)
    ensures Ordered(s)
  {
    forall i, j | 0 < i <= j < |s.leaves|
      ensures s.leaves[i] in s.sep && s.leaves[j] in s.sep
      ensures i < j ==> s.sep[s.leaves[i]] < s.sep[s.leaves[j]]
    {
      CutsIncrease(t, s, max, i, j);
    }
  }

  lemma CoverIsUnique(t: Tree, s: Shape, p: int, q: int, key: int)
    requires Chain(t, s.leaves) && Ordered(s)
    requires Covers(t, s, p, key) && Covers(t, s, q, key)
    ensures p == q
  {
    var i :| 0 <= i < |s.leaves| && s.leaves[i] == p;
    var j :| 0 <= j < |s.leaves| && s.leaves[j] == q;
    assert Link(t, s.leaves, i) && Link(t, s.leaves, j);
    assert i + 1 < |s.leaves| ==> Link(t, s.leaves, i + 1);
    assert j + 1 < |s.leaves| ==> Link(t, s.leaves, j + 1);
  }

  lemma EntryIsCovered(t: Tree, s: Shape, max: nat, p: int, i: int)
    requires Inv(t, s, max, DONE)
    requires IsLeaf(t, p) && 0 <= i < |t.pages[p].keys|
    ensures Covers(t, s, p, t.pages[p].keys[i])
  {
    assert PageOk(t, s, max, DONE, p);
  }

  /** The leaf that covers a key answers for the whole map. */
  lemma CoverAnswers(t: Tree, s: Shape, max: nat, contents: map<int, Rid>, p: int, key: int)
    requires Inv(t, s, max, DONE) && Holds(t, contents)
    requires Covers(t, s, p, key)
    ensures key in contents <==> key in t.pages[p].keys
  {
    assert PageOk(t, s, max, DONE, p);
    if key in contents {
      var q :| IsLeaf(t, q) && key in t.pages[q].keys;
      var i :| 0 <= i < |t.pages[q].keys| && t.pages[q].keys[i] == key;
      EntryIsCovered(t, s, max, q, i);
      LeavesAreOrdered(t, s, max);
      CoverIsUnique(t, s, p, q, key);
    }
  }
}
