/**
 What the leaves hold, as a map, across each step.
 */
module IndexContents {
  import opened Common
  import opened IndexNode
  import opened IndexShape
  import opened IndexSteps
  import opened IndexSplit
  import opened IndexGrow

  /** Steps that rewrite no leaf entries keep what the index holds. */
  lemma SameEntriesHold(t: Tree, t': Tree, contents: map<int, Rid>)
    requires Holds(t, contents)
    requires forall p :: IsLeaf(t', p) <==> IsLeaf(t, p)
    requires forall p :: IsLeaf(t, p) ==>
      IsLeaf(t', p) && t'.pages[p].keys == t.pages[p].keys && t'.pages[p].rids == t.pages[p].rids
    ensures Holds(t', contents)
  {
  }

  lemma SplitLeafHolds(t: Tree, s: Shape, max: nat, p: int, q: int, at: nat, contents: map<int, Rid>)
    requires SplitLeafPre(t, s, max, p, q, at) && Holds(t, contents)
    ensures Holds(SplitLeafTree(t, p, q), contents)
  {
    var t' := SplitLeafTree(t, p, q);
    var half := |t.pages[p].keys| / 2;
    SplitLeafFrame(t, s, max, p, q, at);
    forall r, i | IsLeaf(t', r) && 0 <= i < |t'.pages[r].keys| && i < |t'.pages[r].rids|
      ensures t'.pages[r].keys[i] in contents && contents[t'.pages[r].keys[i]] == t'.pages[r].rids[i]
    {
      if r == q {
        assert t'.pages[q].keys[i] == t.pages[p].keys[half + i];
      }
    }
    forall k | k in contents
      ensures exists r :: IsLeaf(t', r) && k in t'.pages[r].keys
    {
      var r :| IsLeaf(t, r) && k in t.pages[r].keys;
      var i :| 0 <= i < |t.pages[r].keys| && t.pages[r].keys[i] == k;
      if r != p {
        assert IsLeaf(t', r) && t'.pages[r].keys[i] == k;
      } else if i < half {
        assert IsLeaf(t', p) && t'.pages[p].keys[i] == k;
      } else {
        assert IsLeaf(t', q) && t'.pages[q].keys[i - half] == k;
      }
    }
  }

  lemma InsertHolds(t: Tree, p: int, pos: nat, key: int, rid: Rid, contents: map<int, Rid>)
    requires Holds(t, contents) && IsLeaf(t, p) && key !in contents
    requires |t.pages[p].keys| == |t.pages[p].rids| && pos <= |t.pages[p].keys|
    ensures Holds(SetPage(t, p, InsertPair(t.pages[p], pos, key, rid)), contents[key := rid])
  {
    var n := InsertPair(t.pages[p], pos, key, rid);
    var t' := SetPage(t, p, n);
    var contents' := contents[key := rid];
    forall k | k in contents'
      ensures exists r :: IsLeaf(t', r) && k in t'.pages[r].keys
    {
      if k == key {
        assert IsLeaf(t', p) && n.keys[pos] == k;
      } else {
        var r :| IsLeaf(t, r) && k in t.pages[r].keys;
        var i :| 0 <= i < |t.pages[r].keys| && t.pages[r].keys[i] == k;
        assert IsLeaf(t', r) && t'.pages[r].keys[if r == p && i >= pos then i + 1 else i] == k;
      }
    }
  }

  /** A key is in one place only. */
  lemma KeyHasOnePlace(t: Tree, s: Shape, max: nat, p: int, i: int, q: int, j: int)
    requires Inv(t, s, max, DONE)
    requires IsLeaf(t, p) && 0 <= i < |t.pages[p].keys|
    requires IsLeaf(t, q) && 0 <= j < |t.pages[q].keys|
    requires t.pages[p].keys[i] == t.pages[q].keys[j]
    ensures p == q && i == j
  {
    EntryIsCovered(t, s, max, p, i);
    EntryIsCovered(t, s, max, q, j);
    LeavesAreOrdered(t, s, max);
    CoverIsUnique(t, s, p, q, t.pages[p].keys[i]);
    assert PageOk(t, s, max, DONE, p);
  }

  lemma EraseHolds(t: Tree, s: Shape, max: nat, p: int, pos: nat, contents: map<int, Rid>)
    requires Holds(t, contents) && Inv(t, s, max, DONE) && IsLeaf(t, p)
    requires |t.pages[p].keys| == |t.pages[p].rids| && pos < |t.pages[p].keys|
    ensures Holds(SetPage(t, p, ErasePair(t.pages[p], pos)), contents - {t.pages[p].keys[pos]})
  {
    var key := t.pages[p].keys[pos];
    var n := ErasePair(t.pages[p], pos);
    var t' := SetPage(t, p, n);
    forall r, i | IsLeaf(t', r) && 0 <= i < |t'.pages[r].keys| && i < |t'.pages[r].rids|
      ensures t'.pages[r].keys[i] in contents - {key} && contents[t'.pages[r].keys[i]] == t'.pages[r].rids[i]
    {
      var j := if r == p && i >= pos then i + 1 else i;
      assert t'.pages[r].keys[i] == t.pages[r].keys[j];
      if t.pages[r].keys[j] == key {
        KeyHasOnePlace(t, s, max, p, pos, r, j);
      }
    }
    forall k | k in contents - {key}
      ensures exists r :: IsLeaf(t', r) && k in t'.pages[r].keys
    {
      var r :| IsLeaf(t, r) && k in t.pages[r].keys;
      var i :| 0 <= i < |t.pages[r].keys| && t.pages[r].keys[i] == k;
      assert IsLeaf(t', r) && t'.pages[r].keys[if r == p && i > pos then i - 1 else i] == k;
    }
  }

  // ---------------------------------------------------------------- the whole invariant

  /** The tree is well formed up to `todo`, holds `contents`, and lies below the next free page. */
  ghost predicate Sound(t: Tree, s: Shape, max: nat, todo: Todo, contents: map<int, Rid>, next: int) {
    && 4 <= max && Inv(t, s, max, todo) && Holds(t, contents)
    && 2 <= next && (forall p :: p in t.pages ==> p < next)
  }

  lemma RaiseSound(t: Tree, s: Shape, max: nat, c: int, p: int, rank: int, contents: map<int, Rid>, next: int)
    requires RaisePre(t, s, max, c, p, rank) && Sound(t, s, max, Dirty(c), contents, next)
    ensures Sound(Raised(t, s, max, c, p, rank), s, max, Dirty(p), contents, next)
  {
    RaiseStep(t, s, max, c, p, rank);
    SameEntriesHold(t, Raised(t, s, max, c, p, rank), contents);
  }

  lemma SplitLeafSound(t: Tree, s: Shape, max: nat, p: int, q: int, at: nat, contents: map<int, Rid>)
    requires SplitLeafPre(t, s, max, p, q, at) && Sound(t, s, max, Over(p), contents, q)
    ensures Sound(SplitLeafTree(t, p, q), SplitLeafShape(t, s, p, q, at), max, Halves(p, q), contents, q + 1)
  {
    SplitLeafStep(t, s, max, p, q, at);
    SplitLeafFrame(t, s, max, p, q, at);
    SplitLeafHolds(t, s, max, p, q, at, contents);
  }

  lemma SplitInnerSound(t: Tree, t': Tree, s: Shape, max: nat, p: int, q: int, contents: map<int, Rid>)
    requires SplitInnerPre(t, t', s, max, p, q) && Sound(t, s, max, Over(p), contents, q)
    ensures Sound(t', SplitInnerShape(t, s, max, p, q), max, Halves(p, q), contents, q + 1)
  {
    SplitInnerStep(t, t', s, max, p, q);
    SplitInnerDomain(t, t', s, max, p, q);
    SameEntriesHold(t, t', contents);
  }

  lemma NewRootSound(t: Tree, s: Shape, max: nat, p: int, q: int, r: int, contents: map<int, Rid>)
    requires NewRootPre(t, s, max, p, q, r) && Sound(t, s, max, Halves(p, q), contents, r)
    ensures Sound(NewRootTree(t, p, q, r), NewRootShape(s, p, r), max, DONE, contents, r + 1)
  {
    NewRootStep(t, s, max, p, q, r);
    NewRootDomain(t, s, max, p, q, r);
    SameEntriesHold(t, NewRootTree(t, p, q, r), contents);
  }

  lemma AdoptSound(t: Tree, s: Shape, max: nat, p: int, q: int, g: int, pos: int,
                   contents: map<int, Rid>, next: int)
    requires AdoptPre(t, s, max, p, q, g, pos) && Sound(t, s, max, Halves(p, q), contents, next)
    ensures Sound(Adopted(t, s, max, p, q, g, pos), s, max, AdoptTodo(t, max, g), contents, next)
  {
    AdoptStep(t, s, max, p, q, g, pos);
    AdoptDomain(t, s, max, p, q, g, pos);
    SameEntriesHold(t, Adopted(t, s, max, p, q, g, pos), contents);
  }

  /** What is left to do after `key` enters leaf `p`. */
  ghost function InsertTodo(t: Tree, max: nat, p: int): Todo
    requires p in t.pages
  {
    if |t.pages[p].keys| + 1 == max then Over(p) else Dirty(p)
  }

  lemma InsertSorted(keys: seq<int>, pos: nat, key: int)
    requires Sorted(keys) && SplitsBelow(keys, key, pos) && key !in keys
    ensures Sorted(InsertAt(keys, pos, key))
  {
  }

  /** A key that fills a leaf leaves its separator within one key of the leaf's first. */
  lemma FullLeafKeepsSeparator(t: Tree, s: Shape, max: nat, p: int, pos: nat, key: int)
    requires 4 <= max && Inv(t, s, max, DONE) && Covers(t, s, p, key) && key !in t.pages[p].keys
    requires SplitsBelow(t.pages[p].keys, key, pos) && |t.pages[p].keys| + 1 == max
    ensures KeepsSeparator(t.pages[p].keys, InsertAt(t.pages[p].keys, pos, key), p, max)
  {
    assert PageOk(t, s, max, DONE, p);
    assert t.pages[p].keys[0] in t.pages[p].keys;
  }

  lemma InsertFits(t: Tree, s: Shape, max: nat, p: int, pos: nat, key: int, rid: Rid)
    requires 4 <= max && Inv(t, s, max, DONE) && Covers(t, s, p, key) && key !in t.pages[p].keys
    requires |t.pages[p].keys| == |t.pages[p].rids| && SplitsBelow(t.pages[p].keys, key, pos)
    ensures LeafStepPre(t, s, max, p, InsertPair(t.pages[p], pos, key, rid), InsertTodo(t, max, p))
  {
    assert PageOk(t, s, max, DONE, p);
    InsertSorted(t.pages[p].keys, pos, key);
    if |t.pages[p].keys| + 1 == max {
      FullLeafKeepsSeparator(t, s, max, p, pos, key);
    }
  }

  lemma InsertSound(t: Tree, s: Shape, max: nat, p: int, pos: nat, key: int, rid: Rid,
                    contents: map<int, Rid>, next: int)
    requires Sound(t, s, max, DONE, contents, next) && Covers(t, s, p, key) && key !in contents
    requires |t.pages[p].keys| == |t.pages[p].rids| && SplitsBelow(t.pages[p].keys, key, pos)
    ensures
      var n := InsertPair(t.pages[p], pos, key, rid);
      Sound(SetPage(t, p, n), MoveCut(s, p, n.keys), max, InsertTodo(t, max, p), contents[key := rid], next)
  {
    CoverAnswers(t, s, max, contents, p, key);
    InsertFits(t, s, max, p, pos, key, rid);
    LeafStep(t, s, max, p, InsertPair(t.pages[p], pos, key, rid), InsertTodo(t, max, p));
    InsertHolds(t, p, pos, key, rid, contents);
  }

  /** What is left to do after entry `pos` leaves leaf `p`. */
  ghost function EraseTodo(t: Tree, p: int, pos: nat): Todo
    requires p in t.pages
  {
    if pos == 0 && |t.pages[p].keys| > 1 then Dirty(p) else DONE
  }

  lemma EraseSound(t: Tree, s: Shape, max: nat, p: int, pos: nat, contents: map<int, Rid>, next: int)
    requires Sound(t, s, max, DONE, contents, next) && IsLeaf(t, p)
    requires pos < |t.pages[p].keys| == |t.pages[p].rids|
    ensures
      var n := ErasePair(t.pages[p], pos);
      Sound(SetPage(t, p, n), MoveCut(s, p, n.keys), max, EraseTodo(t, p, pos),
            contents - {t.pages[p].keys[pos]}, next)
  {
    var n := ErasePair(t.pages[p], pos);
    assert PageOk(t, s, max, DONE, p);
    LeafStep(t, s, max, p, n, EraseTodo(t, p, pos));
    EraseHolds(t, s, max, p, pos, contents);
  }
}
