/**
 One page of the B+ tree: its header fields and its parallel arrays of keys and rids.
 A key is represented by its rank in the index's key order (module KeyOrder proves that
 the column-by-column comparison of keys is the comparison of their ranks).
 */
module IndexNode {
  import opened Common

  const LEAF_HEADER_PAGE := 1
  const INIT_ROOT_PAGE := 2
  const INIT_NUM_PAGES := 3

  /** A leaf maps keys to record ids; an inner node holds one (key, child page) pair per child. */
  datatype Node = Node(isLeaf: bool, parent: int, prevLeaf: int, nextLeaf: int,
                       keys: seq<int>, rids: seq<Rid>)

  ghost predicate Sorted(keys: seq<int>) {
    forall i, j :: 0 <= i < j < |keys| ==> keys[i] < keys[j]
  }

  ghost predicate SplitsBelow(keys: seq<int>, target: int, pos: int) {
    && 0 <= pos <= |keys|
    && (forall i :: 0 <= i < pos ==> keys[i] < target)
    && (forall i :: pos <= i < |keys| ==> target <= keys[i])
  }

  ghost predicate SplitsUpTo(keys: seq<int>, target: int, pos: int) {
    && 0 <= pos <= |keys|
    && (forall i :: 0 <= i < pos ==> keys[i] <= target)
    && (forall i :: pos <= i < |keys| ==> target < keys[i])
  }

  /** Binary search for the first key that is not below `target`. */
  method LowerBound(keys: seq<int>, target: int) returns (pos: nat)
    requires Sorted(keys)
    ensures SplitsBelow(keys, target, pos)
  {
    var left, right := 0, |keys|;
    while left < right
      invariant 0 <= left <= right <= |keys|
      invariant forall i :: 0 <= i < left ==> keys[i] < target
      invariant forall i :: right <= i < |keys| ==> target <= keys[i]
    {
      var mid := (left + right) / 2;
      if keys[mid] < target {
        left := mid + 1;
      } else {
        right := mid;
      }
    }
    pos := left;
  }

  /** Binary search for the first key above `target`. */
  method UpperBound(keys: seq<int>, target: int) returns (pos: nat)
    requires Sorted(keys)
    ensures SplitsUpTo(keys, target, pos)
  {
    var left, right := 0, |keys|;
    while left < right
      invariant 0 <= left <= right <= |keys|
      invariant forall i :: 0 <= i < left ==> keys[i] <= target
      invariant forall i :: right <= i < |keys| ==> target < keys[i]
    {
      var mid := (left + right) / 2;
      if keys[mid] <= target {
        left := mid + 1;
      } else {
        right := mid;
      }
    }
    pos := left;
  }

  /** The rank of the child an inner node routes `key` to: the last separator not above
      the key, clamped to child 0. */
  method InternalLookup(keys: seq<int>, key: int) returns (pos: nat)
    requires Sorted(keys) && |keys| > 0
    ensures pos < |keys|
    ensures pos == 0 || keys[pos] <= key
    ensures pos + 1 == |keys| || key < keys[pos + 1]
  {
    var bound := UpperBound(keys, key);
    pos := if bound == 0 then 0 else bound - 1;
  }

  /** The position of `child` among the children, found by a linear walk. */
  method FindChild(rids: seq<Rid>, child: int) returns (pos: nat)
    requires exists i :: 0 <= i < |rids| && rids[i].pageNo == child
    ensures pos < |rids| && rids[pos].pageNo == child
    ensures forall i :: 0 <= i < pos ==> rids[i].pageNo != child
  {
    pos := 0;
    while rids[pos].pageNo != child
      invariant pos < |rids|
      invariant exists i :: pos <= i < |rids| && rids[i].pageNo == child
      invariant forall i :: 0 <= i < pos ==> rids[i].pageNo != child
      decreases |rids| - pos
    {
      pos := pos + 1;
    }
  }

  function InsertAt<T>(s: seq<T>, pos: nat, x: T): (r: seq<T>)
    requires pos <= |s|
    ensures |r| == |s| + 1 && r[pos] == x
    ensures forall i {:trigger r[i]} :: 0 <= i < |r| ==>
      r[i] == if i < pos then s[i] else if i == pos then x else s[i - 1]
    ensures forall i {:trigger s[i]} :: 0 <= i < |s| ==>
      s[i] == if i < pos then r[i] else r[i + 1]
  {
    s[..pos] + [x] + s[pos..]
  }

  function RemoveAt<T>(s: seq<T>, pos: nat): (r: seq<T>)
    requires pos < |s|
    ensures |r| == |s| - 1
    ensures forall i {:trigger r[i]} :: 0 <= i < |r| ==> r[i] == if i < pos then s[i] else s[i + 1]
    ensures forall i {:trigger s[i]} :: 0 <= i < |s| && i != pos ==>
      s[i] == if i < pos then r[i] else r[i - 1]
  {
    s[..pos] + s[pos + 1..]
  }

  function InsertPair(n: Node, pos: nat, key: int, rid: Rid): Node
    requires pos <= |n.keys| && |n.keys| == |n.rids|
  {
    n.(keys := InsertAt(n.keys, pos, key), rids := InsertAt(n.rids, pos, rid))
  }

  function ErasePair(n: Node, pos: nat): Node
    requires pos < |n.keys| && |n.keys| == |n.rids|
  {
    n.(keys := RemoveAt(n.keys, pos), rids := RemoveAt(n.rids, pos))
  }
}
