/**
 The order of index keys.

 A key has one value per index column. A column value is represented by its code: its place in the
 order of the values its bytes can hold (an INT counts from the least 32-bit integer, a FLOAT from
 the least finite float, a CHAR(n) reads its n bytes as a base-256 number). `sizes` gives the number
 of codes of each column. Keys compare column by column, and that is the order of their ranks.
 */
module KeyOrder {

  type Key = seq<nat>

  ghost predicate Fits(key: Key, sizes: seq<nat>) {
    |key| == |sizes| && forall i :: 0 <= i < |key| ==> key[i] < sizes[i]
  }

  function KeySpace(sizes: seq<nat>): nat {
    if sizes == [] then 1 else sizes[0] * KeySpace(sizes[1..])
  }

  /** The place of a key among all keys of its layout. */
  function Rank(key: Key, sizes: seq<nat>): nat
    requires |key| == |sizes|
  {
    if key == [] then 0 else key[0] * KeySpace(sizes[1..]) + Rank(key[1..], sizes[1..])
  }

  /** The first column where `a` and `b` differ has the smaller value in `a`. */
  ghost predicate LexLess(a: Key, b: Key)
    requires |a| == |b|
  {
    exists i :: 0 <= i < |a| && a[..i] == b[..i] && a[i] < b[i]
  }

  lemma {:induction false} LowerDigitWins(x: nat, y: nat, rest: nat)
    requires x < y
    ensures x * rest + rest <= y * rest
  {
    assert y * rest == (y - 1) * rest + rest;
    if x < y - 1 {
      LowerDigitWins(x, y - 1, rest);
    }
  }

  lemma {:induction false} RankInSpace(key: Key, sizes: seq<nat>)
    requires Fits(key, sizes)
    ensures Rank(key, sizes) < KeySpace(sizes)
  {
    if key != [] {
      var rest := KeySpace(sizes[1..]);
      assert Rank(key[1..], sizes[1..]) < rest by { RankInSpace(key[1..], sizes[1..]); }
      LowerDigitWins(key[0], sizes[0], rest);
    }
  }

  /** Where the keys first differ decides which rank is smaller. */
  lemma {:induction false} RankFollowsColumn(a: Key, b: Key, sizes: seq<nat>, i: nat)
    requires Fits(a, sizes) && Fits(b, sizes) && i < |a|
    requires a[..i] == b[..i] && a[i] < b[i]
    ensures Rank(a, sizes) < Rank(b, sizes)
  {
    var rest := KeySpace(sizes[1..]);
    if i == 0 {
      assert Rank(a[1..], sizes[1..]) < rest by { RankInSpace(a[1..], sizes[1..]); }
      LowerDigitWins(a[0], b[0], rest);
    } else {
      assert a[0] == b[0] by { assert a[0] == a[..i][0] && b[0] == b[..i][0]; }
      assert Rank(a[1..], sizes[1..]) < Rank(b[1..], sizes[1..]) by {
        assert a[1..][..i - 1] == a[..i][1..] && b[1..][..i - 1] == b[..i][1..];
        RankFollowsColumn(a[1..], b[1..], sizes[1..], i - 1);
      }
    }
  }

  lemma {:induction false} FirstDifference(a: Key, b: Key) returns (i: nat)
    requires |a| == |b| && a != b
    ensures i < |a| && a[..i] == b[..i] && a[i] != b[i]
  {
    i := 0;
    while a[i] == b[i]
      invariant i < |a| && a[..i] == b[..i]
      invariant a[i..] != b[i..]
      decreases |a| - i
    {
      assert a[i..] == [a[i]] + a[i + 1..] && b[i..] == [b[i]] + b[i + 1..];
      i := i + 1;
    }
  }

  /** Column-by-column order is the order of ranks, and ranks tell keys apart. */
  lemma RankIsOrder(a: Key, b: Key, sizes: seq<nat>)
    requires Fits(a, sizes) && Fits(b, sizes)
    ensures LexLess(a, b) <==> Rank(a, sizes) < Rank(b, sizes)
    ensures a == b <==> Rank(a, sizes) == Rank(b, sizes)
  {
    if a != b {
      var i := FirstDifference(a, b);
      if a[i] < b[i] {
        RankFollowsColumn(a, b, sizes, i);
      } else {
        RankFollowsColumn(b, a, sizes, i);
      }
    }
    if LexLess(a, b) {
      var i :| 0 <= i < |a| && a[..i] == b[..i] && a[i] < b[i];
      RankFollowsColumn(a, b, sizes, i);
    }
  }

  /** Compares two keys column by column, stopping at the first difference. */
  method Compare(a: Key, b: Key, sizes: seq<nat>) returns (r: int)
    requires Fits(a, sizes) && Fits(b, sizes)
    ensures r < 0 <==> Rank(a, sizes) < Rank(b, sizes)
    ensures r == 0 <==> Rank(a, sizes) == Rank(b, sizes)
    ensures r > 0 <==> Rank(a, sizes) > Rank(b, sizes)
  {
    var i := 0;
    while i < |a|
      invariant i <= |a| && a[..i] == b[..i]
    {
      if a[i] != b[i] {
        if a[i] < b[i] {
          RankFollowsColumn(a, b, sizes, i);
          return -1;
        } else {
          RankFollowsColumn(b, a, sizes, i);
          return 1;
        }
      }
      i := i + 1;
    }
    assert a == a[..i] == b[..i] == b;
    r := 0;
  }
}
