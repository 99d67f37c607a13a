/**
 The key range an index scan searches, made from the conditions on a prefix of the index columns.

 The range starts with the columns that have an equality, and ends at the first column that does not.
 A lower bound on that column is padded with the greatest values of the columns behind it, whether
 the bound is strict or not. For `>` that is right. For `>=` it starts the range too late, and the
 scan misses the rows that meet the bound with equality unless all their trailing columns are
 greatest.
 */
module IndexRange {
  import opened Common
  import opened KeyOrder
  import opened Conditions

  datatype Bound = Bound(op: CompOp, val: nat)

  /** The keys to search between, and which search each end takes. */
  datatype ScanRange = ScanRange(low: Key, high: Key, useLower: bool, useUpper: bool)

  // ---------------------------------------------------------------- which condition is used

  /** The last equality on a column. */
  ghost function PickEq(conds: seq<ValueCond>, col: nat): Option<nat> {
    if conds == [] then None
    else
      var c := conds[|conds| - 1];
      if c.col == col && c.op == EQ then Some(c.val) else PickEq(conds[..|conds| - 1], col)
  }

  /** The first lower bound on a column. */
  ghost function PickLower(conds: seq<ValueCond>, col: nat): Option<Bound> {
    if conds == [] then None
    else
      var c, rest := conds[|conds| - 1], PickLower(conds[..|conds| - 1], col);
      if rest.None? && c.col == col && (c.op == GT || c.op == GE) then Some(Bound(c.op, c.val)) else rest
  }

  /** The first upper bound on a column. */
  ghost function PickUpper(conds: seq<ValueCond>, col: nat): Option<Bound> {
    if conds == [] then None
    else
      var c, rest := conds[|conds| - 1], PickUpper(conds[..|conds| - 1], col);
      if rest.None? && c.col == col && (c.op == LT || c.op == LE) then Some(Bound(c.op, c.val)) else rest
  }

  /** The `i`-th condition is an equality on the column. */
  ghost predicate EqAt(conds: seq<ValueCond>, col: nat, i: int) {
    0 <= i < |conds| && conds[i].col == col && conds[i].op.EQ?
  }

  ghost predicate LowerAt(conds: seq<ValueCond>, col: nat, i: int) {
    0 <= i < |conds| && conds[i].col == col && (conds[i].op.GT? || conds[i].op.GE?)
  }

  ghost predicate UpperAt(conds: seq<ValueCond>, col: nat, i: int) {
    0 <= i < |conds| && conds[i].col == col && (conds[i].op.LT? || conds[i].op.LE?)
  }

  /** By place: the last equality and the first bounds are picked, and nothing only when there is none. */
  lemma {:induction false} PicksByPlace(conds: seq<ValueCond>, col: nat, i: nat)
    ensures EqAt(conds, col, i) && (forall j :: i < j ==> !EqAt(conds, col, j)) ==>
      PickEq(conds, col) == Some(conds[i].val)
    ensures LowerAt(conds, col, i) && (forall j :: 0 <= j < i ==> !LowerAt(conds, col, j)) ==>
      PickLower(conds, col) == Some(Bound(conds[i].op, conds[i].val))
    ensures UpperAt(conds, col, i) && (forall j :: 0 <= j < i ==> !UpperAt(conds, col, j)) ==>
      PickUpper(conds, col) == Some(Bound(conds[i].op, conds[i].val))
    ensures (forall j :: !EqAt(conds, col, j)) ==> PickEq(conds, col) == None
    ensures (forall j :: !LowerAt(conds, col, j)) ==> PickLower(conds, col) == None
    ensures (forall j :: !UpperAt(conds, col, j)) ==> PickUpper(conds, col) == None
  {
    if conds != [] {
      var n := |conds| - 1;
      PicksByPlace(conds[..n], col, i);
      assert forall j :: EqAt(conds[..n], col, j) <==> j < n && EqAt(conds, col, j);
      assert forall j :: LowerAt(conds[..n], col, j) <==> j < n && LowerAt(conds, col, j);
      assert forall j :: UpperAt(conds[..n], col, j) <==> j < n && UpperAt(conds, col, j);
      assert EqAt(conds, col, n) <==> conds[n].col == col && conds[n].op.EQ?;
      assert LowerAt(conds, col, n) <==> conds[n].col == col && (conds[n].op.GT? || conds[n].op.GE?);
      assert UpperAt(conds, col, n) <==> conds[n].col == col && (conds[n].op.LT? || conds[n].op.LE?);
    }
  }

  lemma {:induction false} PicksHold(row: Row, conds: seq<ValueCond>, col: nat)
    requires col < |row| && forall i :: 0 <= i < |conds| ==> Meets(row, conds[i])
    ensures PickEq(conds, col).Some? ==> row[col] == PickEq(conds, col).value
    ensures PickLower(conds, col).Some? ==>
      var b := PickLower(conds, col).value;
      (b.op == GT || b.op == GE) && Relates(row[col], b.op, b.val)
    ensures PickUpper(conds, col).Some? ==>
      var b := PickUpper(conds, col).value;
      (b.op == LT || b.op == LE) && Relates(row[col], b.op, b.val)
  {
    if conds != [] {
      PicksHold(row, conds[..|conds| - 1], col);
    }
  }

  // ---------------------------------------------------------------- the range, and what it leaves out

  /** The values of the index columns `cols` in a row. */
  function KeyOf(row: Row, cols: seq<nat>): Key
    requires forall i :: 0 <= i < |cols| ==> cols[i] < |row|
  {
    seq(|cols|, i requires 0 <= i < |cols| => row[cols[i]])
  }

  ghost predicate RowFits(row: Row, cols: seq<nat>, sizes: seq<nat>) {
    && |cols| == |sizes|
    && (forall i :: 0 <= i < |cols| ==> cols[i] < |row|)
    && (forall i {:trigger row[cols[i]]} :: 0 <= i < |cols| ==> row[cols[i]] < sizes[i])
  }

  /** How many leading index columns have an equality. */
  ghost function EqPrefix(conds: seq<ValueCond>, cols: seq<nat>): nat
    ensures EqPrefix(conds, cols) <= |cols|
  {
    if cols == [] || PickEq(conds, cols[0]).None? then 0 else 1 + EqPrefix(conds, cols[1..])
  }

  /** The column that ends the range has a `>=` and index columns behind it. */
  ghost predicate PadsLowerBound(conds: seq<ValueCond>, cols: seq<nat>) {
    var k := EqPrefix(conds, cols);
    k + 1 < |cols| && PickLower(conds, cols[k]).Some? && PickLower(conds, cols[k]).value.op == GE
  }

  /** The row meets that `>=` with equality, and its trailing columns are not all greatest. */
  ghost predicate BelowPadding(row: Row, conds: seq<ValueCond>, cols: seq<nat>, sizes: seq<nat>)
    requires RowFits(row, cols, sizes) && PadsLowerBound(conds, cols)
  {
    var k := EqPrefix(conds, cols);
    && row[cols[k]] == PickLower(conds, cols[k]).value.val
    && exists j :: k < j < |cols| && row[cols[j]] + 1 < sizes[j]
  }

  ghost predicate Missed(row: Row, conds: seq<ValueCond>, cols: seq<nat>, sizes: seq<nat>)
    requires RowFits(row, cols, sizes)
  {
    PadsLowerBound(conds, cols) && BelowPadding(row, conds, cols, sizes)
  }

  /** The first rank in the range, and the first rank past it. */
  ghost function From(r: ScanRange, sizes: seq<nat>): int
    requires |r.low| == |sizes|
  {
    if r.useLower then Rank(r.low, sizes) else Rank(r.low, sizes) + 1
  }

  ghost function To(r: ScanRange, sizes: seq<nat>): int
    requires |r.high| == |sizes|
  {
    if r.useUpper then Rank(r.high, sizes) + 1 else Rank(r.high, sizes)
  }

  ghost predicate CondsFit(conds: seq<ValueCond>, cols: seq<nat>, sizes: seq<nat>) {
    && |cols| == |sizes|
    && (forall i :: 0 <= i < |sizes| ==> 0 < sizes[i])
    && (forall c, i :: 0 <= c < |conds| && 0 <= i < |cols| && conds[c].col == cols[i] ==> conds[c].val < sizes[i])
  }

  // ---------------------------------------------------------------- the shape of the range

  /** The greatest code of a column with `size` codes. */
  function Greatest(size: nat): nat {
    if size == 0 then 0 else size - 1
  }

  /** The range as the conditions determine it, column by column. */
  ghost predicate IsRange(r: ScanRange, conds: seq<ValueCond>, cols: seq<nat>, sizes: seq<nat>) {
    var k, n := EqPrefix(conds, cols), |cols|;
    && |r.low| == |r.high| == |sizes| == n
    && (forall i :: 0 <= i < k ==> Some(r.low[i]) == Some(r.high[i]) == PickEq(conds, cols[i]))
    && (if k == n then r.useLower && r.useUpper
        else
          var lo, up := PickLower(conds, cols[k]), PickUpper(conds, cols[k]);
          && r.low[k] == (if lo.Some? then lo.value.val else 0)
          && r.high[k] == (if up.Some? then up.value.val else Greatest(sizes[k]))
          && (forall j :: k < j < n ==> r.low[j] == if lo.Some? then Greatest(sizes[j]) else 0)
          && (forall j :: k < j < n ==> r.high[j] == Greatest(sizes[j]))
          && r.useLower == (lo.Some? ==> lo.value.op == GE)
          && r.useUpper == (up.Some? ==> up.value.op == LE))
  }

  lemma {:induction false} PrefixHasEq(conds: seq<ValueCond>, cols: seq<nat>, i: nat)
    requires i < EqPrefix(conds, cols)
    ensures PickEq(conds, cols[i]).Some?
  {
    if i > 0 {
      PrefixHasEq(conds, cols[1..], i - 1);
    }
  }

  lemma {:induction false} PrefixStops(conds: seq<ValueCond>, cols: seq<nat>, k: nat)
    requires k <= |cols| && forall i :: 0 <= i < k ==> PickEq(conds, cols[i]).Some?
    ensures k <= EqPrefix(conds, cols)
    ensures k == |cols| || PickEq(conds, cols[k]).None? ==> EqPrefix(conds, cols) == k
  {
    if k > 0 {
      assert forall i :: 0 <= i < k - 1 ==> cols[1..][i] == cols[i + 1];
      PrefixStops(conds, cols[1..], k - 1);
    }
  }

  lemma {:induction false} PicksFit(conds: seq<ValueCond>, cols: seq<nat>, sizes: seq<nat>, i: nat)
    requires CondsFit(conds, cols, sizes) && i < |cols|
    ensures PickEq(conds, cols[i]).Some? ==> PickEq(conds, cols[i]).value < sizes[i]
    ensures PickLower(conds, cols[i]).Some? ==> PickLower(conds, cols[i]).value.val < sizes[i]
    ensures PickUpper(conds, cols[i]).Some? ==> PickUpper(conds, cols[i]).value.val < sizes[i]
    decreases |conds|
  {
    if conds != [] {
      PicksFit(conds[..|conds| - 1], cols, sizes, i);
    }
  }

  lemma RangeFits(r: ScanRange, conds: seq<ValueCond>, cols: seq<nat>, sizes: seq<nat>)
    requires CondsFit(conds, cols, sizes) && IsRange(r, conds, cols, sizes)
    ensures Fits(r.low, sizes) && Fits(r.high, sizes)
  {
    forall i | 0 <= i < |cols|
      ensures r.low[i] < sizes[i] && r.high[i] < sizes[i]
    {
      PicksFit(conds, cols, sizes, i);
    }
  }

  // ---------------------------------------------------------------- keys in the range

  /** A key that agrees up to column `i` and is no greater from there on comes no later. */
  lemma DominatedRank(a: Key, b: Key, sizes: seq<nat>, i: nat)
    requires Fits(a, sizes) && Fits(b, sizes) && i <= |a|
    requires forall j :: 0 <= j < i ==> a[j] == b[j]
    requires forall j :: i <= j < |a| ==> a[j] <= b[j]
    ensures Rank(a, sizes) <= Rank(b, sizes)
  {
    if a != b {
      var d := FirstDifference(a, b);
      RankFollowsColumn(a, b, sizes, d);
    }
  }

  lemma SmallerAt(a: Key, b: Key, sizes: seq<nat>, i: nat)
    requires Fits(a, sizes) && Fits(b, sizes) && i < |a| && a[i] < b[i]
    requires forall j :: 0 <= j < i ==> a[j] == b[j]
    ensures Rank(a, sizes) < Rank(b, sizes)
  {
    assert a[..i] == b[..i];
    RankFollowsColumn(a, b, sizes, i);
  }

  ghost predicate MeetsAll(row: Row, conds: seq<ValueCond>) {
    forall i :: 0 <= i < |conds| ==> Meets(row, conds[i])
  }

  /** A matching row agrees with the range on its equality columns. */
  lemma SharesPrefix(r: ScanRange, row: Row, conds: seq<ValueCond>, cols: seq<nat>, sizes: seq<nat>)
    requires CondsFit(conds, cols, sizes) && IsRange(r, conds, cols, sizes)
    requires RowFits(row, cols, sizes) && MeetsAll(row, conds)
    ensures forall i :: 0 <= i < EqPrefix(conds, cols) ==> r.low[i] == r.high[i] == KeyOf(row, cols)[i]
  {
    forall i | 0 <= i < EqPrefix(conds, cols)
      ensures r.low[i] == r.high[i] == KeyOf(row, cols)[i]
    {
      PicksHold(row, conds, cols[i]);
    }
  }

  lemma MatchIsBelowTop(r: ScanRange, row: Row, conds: seq<ValueCond>, cols: seq<nat>, sizes: seq<nat>)
    requires CondsFit(conds, cols, sizes) && IsRange(r, conds, cols, sizes)
    requires RowFits(row, cols, sizes) && MeetsAll(row, conds)
    ensures Rank(KeyOf(row, cols), sizes) < To(r, sizes)
  {
    var key, k := KeyOf(row, cols), EqPrefix(conds, cols);
    RangeFits(r, conds, cols, sizes);
    SharesPrefix(r, row, conds, cols, sizes);
    if k < |cols| {
      PicksHold(row, conds, cols[k]);
      assert key[k] == row[cols[k]];
    }
    if k == |cols| || key[k] == r.high[k] || r.useUpper {
      DominatedRank(key, r.high, sizes, k);
    } else {
      SmallerAt(key, r.high, sizes, k);
    }
  }

  /** A matching row starts the range or comes later, unless the padding leaves it out. */
  lemma MatchIsAboveBottom(r: ScanRange, row: Row, conds: seq<ValueCond>, cols: seq<nat>, sizes: seq<nat>)
    requires CondsFit(conds, cols, sizes) && IsRange(r, conds, cols, sizes)
    requires RowFits(row, cols, sizes) && MeetsAll(row, conds)
    ensures From(r, sizes) <= Rank(KeyOf(row, cols), sizes) <==> !Missed(row, conds, cols, sizes)
  {
    var key, k := KeyOf(row, cols), EqPrefix(conds, cols);
    RangeFits(r, conds, cols, sizes);
    SharesPrefix(r, row, conds, cols, sizes);
    if k < |cols| {
      PicksHold(row, conds, cols[k]);
      assert key[k] == row[cols[k]];
    }
    if k < |cols| && r.low[k] < key[k] && PickLower(conds, cols[k]).Some? {
      SmallerAt(r.low, key, sizes, k);
    } else if Missed(row, conds, cols, sizes) {
      MissedIsBelow(r, row, conds, cols, sizes);
    } else {
      DominatedRank(r.low, key, sizes, k);
    }
  }

  lemma MissedIsBelow(r: ScanRange, row: Row, conds: seq<ValueCond>, cols: seq<nat>, sizes: seq<nat>)
    requires CondsFit(conds, cols, sizes) && IsRange(r, conds, cols, sizes)
    requires RowFits(row, cols, sizes) && MeetsAll(row, conds) && Missed(row, conds, cols, sizes)
    ensures Rank(KeyOf(row, cols), sizes) < From(r, sizes)
  {
    var key, k := KeyOf(row, cols), EqPrefix(conds, cols);
    RangeFits(r, conds, cols, sizes);
    SharesPrefix(r, row, conds, cols, sizes);
    DominatedRank(key, r.low, sizes, k);
    var j :| k < j < |cols| && row[cols[j]] + 1 < sizes[j];
    assert key[j] != r.low[j];
    RankIsOrder(key, r.low, sizes);
  }

  /** A key between two keys that agree on the first columns agrees with them there. */
  lemma {:induction false} BetweenAgrees(low: Key, key: Key, high: Key, sizes: seq<nat>, k: nat)
    requires Fits(low, sizes) && Fits(key, sizes) && Fits(high, sizes) && k <= |key|
    requires forall i :: 0 <= i < k ==> low[i] == high[i]
    requires Rank(low, sizes) <= Rank(key, sizes) <= Rank(high, sizes)
    ensures forall i :: 0 <= i < k ==> key[i] == low[i]
    ensures k < |key| ==> low[k] <= key[k] <= high[k]
  {
    hide Rank;
    if k > 0 {
      BetweenAgrees(low, key, high, sizes, k - 1);
    }
    if k < |key| && key[k] > high[k] {
      SmallerAt(high, key, sizes, k);
    }
    if k < |key| && key[k] < low[k] {
      SmallerAt(key, low, sizes, k);
    }
  }

  /** The range holds no row that misses an equality, or lies beyond a bound. */
  lemma RangeIsTight(r: ScanRange, row: Row, conds: seq<ValueCond>, cols: seq<nat>, sizes: seq<nat>)
    requires CondsFit(conds, cols, sizes) && IsRange(r, conds, cols, sizes) && RowFits(row, cols, sizes)
    requires From(r, sizes) <= Rank(KeyOf(row, cols), sizes) < To(r, sizes)
    ensures
      var k := EqPrefix(conds, cols);
      && (forall i :: 0 <= i < k ==> PickEq(conds, cols[i]) == Some(row[cols[i]]))
      && (k < |cols| && PickLower(conds, cols[k]).Some? ==> PickLower(conds, cols[k]).value.val <= row[cols[k]])
      && (k < |cols| && PickUpper(conds, cols[k]).Some? ==> row[cols[k]] <= PickUpper(conds, cols[k]).value.val)
  {
    hide PickEq, PickLower, PickUpper, EqPrefix;
    var key, k := KeyOf(row, cols), EqPrefix(conds, cols);
    RangeFits(r, conds, cols, sizes);
    BetweenAgrees(r.low, key, r.high, sizes, k);
    forall i | 0 <= i < k
      ensures PickEq(conds, cols[i]) == Some(row[cols[i]])
    {
      assert key[i] == row[cols[i]] && Some(r.low[i]) == PickEq(conds, cols[i]);
    }
  }

  /** The padding loses rows: an index on (a, b), the condition a >= 5, and the row (5, 3). */
  lemma PaddingLosesARow()
    ensures
      var conds, cols, sizes, row := [ValueCond(0, GE, 5)], [0, 1], [10, 10], [5, 3];
      && RowFits(row, cols, sizes) && Matches(row, conds, _ => true)
      && Missed(row, conds, cols, sizes)
  {
    var conds, cols, sizes, row: Row := [ValueCond(0, GE, 5)], [0, 1], [10, 10], [5, 3];
    assert conds[..0] == [];
    assert PickEq(conds, 0) == PickEq(conds[..0], 0) == None;
    assert PickLower(conds[..0], 0) == None;
    assert EqPrefix(conds, cols) == 0;
    assert row[cols[1]] + 1 < sizes[1];
  }

  // ---------------------------------------------------------------- making the range

  /** The conditions on one column that the range uses. */
  method PickConds(conds: seq<ValueCond>, col: nat) returns (eq: Option<nat>, lo: Option<Bound>, up: Option<Bound>)
    ensures eq == PickEq(conds, col) && lo == PickLower(conds, col) && up == PickUpper(conds, col)
  {
    eq, lo, up := None, None, None;
    for i := 0 to |conds|
      invariant eq == PickEq(conds[..i], col)
      invariant lo == PickLower(conds[..i], col) && up == PickUpper(conds[..i], col)
    {
      var c := conds[i];
      assert conds[..i + 1][..i] == conds[..i];
      if c.col == col {
        if c.op == EQ {
          eq := Some(c.val);
        } else if c.op == GT || c.op == GE {
          if lo.None? {
            lo := Some(Bound(c.op, c.val));
          }
        } else if c.op == LT || c.op == LE {
          if up.None? {
            up := Some(Bound(c.op, c.val));
          }
        }
      }
    }
    assert conds[..|conds|] == conds;
  }

  /** Overwrites the columns from `k` on with their greatest values. */
  method PadWithGreatest(key: Key, sizes: seq<nat>, k: nat) returns (r: Key)
    requires |key| == |sizes| && k <= |key|
    ensures |r| == |key| && (forall j :: 0 <= j < k ==> r[j] == key[j])
    ensures forall j :: k <= j < |r| ==> r[j] == Greatest(sizes[j])
  {
    r := key;
    for j := k to |key|
      invariant |r| == |key| && (forall i :: 0 <= i < k ==> r[i] == key[i])
      invariant forall i :: k <= i < j ==> r[i] == Greatest(sizes[i])
    {
      r := r[j := Greatest(sizes[j])];
    }
  }

  /** The range that the conditions determine. */
  ghost function RangeOf(conds: seq<ValueCond>, cols: seq<nat>, sizes: seq<nat>): (r: ScanRange)
    requires |cols| == |sizes|
    ensures IsRange(r, conds, cols, sizes)
  {
    var k := EqPrefix(conds, cols);
    var lo := if k < |cols| then PickLower(conds, cols[k]) else None;
    var up := if k < |cols| then PickUpper(conds, cols[k]) else None;
    assert forall i :: 0 <= i < k ==> PickEq(conds, cols[i]).Some? by {
      forall i | 0 <= i < k
        ensures PickEq(conds, cols[i]).Some?
      {
        PrefixHasEq(conds, cols, i);
      }
    }
    var low := seq(|cols|, i requires 0 <= i < |cols| =>
      if i < k && PickEq(conds, cols[i]).Some? then PickEq(conds, cols[i]).value
      else if i == k then (if lo.Some? then lo.value.val else 0)
      else if lo.Some? then Greatest(sizes[i]) else 0);
    var high := seq(|cols|, i requires 0 <= i < |cols| =>
      if i < k && PickEq(conds, cols[i]).Some? then PickEq(conds, cols[i]).value
      else if i == k && up.Some? then up.value.val
      else Greatest(sizes[i]));
    ScanRange(low, high, lo.Some? ==> lo.value.op == GE, up.Some? ==> up.value.op == LE)
  }

  lemma RangeIsUnique(r: ScanRange, r': ScanRange, conds: seq<ValueCond>, cols: seq<nat>, sizes: seq<nat>)
    requires IsRange(r, conds, cols, sizes) && IsRange(r', conds, cols, sizes)
    ensures r == r'
  {
    hide PickEq, PickLower, PickUpper, EqPrefix;
    forall i | 0 <= i < |cols|
      ensures r.low[i] == r'.low[i] && r.high[i] == r'.high[i]
    {
      assert i < EqPrefix(conds, cols) ==>
        && Some(r.low[i]) == PickEq(conds, cols[i]) == Some(r'.low[i])
        && Some(r.high[i]) == PickEq(conds, cols[i]) == Some(r'.high[i]);
    }
  }

  lemma RangeWidth(r: ScanRange, conds: seq<ValueCond>, cols: seq<nat>, sizes: seq<nat>)
    requires IsRange(r, conds, cols, sizes)
    ensures |r.low| == |r.high| == |sizes|
  {
  }

  method MakeScanRange(conds: seq<ValueCond>, cols: seq<nat>, sizes: seq<nat>) returns (r: ScanRange)
    requires |cols| == |sizes|
    ensures IsRange(r, conds, cols, sizes)
  {
    var low, high := seq(|cols|, _ => 0), seq(|cols|, i requires 0 <= i < |sizes| => Greatest(sizes[i]));
    var useLower, useUpper := true, true;
    var k := 0;
    while k < |cols|
      invariant 0 <= k <= |cols| == |low| == |high|
      invariant useLower && useUpper
      invariant forall i :: 0 <= i < k ==> Some(low[i]) == Some(high[i]) == PickEq(conds, cols[i])
      invariant forall j :: k <= j < |cols| ==> low[j] == 0 && high[j] == Greatest(sizes[j])
    {
      var eq, lo, up := PickConds(conds, cols[k]);
      if eq.Some? {
        low, high := low[k := eq.value], high[k := eq.value];
      } else {
        if lo.Some? {
          low, useLower := low[k := lo.value.val], lo.value.op == GE;
          low := PadWithGreatest(low, sizes, k + 1);
        }
        if up.Some? {
          high, useUpper := high[k := up.value.val], up.value.op == LE;
          high := PadWithGreatest(high, sizes, k + 1);
        }
        PrefixStops(conds, cols, k);
        return ScanRange(low, high, useLower, useUpper);
      }
      k := k + 1;
    }
    PrefixStops(conds, cols, k);
    r := ScanRange(low, high, true, true);
  }

  // ---------------------------------------------------------------- choosing an index

  /** How many leading index columns the conditions use: the equalities, and a range behind them. */
  ghost function MatchedColumns(conds: seq<ValueCond>, cols: seq<nat>): nat {
    var k := EqPrefix(conds, cols);
    if k < |cols| && (PickLower(conds, cols[k]).Some? || PickUpper(conds, cols[k]).Some?) then k + 1 else k
  }

  ghost predicate HasEq(conds: seq<ValueCond>, col: nat) {
    exists i :: EqAt(conds, col, i)
  }

  ghost predicate HasBound(conds: seq<ValueCond>, col: nat) {
    exists i :: LowerAt(conds, col, i) || UpperAt(conds, col, i)
  }

  lemma {:induction false} PickedOrNone(conds: seq<ValueCond>, col: nat)
    ensures PickEq(conds, col).Some? <==> HasEq(conds, col)
    ensures PickLower(conds, col).Some? || PickUpper(conds, col).Some? <==> HasBound(conds, col)
  {
    if conds != [] {
      var n := |conds| - 1;
      PickedOrNone(conds[..n], col);
      assert forall j :: EqAt(conds[..n], col, j) <==> j < n && EqAt(conds, col, j);
      assert forall j :: LowerAt(conds[..n], col, j) <==> j < n && LowerAt(conds, col, j);
      assert forall j :: UpperAt(conds[..n], col, j) <==> j < n && UpperAt(conds, col, j);
      assert EqAt(conds, col, n) <==> conds[n].col == col && conds[n].op.EQ?;
      assert LowerAt(conds, col, n) <==> conds[n].col == col && (conds[n].op.GT? || conds[n].op.GE?);
      assert UpperAt(conds, col, n) <==> conds[n].col == col && (conds[n].op.LT? || conds[n].op.LE?);
    }
  }

  /** All counted columns but the last have an equality, the last has one or a bound, and the count goes on as
      long as that is so. */
  lemma MatchedByColumn(conds: seq<ValueCond>, cols: seq<nat>)
    ensures
      var m := MatchedColumns(conds, cols);
      && m <= |cols|
      && (forall i :: 0 <= i < m - 1 ==> HasEq(conds, cols[i]))
      && (m > 0 ==> HasEq(conds, cols[m - 1]) || HasBound(conds, cols[m - 1]))
      && (m < |cols| && (m == 0 || HasEq(conds, cols[m - 1])) ==>
            !HasEq(conds, cols[m]) && !HasBound(conds, cols[m]))
  {
    hide PickEq, PickLower, PickUpper, HasEq, HasBound;
    var k := EqPrefix(conds, cols);
    forall i | 0 <= i < k
      ensures HasEq(conds, cols[i])
    {
      PrefixHasEq(conds, cols, i);
      PickedOrNone(conds, cols[i]);
    }
    if k < |cols| {
      PickedOrNone(conds, cols[k]);
      PrefixEnds(conds, cols);
    }
  }

  lemma {:induction false} PrefixEnds(conds: seq<ValueCond>, cols: seq<nat>)
    ensures EqPrefix(conds, cols) < |cols| ==> PickEq(conds, cols[EqPrefix(conds, cols)]).None?
  {
    if cols != [] && PickEq(conds, cols[0]).Some? {
      PrefixEnds(conds, cols[1..]);
    }
  }

  method CountMatched(conds: seq<ValueCond>, cols: seq<nat>) returns (matched: nat)
    ensures matched == MatchedColumns(conds, cols)
  {
    matched := 0;
    while matched < |cols|
      invariant matched <= |cols|
      invariant forall i :: 0 <= i < matched ==> PickEq(conds, cols[i]).Some?
    {
      var eq, lo, up := PickConds(conds, cols[matched]);
      if eq.None? {
        PrefixStops(conds, cols, matched);
        return if lo.Some? || up.Some? then matched + 1 else matched;
      }
      matched := matched + 1;
    }
    PrefixStops(conds, cols, matched);
  }

  /** The first index that uses the most conditions, if any index uses one. */
  ghost function Best(conds: seq<ValueCond>, indexes: seq<seq<nat>>): (best: Option<nat>)
    ensures best.None? <==> forall i :: 0 <= i < |indexes| ==> MatchedColumns(conds, indexes[i]) == 0
    ensures best.Some? ==> best.value < |indexes| && MatchedColumns(conds, indexes[best.value]) > 0
    ensures best.Some? ==> forall i :: 0 <= i < |indexes| ==>
      MatchedColumns(conds, indexes[i]) <= MatchedColumns(conds, indexes[best.value])
    ensures best.Some? ==> forall i :: 0 <= i < best.value ==>
      MatchedColumns(conds, indexes[i]) < MatchedColumns(conds, indexes[best.value])
  {
    if indexes == [] then None
    else
      var n := |indexes| - 1;
      var before := Best(conds, indexes[..n]);
      var bar := if before.None? then 0 else MatchedColumns(conds, indexes[before.value]);
      if MatchedColumns(conds, indexes[n]) > bar then Some(n) else before
  }

  /** Chooses the first index that uses the most conditions, if any index uses one. */
  method ChooseIndex(conds: seq<ValueCond>, indexes: seq<seq<nat>>) returns (best: Option<nat>)
    ensures best == Best(conds, indexes)
    ensures best.None? <==> forall i :: 0 <= i < |indexes| ==> MatchedColumns(conds, indexes[i]) == 0
    ensures best.Some? ==>
      && best.value < |indexes| && MatchedColumns(conds, indexes[best.value]) > 0
      && (forall i :: 0 <= i < |indexes| ==>
            MatchedColumns(conds, indexes[i]) <= MatchedColumns(conds, indexes[best.value]))
      && (forall i :: 0 <= i < best.value ==>
            MatchedColumns(conds, indexes[i]) < MatchedColumns(conds, indexes[best.value]))
  {
    best := None;
    var bestLen := 0;
    for i := 0 to |indexes|
      invariant best.None? ==> bestLen == 0
      invariant best.Some? ==> best.value < i && 0 < bestLen == MatchedColumns(conds, indexes[best.value])
      invariant forall j :: 0 <= j < i ==> MatchedColumns(conds, indexes[j]) <= bestLen
      invariant best.Some? ==> forall j :: 0 <= j < best.value ==> MatchedColumns(conds, indexes[j]) < bestLen
    {
      var matched := CountMatched(conds, indexes[i]);
      if matched > bestLen {
        best, bestLen := Some(i), matched;
      }
    }
  }
}
