/**
 A table as its clients see it: records, and the column lists on which keys are unique. What the
 statements answer and leave behind, stated without indexes.
 */
module PlainTable {
  import opened Common
  import opened Conditions

  datatype Plain = Plain(records: map<Rid, Row>, keys: seq<seq<nat>>)

  datatype SetClause = SetClause(col: nat, val: nat)

  datatype InsertResult = Stored(rid: Rid) | DuplicateKey

  datatype DeleteResult = AllDeleted | NoSuchRecord(row: nat)

  /** `Clash(i)`: another row has the new key in index `i`. */
  datatype UpdateResult = Updated | NotThere | Clash(index: nat)

  datatype UpdateRowsResult = AllUpdated | NoRecord(row: nat) | ClashIn(row: nat, index: nat)

  datatype BuildResult = Built | IndexExists | KeysNotUnique

  // ---------------------------------------------------------------- keys

  predicate SameColumns(a: Row, b: Row, cols: seq<nat>) {
    forall i :: 0 <= i < |cols| ==> cols[i] < |a| && cols[i] < |b| && a[cols[i]] == b[cols[i]]
  }

  /** No two records have the same values in the columns. */
  ghost predicate UniqueKeys(records: map<Rid, Row>, cols: seq<nat>) {
    forall a, b {:trigger records[a], records[b]} ::
      a in records && b in records && SameColumns(records[a], records[b], cols) ==> a == b
  }

  /** A record other than those in `but` has the row's values in the columns. */
  ghost predicate Occupied(records: map<Rid, Row>, cols: seq<nat>, row: Row, but: set<Rid>) {
    exists rid :: rid in records && rid !in but && SameColumns(records[rid], row, cols)
  }

  /** The first key that another record has; the number of keys when all are free. */
  ghost function FirstOccupied(records: map<Rid, Row>, keys: seq<seq<nat>>, row: Row, but: set<Rid>): (i: nat)
    ensures i <= |keys|
    ensures forall j :: 0 <= j < i ==> !Occupied(records, keys[j], row, but)
    ensures i < |keys| ==> Occupied(records, keys[i], row, but)
  {
    if keys == [] then 0
    else if Occupied(records, keys[0], row, but) then 0
    else 1 + FirstOccupied(records, keys[1..], row, but)
  }

  /** The first occupied key is the only one with these properties. */
  lemma FirstIsUnique(records: map<Rid, Row>, keys: seq<seq<nat>>, row: Row, but: set<Rid>, i: nat)
    requires i <= |keys| && forall j :: 0 <= j < i ==> !Occupied(records, keys[j], row, but)
    requires i < |keys| ==> Occupied(records, keys[i], row, but)
    ensures FirstOccupied(records, keys, row, but) == i
  {
  }

  // ---------------------------------------------------------------- updates

  /** Clause `k` is the last one on its column. */
  ghost predicate LastOn(sets: seq<SetClause>, k: int) {
    0 <= k < |sets| && forall m :: k < m < |sets| ==> sets[m].col != sets[k].col
  }

  ghost predicate Untouched(sets: seq<SetClause>, col: int) {
    forall k :: 0 <= k < |sets| ==> sets[k].col != col
  }

  /** Column by column: the value of the last clause on it, or the old value when there is none. */
  ghost predicate IsAssigned(row: Row, sets: seq<SetClause>, r: Row) {
    && |r| == |row|
    && (forall k :: LastOn(sets, k) && sets[k].col < |row| ==> r[sets[k].col] == sets[k].val)
    && (forall j :: 0 <= j < |row| && Untouched(sets, j) ==> r[j] == row[j])
  }

  /** A row after the assignments, one after the other. */
  ghost function ApplySets(row: Row, sets: seq<SetClause>): (r: Row)
    ensures |r| == |row| && IsAssigned(row, sets, r)
  {
    if sets == [] then row
    else
      var n := |sets| - 1;
      var done := ApplySets(row, sets[..n]);
      var r := if sets[n].col < |done| then done[sets[n].col := sets[n].val] else done;
      AssignOne(row, sets, done, r);
      r
  }

  lemma AssignOne(row: Row, sets: seq<SetClause>, done: Row, r: Row)
    requires sets != [] && IsAssigned(row, sets[..|sets| - 1], done)
    requires
      var c := sets[|sets| - 1];
      r == if c.col < |done| then done[c.col := c.val] else done
    ensures IsAssigned(row, sets, r)
  {
    var n := |sets| - 1;
    var before, c := sets[..n], sets[n];
    forall k | LastOn(sets, k) && sets[k].col < |row|
      ensures r[sets[k].col] == sets[k].val
    {
      if k < n {
        assert LastOn(before, k) && before[k] == sets[k];
        assert sets[n].col != sets[k].col;
      }
    }
    forall j | 0 <= j < |row| && Untouched(sets, j)
      ensures r[j] == row[j]
    {
      assert Untouched(before, j) && sets[n].col != j;
    }
  }

  /** Copies the row and writes the clauses into the copy. */
  method SetColumns(row: Row, sets: seq<SetClause>) returns (r: Row)
    ensures r == ApplySets(row, sets)
    ensures IsAssigned(row, sets, r)
  {
    hide IsAssigned;
    r := row;
    for i := 0 to |sets|
      invariant r == ApplySets(row, sets[..i])
    {
      assert sets[..i + 1][..i] == sets[..i];
      if sets[i].col < |r| {
        r := r[sets[i].col := sets[i].val];
      }
    }
    assert sets[..|sets|] == sets;
  }

  /** Every column has a last clause or none. */
  lemma {:induction false} LastClause(sets: seq<SetClause>, col: nat)
    ensures (exists k :: LastOn(sets, k) && sets[k].col == col) || Untouched(sets, col)
  {
    if sets != [] {
      var n := |sets| - 1;
      LastClause(sets[..n], col);
      assert LastOn(sets, n);
      if k :| LastOn(sets[..n], k) && sets[..n][k].col == col {
        assert sets[n].col == col || LastOn(sets, k);
      }
    }
  }

  lemma AssignedIsUnique(row: Row, sets: seq<SetClause>, r: Row, r': Row)
    requires IsAssigned(row, sets, r) && IsAssigned(row, sets, r')
    ensures r == r'
  {
    forall j | 0 <= j < |row|
      ensures r[j] == r'[j]
    {
      LastClause(sets, j);
    }
  }

  /** Assigning twice is assigning once. */
  lemma AssignedTwice(row: Row, sets: seq<SetClause>, r: Row, r': Row)
    requires IsAssigned(row, sets, r) && IsAssigned(r, sets, r')
    ensures IsAssigned(row, sets, r')
  {
  }

  /** The records after the assignments to each row of the list in turn. */
  ghost function SetAll(records: map<Rid, Row>, rids: seq<Rid>, sets: seq<SetClause>): (r: map<Rid, Row>)
    ensures r.Keys == records.Keys
  {
    if rids == [] then records
    else
      var done, rid := SetAll(records, rids[..|rids| - 1], sets), rids[|rids| - 1];
      if rid in done then done[rid := ApplySets(done[rid], sets)] else done
  }

  /** The listed records have the assigned values in the assigned columns and their old ones in the others;
      the other records are as they were. */
  ghost predicate Reassigned(before: map<Rid, Row>, rids: seq<Rid>, sets: seq<SetClause>, after: map<Rid, Row>) {
    && after.Keys == before.Keys
    && (forall rid <- before :: rid in rids ==> IsAssigned(before[rid], sets, after[rid]))
    && (forall rid <- before :: rid !in rids ==> after[rid] == before[rid])
  }

  lemma {:induction false} SetAllReassigns(records: map<Rid, Row>, rids: seq<Rid>, sets: seq<SetClause>)
    ensures Reassigned(records, rids, sets, SetAll(records, rids, sets))
  {
    hide IsAssigned, ApplySets;
    if rids != [] {
      var n := |rids| - 1;
      SetAllReassigns(records, rids[..n], sets);
      assert rids == rids[..n] + [rids[n]];
      var done := SetAll(records, rids[..n], sets);
      if rids[n] in rids[..n] && rids[n] in records {
        AssignedTwice(records[rids[n]], sets, done[rids[n]], ApplySets(done[rids[n]], sets));
      }
    }
  }

  lemma NoneReassigned(records: map<Rid, Row>, sets: seq<SetClause>)
    ensures Reassigned(records, [], sets, records)
  {
  }

  lemma SetOne(records: map<Rid, Row>, rid: Rid, sets: seq<SetClause>)
    requires rid in records
    ensures SetAll(records, [rid], sets) == records[rid := ApplySets(records[rid], sets)]
  {
    assert SetAll(records, [rid][..0], sets) == records;
  }

  /** What an update of one row answers. */
  ghost function UpdateOne(p: Plain, rid: Rid, sets: seq<SetClause>): UpdateResult {
    if rid !in p.records then NotThere
    else
      var i := FirstOccupied(p.records, p.keys, ApplySets(p.records[rid], sets), {rid});
      if i < |p.keys| then Clash(i) else Updated
  }

  /** What the update of the k-th row answers after the rows before it have been updated. */
  ghost function UpdateAt(p: Plain, rids: seq<Rid>, sets: seq<SetClause>, k: nat): UpdateResult
    requires k < |rids|
  {
    UpdateOne(p.(records := SetAll(p.records, rids[..k], sets)), rids[k], sets)
  }

  /** The first `k` rows are there and clash with no other row when their turn comes. */
  ghost predicate UpdatesUpTo(p: Plain, rids: seq<Rid>, sets: seq<SetClause>, k: nat)
    requires k <= |rids|
  {
    forall j :: 0 <= j < k ==> UpdateAt(p, rids, sets, j) == Updated
  }

  ghost predicate UpdateAnswers(p: Plain, rids: seq<Rid>, sets: seq<SetClause>, r: UpdateRowsResult) {
    match r
    case AllUpdated => UpdatesUpTo(p, rids, sets, |rids|)
    case NoRecord(k) => k < |rids| && UpdatesUpTo(p, rids, sets, k) && UpdateAt(p, rids, sets, k) == NotThere
    case ClashIn(k, i) => k < |rids| && UpdatesUpTo(p, rids, sets, k) && UpdateAt(p, rids, sets, k) == Clash(i)
  }

  /** There is one right answer to an update. */
  lemma UpdateAnswerIsUnique(p: Plain, rids: seq<Rid>, sets: seq<SetClause>, r: UpdateRowsResult, r': UpdateRowsResult)
    requires UpdateAnswers(p, rids, sets, r) && UpdateAnswers(p, rids, sets, r')
    ensures r == r'
  {
    hide UpdateAt;
  }

  ghost function RowsUpdated(rids: seq<Rid>, r: UpdateRowsResult): nat {
    match r
    case AllUpdated => |rids|
    case NoRecord(k) => k
    case ClashIn(k, _) => k
  }

  /** A key before the `n`-th differs between the two rows. */
  predicate KeyMoves(a: Row, b: Row, keys: seq<seq<nat>>, n: nat) {
    exists j :: 0 <= j < n && j < |keys| && !SameColumns(a, b, keys[j])
  }

  /** The update of one row stops at the key of another row behind a key that it has to change. */
  ghost predicate TearsOne(p: Plain, rid: Rid, sets: seq<SetClause>) {
    var r := UpdateOne(p, rid, sets);
    r.Clash? && KeyMoves(p.records[rid], ApplySets(p.records[rid], sets), p.keys, r.index)
  }

  /** The same for the first row of the list that cannot be updated. */
  ghost predicate Tears(p: Plain, rids: seq<Rid>, sets: seq<SetClause>) {
    exists k :: 0 <= k < |rids| && UpdatesUpTo(p, rids, sets, k) && TearsAt(p, rids, sets, k)
  }

  ghost predicate TearsAt(p: Plain, rids: seq<Rid>, sets: seq<SetClause>, k: nat)
    requires k < |rids|
  {
    TearsOne(p.(records := SetAll(p.records, rids[..k], sets)), rids[k], sets)
  }

  /** Where the update stopped decides whether it tears. */
  lemma TearsWhereStopped(p: Plain, rids: seq<Rid>, sets: seq<SetClause>, r: UpdateRowsResult)
    requires UpdateAnswers(p, rids, sets, r)
    ensures Tears(p, rids, sets) <==> r.ClashIn? && TearsAt(p, rids, sets, r.row)
  {
    hide UpdateOne;
    if k :| 0 <= k < |rids| && UpdatesUpTo(p, rids, sets, k) && TearsAt(p, rids, sets, k) {
      assert UpdateAt(p, rids, sets, k).Clash?;
      UpdateAnswerIsUnique(p, rids, sets, r, ClashIn(k, UpdateAt(p, rids, sets, k).index));
    }
  }

  /** Two keys, rows (1, 1) and (2, 2): setting the first to (3, 2) changes its first key and then
      meets the second row's second key. */
  lemma UpdateCanTear()
    ensures
      var a, b := Rid(1, 0), Rid(1, 1);
      var p := Plain(map[a := [1, 1], b := [2, 2]], [[0], [1]]);
      var sets := [SetClause(0, 3), SetClause(1, 2)];
      && (forall cols <- p.keys :: UniqueKeys(p.records, cols))
      && UpdateOne(p, a, sets) == Clash(1) && Tears(p, [a], sets)
  {
    hide IsAssigned;
    var a, b := Rid(1, 0), Rid(1, 1);
    var records := map[a := [1, 1], b := [2, 2]];
    var p, sets := Plain(records, [[0], [1]]), [SetClause(0, 3), SetClause(1, 2)];
    assert p.keys[0][0] == 0 && p.keys[1][0] == 1;
    assert sets[..1] == [SetClause(0, 3)];
    assert ApplySets([1, 1], sets[..1]) == [3, 1];
    assert ApplySets([1, 1], sets) == [3, 2];
    assert SameColumns(records[b], [3, 2], [1]);
    assert !SameColumns([1, 1], [3, 2], p.keys[0]) && !SameColumns(records[b], [3, 2], p.keys[0]);
    FirstIsUnique(records, p.keys, [3, 2], {a}, 1);
    assert SetAll(records, [a][..0], sets) == records;
    assert TearsAt(p, [a], sets, 0);
  }

  // ---------------------------------------------------------------- deletions

  /** The first `k` listed records are there, and listed once. */
  ghost predicate DeletesUpTo(p: Plain, rids: seq<Rid>, k: nat)
    requires k <= |rids|
  {
    forall j :: 0 <= j < k ==> rids[j] in p.records && rids[j] !in rids[..j]
  }

  ghost predicate DeleteAnswers(p: Plain, rids: seq<Rid>, r: DeleteResult) {
    match r
    case AllDeleted => DeletesUpTo(p, rids, |rids|)
    case NoSuchRecord(k) => k < |rids| && DeletesUpTo(p, rids, k) && (rids[k] !in p.records || rids[k] in rids[..k])
  }

  /** There is one right answer to a deletion. */
  lemma DeleteAnswerIsUnique(p: Plain, rids: seq<Rid>, r: DeleteResult, r': DeleteResult)
    requires DeleteAnswers(p, rids, r) && DeleteAnswers(p, rids, r')
    ensures r == r'
  {
  }

  ghost function RowsDeleted(rids: seq<Rid>, r: DeleteResult): nat {
    match r
    case AllDeleted => |rids|
    case NoSuchRecord(k) => k
  }

  ghost function Removed(records: map<Rid, Row>, rids: seq<Rid>): map<Rid, Row> {
    records - (set rid | rid in rids)
  }
}
