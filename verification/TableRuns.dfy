/**
 Every run of statements on a table: the answers and the records are those of a plain table with unique
 keys, and every index is the map from the records' keys to their places.
 */
module TableRuns {
  import opened Common
  import opened Conditions
  import opened PlainTable
  import opened RecordFile
  import opened TableStore

  datatype Statement = Insert(row: Row) | Delete(rids: seq<Rid>) | Update(rids: seq<Rid>, sets: seq<SetClause>)
    | Build(cols: seq<nat>, order: nat)

  datatype Answer = Inserted(insert: InsertResult) | Deleted(delete: DeleteResult)
    | Changed(update: UpdateRowsResult) | Indexed(build: BuildResult)

  /** Typed rows and values, columns that exist, an order that a page allows. */
  ghost predicate Typed(s: Statement, sizes: seq<nat>) {
    match s
    case Insert(row) => RowOk(row, sizes)
    case Delete(_) => true
    case Update(_, sets) => SetsOk(sets, sizes)
    case Build(cols, order) => 3 <= order && forall i :: 0 <= i < |cols| ==> cols[i] < |sizes|
  }

  /** What the plain table answers. The only choice is the place of a new record. */
  ghost predicate Answers(p: Plain, s: Statement, a: Answer) {
    match s
    case Insert(row) =>
      && a.Inserted?
      && (a.insert.DuplicateKey? <==> FirstOccupied(p.records, p.keys, row, {}) < |p.keys|)
      && (a.insert.Stored? ==> a.insert.rid !in p.records)
    case Delete(rids) => a.Deleted? && DeleteAnswers(p, rids, a.delete)
    case Update(rids, sets) => a.Changed? && UpdateAnswers(p, rids, sets, a.update)
    case Build(cols, _) =>
      a == Indexed(if cols in p.keys then IndexExists else if UniqueKeys(p.records, cols) then Built else KeysNotUnique)
  }

  /** What the plain table becomes. */
  ghost function After(p: Plain, s: Statement, a: Answer): (q: Plain)
    requires Answers(p, s, a)
    ensures s.Update? ==> Reassigned(p.records, s.rids[..RowsUpdated(s.rids, a.update)], s.sets, q.records)
  {
    hide Reassigned;
    match s
    case Insert(row) => if a.insert.Stored? then p.(records := p.records[a.insert.rid := row]) else p
    case Delete(rids) => p.(records := Removed(p.records, rids[..RowsDeleted(rids, a.delete)]))
    case Update(rids, sets) =>
      var done := rids[..RowsUpdated(rids, a.update)];
      SetAllReassigns(p.records, done, sets);
      p.(records := SetAll(p.records, done, sets))
    case Build(cols, _) => if a.build.Built? then p.(keys := p.keys + [cols]) else p
  }

  /** An update gives each record it reaches the value of the last clause on each column, and changes nothing
      else. */
  ghost predicate Assigns(p: Plain, s: Statement, a: Answer, q: Plain) {
    s.Update? ==>
      && a.Changed? && RowsUpdated(s.rids, a.update) <= |s.rids| && q.keys == p.keys
      && Reassigned(p.records, s.rids[..RowsUpdated(s.rids, a.update)], s.sets, q.records)
  }

  lemma UpdateAssigns(p: Plain, s: Statement, a: Answer)
    requires Answers(p, s, a)
    ensures Assigns(p, s, a, After(p, s, a))
  {
  }

  /** The statement is an update that leaves the indexes out of step with the records. */
  ghost predicate Torn(p: Plain, s: Statement) {
    s.Update? && Tears(p, s.rids, s.sets)
  }

  /** Whether an update that stopped at the key of another row had changed a key before. */
  method HasTorn(t: Table, rids: seq<Rid>, sets: seq<SetClause>, r: UpdateRowsResult, ghost p: Plain)
      returns (torn: bool)
    requires t.Sound() && UpdateAnswers(p, rids, sets, r) && KeyColumns(t.indexes) == p.keys
    requires t.file.records == SetAll(p.records, rids[..RowsUpdated(rids, r)], sets)
    ensures torn <==> Tears(p, rids, sets)
  {
    hide RmFileHandle.Valid, ApplySets, IsAssigned, SameColumns, SetAll, FirstOccupied;
    TearsWhereStopped(p, rids, sets, r);
    if !r.ClashIn? {
      return false;
    }
    var rec := t.file.GetRecord(rids[r.row]);
    var row := SetColumns(rec.value, sets);
    torn := exists j :: 0 <= j < r.index && j < |t.indexes| && !SameColumns(rec.value, row, t.indexes[j].cols);
  }

  /** One statement. */
  method Perform(t: Table, s: Statement) returns (a: Answer, torn: bool)
    requires t.Valid() && Typed(s, t.sizes)
    modifies t, t.file, t.Handles(), t.Pools()
    ensures Answers(old(t.View()), s, a) && t.View() == After(old(t.View()), s, a)
    ensures torn <==> Torn(old(t.View()), s)
    ensures t.Valid() <==> !torn
    ensures fresh(t.Handles() - old(t.Handles())) && fresh(t.Pools() - old(t.Pools()))
  {
    hide Table.Valid, Table.Sound, FirstOccupied, UniqueKeys, UpdateAnswers, DeleteAnswers, Tears;
    ghost var p := t.View();
    torn := false;
    match s {
      case Insert(row) =>
        var r := t.InsertRow(row);
        a := Inserted(r);
      case Delete(rids) =>
        var r := t.DeleteRows(rids);
        a := Deleted(r);
      case Update(rids, sets) =>
        var r := t.UpdateRows(rids, sets);
        torn := HasTorn(t, rids, sets, r, p);
        a := Changed(r);
      case Build(cols, order) =>
        var r := t.CreateIndex(cols, order, 3);
        a := Indexed(r);
    }
  }

  /** The answers of a run and the plain table between its statements. */
  ghost predicate Ran(statements: seq<Statement>, answers: seq<Answer>, states: seq<Plain>) {
    && |answers| <= |statements| && |states| == |answers| + 1 && states[0] == Plain(map[], [])
    && (forall k :: 0 <= k < |answers| ==>
          Answers(states[k], statements[k], answers[k]) && states[k + 1] == After(states[k], statements[k], answers[k]))
    && (forall k :: 0 <= k < |answers| - 1 ==> !Torn(states[k], statements[k]))
  }

  /** Every run from the empty table, up to an update that tears it, answers as the plain table does and
      has, after each statement, every index in agreement with the records. */
  method Run(sizes: seq<nat>, perPage: nat, zero: Row, statements: seq<Statement>)
    returns (t: Table, answers: seq<Answer>, ghost states: seq<Plain>)
    requires 1 <= perPage && forall s <- statements :: Typed(s, sizes)
    ensures Ran(statements, answers, states) && states[|answers|] == t.View()
    ensures forall k :: 0 <= k < |answers| ==> Assigns(states[k], statements[k], answers[k], states[k + 1])
    ensures |answers| < |statements| ==> answers != [] && Torn(states[|answers| - 1], statements[|answers| - 1])
    ensures t.Valid() <==> answers == [] || !Torn(states[|answers| - 1], statements[|answers| - 1])
  {
    hide Table.Valid, Table.Sound, Answers, After, Typed, Torn, Assigns;
    t := new Table(sizes, perPage, zero);
    answers, states := [], [t.View()];
    var torn := false;
    while |answers| < |statements|
      invariant fresh(t) && fresh(t.file) && fresh(t.Handles()) && fresh(t.Pools()) && t.sizes == sizes
      invariant t.Valid() && Ran(statements, answers, states) && states[|answers|] == t.View()
      invariant forall k :: 0 <= k < |answers| ==> Assigns(states[k], statements[k], answers[k], states[k + 1])
      invariant answers != [] ==> !Torn(states[|answers| - 1], statements[|answers| - 1])
      decreases |statements| - |answers|
    {
      assert statements[|answers|] in statements;
      var a;
      a, torn := Perform(t, statements[|answers|]);
      UpdateAssigns(states[|answers|], statements[|answers|], a);
      answers, states := answers + [a], states + [t.View()];
      if torn {
        return;
      }
    }
  }
}
