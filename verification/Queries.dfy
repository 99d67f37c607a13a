/**
 A planned query answers the query: the planner and the executors together yield one record per row of
 the cross product of the tables that satisfies all conditions and that no index scan has lost, and
 nothing else.
 */
module Queries {
  import opened Common
  import opened Conditions
  import opened JoinPlans
  import opened TableScan
  import opened NestedLoop
  import opened PlanMeaning
  import opened PlanBuilding
  import opened Planner

  ghost predicate ColumnsExist(db: Database, cond: Cond) {
    (cond.lhs.LhsColumn? ==> cond.lhs.column.tab in db && cond.lhs.column.col in db[cond.lhs.column.tab].cols) &&
    (cond.rhs.RhsColumn? ==> cond.rhs.column.tab in db && cond.rhs.column.col in db[cond.rhs.column.tab].cols)
  }

  lemma CondsExist(db: Database, tables: multiset<string>, conds: seq<Cond>)
    requires forall cond <- conds :: Speaks(db, tables, cond)
    ensures forall cond <- Both(conds) :: ColumnsExist(db, cond)
  {
    hide Both;
    forall cond | cond in Both(conds)
      ensures ColumnsExist(db, cond)
    {
      InBoth(conds, cond);
    }
  }

  /** The joins of a plan that is the right way round find all their columns. */
  lemma {:induction false} OrientedSpeaks(db: Database, plan: Plan)
    requires Oriented(plan) && forall cond <- CondsOf(plan) :: ColumnsExist(db, cond)
    ensures JoinsSpeak(db, plan)
  {
    hide Both;
    forall cond | cond in plan.conds
      ensures cond in CondsOf(plan)
    {
      InBoth(plan.conds, cond);
    }
    if plan.Join? {
      OrientedSpeaks(db, plan.left);
      OrientedSpeaks(db, plan.right);
    }
  }

  /** The indexes of all tables are well formed and the values in the conditions have their types. */
  ghost predicate AllIndexed(db: Database, tables: multiset<string>, conds: seq<Cond>) {
    forall t <- tables :: t in db && Indexed(db[t], t, conds)
  }

  /** Every table's scan can read the range that it reads. */
  ghost predicate AllRead(db: Database, tables: multiset<string>, conds: seq<Cond>)
    requires AllIndexed(db, tables, conds)
  {
    forall t <- tables :: Reads(db[t], t, conds)
  }

  /** The choice uses no row that its table's scan loses. */
  ghost predicate NoneLost(db: Database, tables: multiset<string>, conds: seq<Cond>, c: Choice) {
    forall t <- tables :: t in c && t in db ==> !Lost(db[t], t, conds, c[t])
  }

  lemma {:induction false} PlanIsPrepared(db: Database, plan: Plan, conds: seq<Cond>)
    requires HasValueConds(plan, conds) && AllIndexed(db, TablesOf(plan), conds)
    ensures Prepared(db, plan)
  {
    hide Indexed, ValueConds;
    if plan.Join? {
      assert forall t :: t in TablesOf(plan.left) || t in TablesOf(plan.right) ==> t in TablesOf(plan);
      PlanIsPrepared(db, plan.left, conds);
      PlanIsPrepared(db, plan.right, conds);
    } else {
      assert plan.tab in TablesOf(plan);
      SameUse(db[plan.tab], plan.tab, plan.conds, conds);
    }
  }

  lemma {:induction false} KeepsMeansNoneLost(db: Database, plan: Plan, conds: seq<Cond>, c: Choice)
    requires HasValueConds(plan, conds) && Prepared(db, plan)
    ensures Keeps(db, plan, c) <==> NoneLost(db, TablesOf(plan), conds, c)
  {
    hide Indexed, ValueConds, Lost;
    if plan.Join? {
      KeepsMeansNoneLost(db, plan.left, conds, c);
      KeepsMeansNoneLost(db, plan.right, conds, c);
      assert forall t :: t in TablesOf(plan) <==> t in TablesOf(plan.left) || t in TablesOf(plan.right);
    } else {
      assert forall t :: t in TablesOf(plan) <==> t == plan.tab;
      SameUse(db[plan.tab], plan.tab, plan.conds, conds);
    }
  }

  /** A plan whose scans have all their columns and can read their ranges does not fail. */
  lemma {:induction false} PlanSucceeds(db: Database, plan: Plan, conds: seq<Cond>)
    requires WellFormed(db) && Prepared(db, plan) && HasValueConds(plan, conds) && Clean(plan)
    requires forall cond <- CondsOf(plan) :: ColumnsExist(db, cond)
    requires AllIndexed(db, TablesOf(plan), conds) && AllRead(db, TablesOf(plan), conds)
    ensures Yields(db, plan).Some?
  {
    hide Indexed, ValueConds, Both, Scanned, Reads, JoinPairs, ColumnsExist, OwnsAll, WellFormed;
    if plan.Join? {
      assert forall t :: t in TablesOf(plan.left) || t in TablesOf(plan.right) ==> t in TablesOf(plan);
      PlanSucceeds(db, plan.left, conds);
      PlanSucceeds(db, plan.right, conds);
    } else {
      CleanScanSucceeds(db, plan, conds);
    }
  }

  lemma CleanScanSucceeds(db: Database, plan: Plan, conds: seq<Cond>)
    requires WellFormed(db) && plan.Scan? && Prepared(db, plan) && HasValueConds(plan, conds) && Clean(plan)
    requires forall cond <- CondsOf(plan) :: ColumnsExist(db, cond)
    requires AllIndexed(db, TablesOf(plan), conds) && AllRead(db, TablesOf(plan), conds)
    ensures Scanned(db[plan.tab], plan.tab, plan.conds).Some?
  {
    hide Indexed, ValueConds, Both, Scanned, Reads, ColumnsExist, InTable, Own;
    var tab, rel := plan.tab, db[plan.tab];
    assert tab in TablesOf(plan) && Rectangular(rel);
    SameUse(rel, tab, plan.conds, conds);
    forall cond | cond in plan.conds
      ensures InTable(tab, rel, cond)
    {
      InBoth(plan.conds, cond);
      OwnIsInTable(db, tab, cond);
    }
    ScanSucceeds(rel, tab, plan.conds);
  }

  lemma OwnIsInTable(db: Database, tab: string, cond: Cond)
    requires tab in db && Own(tab, cond) && ColumnsExist(db, cond)
    ensures InTable(tab, db[tab], cond)
  {
    var cols := db[tab].cols;
    forall col: Column | col.tab == tab && col.col in cols
      ensures col in Named(tab, cols)
    {
      var i :| 0 <= i < |cols| && cols[i] == col.col;
      assert Named(tab, cols)[i] == col;
    }
  }

  /** The choices are those that satisfy the query and use no lost row, each once. */
  ghost predicate Lists(db: Database, tables: seq<string>, conds: seq<Cond>, choices: seq<Choice>) {
    Unique(choices) &&
    forall c :: c in choices <==>
      Denotes(db, multiset(tables), multiset(conds), c) && NoneLost(db, multiset(tables), conds, c)
  }

  /** The list is the whole answer iff no row of the answer is lost. */
  lemma LostRowsDecide(db: Database, tables: seq<string>, conds: seq<Cond>, choices: seq<Choice>)
    requires Lists(db, tables, conds, choices)
    ensures (forall c :: c in choices <==> Denotes(db, multiset(tables), multiset(conds), c)) <==>
            (forall c :: Denotes(db, multiset(tables), multiset(conds), c) ==> NoneLost(db, multiset(tables), conds, c))
  {
    hide Denotes, NoneLost;
    forall c
      ensures c in choices <==>
        Denotes(db, multiset(tables), multiset(conds), c) && NoneLost(db, multiset(tables), conds, c)
    {
    }
  }

  /** A choice that is left out uses a lost row or makes some condition false. */
  lemma LeftOutFails(db: Database, tables: seq<string>, conds: seq<Cond>, choices: seq<Choice>, c: Choice)
    requires Lists(db, tables, conds, choices) && ChoosesFrom(c, multiset(tables)) && InRange(db, c)
    ensures c !in choices <==>
      || (exists i :: 0 <= i < |conds| && !Holds(db, c, conds[i]))
      || (exists t <- tables :: Lost(db[t], t, conds, c[t]))
  {
    hide Holds, Lost;
    assert forall t :: t in multiset(tables) <==> t in tables;
    assert forall x :: x in multiset(conds) <==> x in conds;
    if c !in choices && NoneLost(db, multiset(tables), conds, c) {
      var x :| x in conds && !Holds(db, c, x);
      var i :| 0 <= i < |conds| && conds[i] == x;
    }
  }

  /** What the choices of a plan mean for the query. */
  lemma ExactIsListed(db: Database, tables: seq<string>, conds: seq<Cond>, plan: Plan, cs: seq<Choice>)
    requires Prepared(db, plan) && Exact(db, plan, cs) && HasValueConds(plan, conds)
    requires TablesOf(plan) == multiset(tables) && CondsOf(plan) == Both(conds)
    ensures Lists(db, tables, conds, cs)
  {
    hide AllHold, Both, Lost, Keeps, HasValueConds, Prepared, InRange;
    forall c
      ensures c in cs <==> Denotes(db, multiset(tables), multiset(conds), c) && NoneLost(db, multiset(tables), conds, c)
    {
      if ChoosesFrom(c, TablesOf(plan)) && InRange(db, c) {
        assert Restrict(c, TablesOf(plan)) == c && Chooses(db, c, TablesOf(plan));
        BothHold(db, c, conds);
        KeepsMeansNoneLost(db, plan, conds, c);
      }
    }
  }

  lemma DistinctIsOnce(tables: seq<string>)
    requires Distinct(tables)
    ensures Once(multiset(tables))
  {
    forall t
      ensures multiset(tables)[t] <= 1
    {
      if t in tables {
        DistinctOnce(tables, t);
      }
    }
  }

  /** A plan with every table and every condition once, the right way round: when its scans have all their
      columns and can read their ranges it does not fail, and when it does not fail it yields exactly the
      records of the choices that satisfy the query and use no lost row. */
  lemma PlanAnswersQuery(db: Database, tables: seq<string>, conds: seq<Cond>, plan: Plan)
    requires WellFormed(db) && Distinct(tables) && AllIndexed(db, multiset(tables), conds)
    requires forall cond <- conds :: Speaks(db, multiset(tables), cond)
    requires TablesOf(plan) == multiset(tables) && CondsOf(plan) == Both(conds)
    requires Oriented(plan) && HasValueConds(plan, conds)
    ensures Prepared(db, plan)
    ensures Clean(plan) && AllRead(db, multiset(tables), conds) ==> Run(db, plan).Some?
    ensures Run(db, plan).Some? ==>
      var cs := Yields(db, plan);
      cs.Some? && Run(db, plan) == Some(RecordsOf(db, plan, cs.value)) && Lists(db, tables, conds, cs.value)
  {
    hide Both, Run, RecordsOf, Yields, AllHold, ChoosesFrom, Exact;
    hide Lists, WellFormed, Speaks, Indexed, Reads, ColumnsExist;
    CondsExist(db, multiset(tables), conds);
    OrientedSpeaks(db, plan);
    DistinctIsOnce(tables);
    PlanIsPrepared(db, plan, conds);
    if Clean(plan) && AllRead(db, multiset(tables), conds) {
      PlanSucceeds(db, plan, conds);
    }
    RunYields(db, plan);
    if Run(db, plan).Some? {
      YieldsExact(db, plan);
      ExactIsListed(db, tables, conds, plan, Yields(db, plan).value);
    }
  }

  // ---- Records ---------------------------------------------------------------------------------------------

  /** The record shows one choice of rows: every column, found by name, has its row's value. */
  ghost predicate Shows(db: Database, tables: seq<string>, cols: seq<Column>, rec: Row, choice: Choice) {
    forall c :: Known(db, multiset(tables), c) ==> Lookup(cols, rec, c) == Value(db, choice, c)
  }

  ghost predicate ShowsAll(db: Database, tables: seq<string>, cols: seq<Column>, rows: seq<Row>, choices: seq<Choice>) {
    |rows| == |choices| && forall k :: 0 <= k < |rows| ==> Shows(db, tables, cols, rows[k], choices[k])
  }

  /** One record for each choice of rows that satisfies the query and uses no lost row, and no other record. */
  ghost predicate Answers(db: Database, tables: seq<string>, conds: seq<Cond>, cols: seq<Column>, rows: seq<Row>) {
    exists choices: seq<Choice> :: Lists(db, tables, conds, choices) && ShowsAll(db, tables, cols, rows, choices)
  }

  lemma RecordShows(db: Database, tables: seq<string>, plan: Plan, conds: multiset<Cond>, choice: Choice)
    requires WellFormed(db) && Covers(db, plan) && TablesOf(plan) == multiset(tables)
    requires Denotes(db, multiset(tables), conds, choice)
    ensures Shows(db, tables, ColsOf(db, plan), RecordOf(db, plan, choice), choice)
  {
    hide ColsOf, RecordOf, Lookup, Value, AllHold;
    assert Picks(db, plan, choice);
    forall c | Known(db, multiset(tables), c)
      ensures Lookup(ColsOf(db, plan), RecordOf(db, plan, choice), c) == Value(db, choice, c)
    {
      ColumnInRecord(db, plan, choice, c);
    }
  }

  /** Plans and runs a query. It fails, or it answers with every satisfying choice of rows except those that use
      a row lost by an index scan. It can fail only when a condition compares two columns of a table other than
      the first, or an index scan cannot read its range. */
  method Answer(db: Database, tables: seq<string>, conds: seq<Cond>) returns (cols: seq<Column>, rows: Option<seq<Row>>)
    requires WellFormed(db) && |tables| > 0 && Distinct(tables) && "" !in tables
    requires AllIndexed(db, multiset(tables), conds)
    requires forall cond <- conds :: Resolved(tables, cond) && Speaks(db, multiset(tables), cond)
    ensures rows.Some? ==> Answers(db, tables, conds, cols, rows.value)
    ensures (forall cond <- conds :: !Stray(tables, cond)) && AllRead(db, multiset(tables), conds) ==> rows.Some?
  {
    hide Run, Yields, RecordOf, Both, Denotes, AllIndexed, AllRead, WellFormed, NoneLost;
    var root := MakeOneRel(tables, conds, true, false);
    var plan := root.value.Value();
    PlanAnswersQuery(db, tables, conds, plan);
    PreparedCovers(db, plan);
    rows := RunPlan(db, plan);
    cols := ColsOf(db, plan);
    if rows.Some? {
      ghost var choices := Yields(db, plan).value;
      forall k | 0 <= k < |choices|
        ensures Shows(db, tables, cols, rows.value[k], choices[k])
      {
        assert choices[k] in choices;
        RecordShows(db, tables, plan, multiset(conds), choices[k]);
      }
      assert Lists(db, tables, conds, choices) && ShowsAll(db, tables, cols, rows.value, choices);
    }
  }
}
