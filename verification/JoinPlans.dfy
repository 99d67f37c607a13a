/**
 Join plans, the rows they name and the conditions they carry.

 A database gives, per table, its columns, its rows in the order in which a sequential scan visits them,
 and its indexes. A choice picks one row number per table. A query denotes the choices that satisfy all
 its conditions; a plan lays the chosen rows side by side in one record and finds columns by name.
 */
module JoinPlans {
  import opened Conditions
  import opened Common

  datatype Column = Column(tab: string, col: string)

  datatype Lhs = LhsColumn(column: Column) | LhsValue(value: nat)

  /** NoRow stands for a scalar subquery without a row: no comparison with it holds. */
  datatype Rhs = RhsColumn(column: Column) | RhsValue(value: nat) | RhsSet(values: seq<nat>) | NoRow

  datatype Cond = Cond(lhs: Lhs, op: CompOp, rhs: Rhs)

  datatype Plan = Scan(tab: string, conds: seq<Cond>) | Join(left: Plan, right: Plan, conds: seq<Cond>)

  /** An index as a scan sees it: its columns with the number of codes of each, the rows in key order, and
      which key ranges can be read. */
  datatype Path = Path(cols: seq<nat>, sizes: seq<nat>, byKey: seq<nat>, readable: (int, int) -> bool)

  datatype Relation = Relation(cols: seq<string>, rows: seq<Row>, paths: seq<Path>)

  type Database = map<string, Relation>

  type Choice = map<string, nat>

  ghost predicate Rectangular(relation: Relation) {
    forall row <- relation.rows :: |row| == |relation.cols|
  }

  ghost predicate WellFormed(db: Database) {
    forall t <- db :: Rectangular(db[t])
  }

  // ---- Conditions -----------------------------------------------------------------------------

  /** The comparison the other way round. */
  function SwapOp(op: CompOp): CompOp {
    match op
    case EQ => EQ
    case NE => NE
    case LT => GT
    case GT => LT
    case LE => GE
    case GE => LE
  }

  /** A comparison of two columns with its sides exchanged; any other condition as it is. */
  function Flip(cond: Cond): Cond {
    match cond
    case Cond(LhsColumn(l), op, RhsColumn(r)) => Cond(LhsColumn(r), SwapOp(op), RhsColumn(l))
    case _ => cond
  }

  function Flipped(conds: seq<Cond>): (r: seq<Cond>)
    ensures |r| == |conds| && forall i :: 0 <= i < |conds| ==> r[i] == Flip(conds[i])
  {
    seq(|conds|, i requires 0 <= i < |conds| => Flip(conds[i]))
  }

  /** The conditions, each in both its orientations: equal for two lists iff they hold the same
      conditions equally often up to exchanging sides. */
  function Both(conds: seq<Cond>): multiset<Cond> {
    multiset(conds) + multiset(Flipped(conds))
  }

  /** What a condition says of the values of its two sides; None when a column it needs is missing. */
  function Judge(cond: Cond, l: Option<nat>, r: Option<nat>): Option<bool> {
    if cond.rhs.NoRow? then Some(false)
    else if l.None? then None
    else match cond.rhs
      case RhsSet(values) => Some(l.value in values)
      case RhsValue(v) => Some(CompareResult(l.value - v, cond.op))
      case RhsColumn(_) => if r.None? then None else Some(CompareResult(l.value - r.value, cond.op))
  }

  // ---- Records of a plan ------------------------------------------------------------------------

  /** The field of the first column with this name. */
  function Lookup(cols: seq<Column>, rec: Row, c: Column): Option<nat> {
    if cols == [] || rec == [] then None
    else if cols[0] == c then Some(rec[0])
    else Lookup(cols[1..], rec[1..], c)
  }

  /** By place: the value found is that of the first column with the name. */
  lemma {:induction false} LookupByPlace(cols: seq<Column>, rec: Row, c: Column, i: nat)
    ensures i < |cols| && i < |rec| && cols[i] == c && c !in cols[..i] ==> Lookup(cols, rec, c) == Some(rec[i])
    ensures (forall j :: 0 <= j < |cols| && j < |rec| ==> cols[j] != c) ==> Lookup(cols, rec, c) == None
  {
    if cols != [] && rec != [] && cols[0] != c {
      LookupByPlace(cols[1..], rec[1..], c, if i == 0 then 0 else i - 1);
      assert i > 0 && i < |cols| && c !in cols[..i] ==> forall x :: x in cols[1..][..i - 1] ==> x in cols[..i];
    }
  }

  function EvalOne(cols: seq<Column>, rec: Row, cond: Cond): Option<bool> {
    Judge(cond,
          match cond.lhs case LhsColumn(c) => Lookup(cols, rec, c) case LhsValue(v) => Some(v),
          match cond.rhs case RhsColumn(c) => Lookup(cols, rec, c) case _ => None)
  }

  /** Stops at the first condition that fails or lacks a column. */
  function EvalAll(cols: seq<Column>, rec: Row, conds: seq<Cond>): Option<bool> {
    if conds == [] then Some(true)
    else
      var first := EvalOne(cols, rec, conds[0]);
      if first == Some(true) then EvalAll(cols, rec, conds[1..]) else first
  }

  /** The columns of a scan's records. */
  function Named(tab: string, cols: seq<string>): (r: seq<Column>)
    ensures |r| == |cols| && forall i :: 0 <= i < |cols| ==> r[i] == Column(tab, cols[i])
  {
    seq(|cols|, i requires 0 <= i < |cols| => Column(tab, cols[i]))
  }

  function TablesOf(plan: Plan): multiset<string> {
    match plan
    case Scan(tab, _) => multiset{tab}
    case Join(left, right, _) => TablesOf(left) + TablesOf(right)
  }

  /** All conditions of a plan, in both orientations. */
  function CondsOf(plan: Plan): multiset<Cond> {
    match plan
    case Scan(_, conds) => Both(conds)
    case Join(left, right, conds) => CondsOf(left) + CondsOf(right) + Both(conds)
  }

  ghost predicate Once(tables: multiset<string>) {
    forall t :: tables[t] <= 1
  }

  ghost predicate Covers(db: Database, plan: Plan) {
    forall t <- TablesOf(plan) :: t in db
  }

  function ColsOf(db: Database, plan: Plan): seq<Column>
    requires Covers(db, plan)
  {
    match plan
    case Scan(tab, _) => assert tab in TablesOf(plan); Named(tab, db[tab].cols)
    case Join(left, right, _) =>
      CoversBoth(db, plan);
      ColsOf(db, left) + ColsOf(db, right)
  }

  lemma CoversBoth(db: Database, plan: Plan)
    requires Covers(db, plan) && plan.Join?
    ensures Covers(db, plan.left) && Covers(db, plan.right)
  {
    assert forall t <- TablesOf(plan.left) :: t in TablesOf(plan);
    assert forall t <- TablesOf(plan.right) :: t in TablesOf(plan);
  }

  // ---- What a query denotes ---------------------------------------------------------------------

  ghost predicate InRange(db: Database, choice: Choice) {
    forall t <- choice :: t in db && choice[t] < |db[t].rows|
  }

  ghost function Value(db: Database, choice: Choice, c: Column): Option<nat> {
    if c.tab in choice && c.tab in db && choice[c.tab] < |db[c.tab].rows| then
      Lookup(Named(c.tab, db[c.tab].cols), db[c.tab].rows[choice[c.tab]], c)
    else None
  }

  ghost function Left(db: Database, choice: Choice, cond: Cond): Option<nat> {
    match cond.lhs
    case LhsColumn(c) => Value(db, choice, c)
    case LhsValue(v) => Some(v)
  }

  /** The condition is true of the chosen rows. IN holds of the members of its list, a comparison of the values
      that stand in the relation of its operator. */
  ghost predicate Holds(db: Database, choice: Choice, cond: Cond) {
    var l := Left(db, choice, cond);
    match cond.rhs
    case NoRow => false
    case RhsSet(values) => l.Some? && exists i :: 0 <= i < |values| && values[i] == l.value
    case RhsValue(v) => l.Some? && Relates(l.value, cond.op, v)
    case RhsColumn(c) =>
      var r := Value(db, choice, c);
      l.Some? && r.Some? && Relates(l.value, cond.op, r.value)
  }

  ghost predicate AllHold(db: Database, choice: Choice, conds: multiset<Cond>) {
    forall cond <- conds :: Holds(db, choice, cond)
  }

  ghost predicate ChoosesFrom(choice: Choice, tables: multiset<string>) {
    forall t :: t in choice <==> t in tables
  }

  /** A member of the cross product of `tables` that satisfies every condition. */
  ghost predicate Denotes(db: Database, tables: multiset<string>, conds: multiset<Cond>, choice: Choice) {
    ChoosesFrom(choice, tables) && InRange(db, choice) && AllHold(db, choice, conds)
  }

  /** The column exists in one of `tables`. */
  ghost predicate Known(db: Database, tables: multiset<string>, c: Column) {
    c.tab in tables && c.tab in db && c.col in db[c.tab].cols
  }

  /** The columns of the condition exist in `tables`. */
  ghost predicate Speaks(db: Database, tables: multiset<string>, cond: Cond) {
    (cond.lhs.LhsColumn? ==> Known(db, tables, cond.lhs.column)) &&
    (cond.rhs.RhsColumn? ==> Known(db, tables, cond.rhs.column))
  }
}
