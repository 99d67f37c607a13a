/**
 The nested-loop join and the execution of a plan.

 An input is the list of the records it yields. A condition on a column that no input has makes the
 query fail, and so does an index scan that cannot read its range; a failure is None.
 */
module NestedLoop {
  import opened Common
  import opened Conditions
  import opened JoinPlans
  import opened TableScan

  /** Puts a record before the rest of an output. */
  function Before(rec: Row, rest: Option<seq<Row>>): Option<seq<Row>> {
    if rest.None? then None else Some([rec] + rest.value)
  }

  /** What has been read, followed by the rest of an output. */
  ghost function After(rows: seq<Row>, rest: Option<seq<Row>>): Option<seq<Row>> {
    if rest.None? then None else Some(rows + rest.value)
  }

  lemma ReadOne(rows: seq<Row>, rec: Row, rest: Option<seq<Row>>)
    ensures After(rows, Before(rec, rest)) == After(rows + [rec], rest)
  {
    assert rest.Some? ==> rows + ([rec] + rest.value) == rows + [rec] + rest.value;
  }

  /** The output from left record `i` and right record `j` on: right records run downwards. */
  function JoinedFrom(left: seq<Row>, right: seq<Row>, cols: seq<Column>, conds: seq<Cond>, i: nat,
                      j: int): Option<seq<Row>>
    requires j < |right|
    decreases |left| - i, j + 1
  {
    if i >= |left| then Some([])
    else if j < 0 then JoinedFrom(left, right, cols, conds, i + 1, |right| - 1)
    else match EvalAll(cols, left[i] + right[j], conds)
      case None => None
      case Some(hit) =>
        var rest := JoinedFrom(left, right, cols, conds, i, j - 1);
        if hit then Before(left[i] + right[j], rest) else rest
  }

  function Joined(left: seq<Row>, right: seq<Row>, cols: seq<Column>, conds: seq<Cond>): Option<seq<Row>> {
    JoinedFrom(left, right, cols, conds, 0, |right| - 1)
  }

  /** The indexes of the plan's tables are well formed and fit the conditions of their scans. */
  ghost predicate Prepared(db: Database, plan: Plan) {
    match plan
    case Scan(tab, conds) => tab in db && Indexed(db[tab], tab, conds)
    case Join(left, right, _) => Prepared(db, left) && Prepared(db, right)
  }

  function RowsAt(rows: seq<Row>, ks: seq<nat>): (r: seq<Row>)
    requires forall i :: 0 <= i < |ks| ==> ks[i] < |rows|
    ensures |r| == |ks| && forall i :: 0 <= i < |ks| ==> r[i] == rows[ks[i]]
  {
    seq(|ks|, i requires 0 <= i < |ks| => rows[ks[i]])
  }

  lemma {:induction false} PreparedCovers(db: Database, plan: Plan)
    requires Prepared(db, plan)
    ensures Covers(db, plan)
  {
    if plan.Join? {
      PreparedCovers(db, plan.left);
      PreparedCovers(db, plan.right);
      assert forall t <- TablesOf(plan) :: t in TablesOf(plan.left) || t in TablesOf(plan.right);
    }
  }

  /** The records of a plan. A join with no right record does not start its left input. */
  ghost function Run(db: Database, plan: Plan): Option<seq<Row>>
    requires Prepared(db, plan)
  {
    match plan
    case Scan(tab, conds) =>
      var ks := Scanned(db[tab], tab, conds);
      if ks.None? then None
      else
        ScanIsUnique(db[tab], tab, conds);
        Some(RowsAt(db[tab].rows, ks.value))
    case Join(left, right, conds) =>
      PreparedCovers(db, plan);
      var rs := Run(db, right);
      if rs.None? then None
      else if rs.value == [] then Some([])
      else
        var ls := Run(db, left);
        if ls.None? then None else Joined(ls.value, rs.value, ColsOf(db, plan), conds)
  }

  /** A join whose right input is empty is empty, whatever its left input would do. */
  lemma EmptyRight(db: Database, plan: Plan)
    requires Prepared(db, plan) && plan.Join? && Run(db, plan.right) == Some([])
    ensures Run(db, plan) == Some([])
  {
  }

  class NestedLoopJoin {
    const left: seq<Row>
    const right: seq<Row>
    const cols: seq<Column>
    const conds: seq<Cond>
    var leftPos: nat
    var rightPos: int
    var isEnd: bool

    /** Stopped at a pair of records that satisfies the conditions, or ended. */
    ghost predicate Valid()
      reads this
    {
      !isEnd ==> leftPos < |left| && 0 <= rightPos < |right| &&
                 EvalAll(cols, left[leftPos] + right[rightPos], conds) == Some(true)
    }

    /** The output that is still to come. */
    ghost function Remaining(): Option<seq<Row>>
      requires Valid()
      reads this
    {
      if isEnd then Some([]) else JoinedFrom(left, right, cols, conds, leftPos, rightPos)
    }

    constructor (left: seq<Row>, right: seq<Row>, cols: seq<Column>, conds: seq<Cond>)
      ensures this.left == left && this.right == right && this.cols == cols && this.conds == conds
    {
      this.left, this.right, this.cols, this.conds := left, right, cols, conds;
      isEnd := false;
    }

    /** Moves to the next pair that satisfies the conditions; fails on a missing column. */
    method AdvanceToMatch() returns (ok: bool)
      requires leftPos < |left| && -1 <= rightPos < |right|
      modifies this`leftPos, this`rightPos, this`isEnd
      ensures ok ==> Valid() && Remaining() == JoinedFrom(left, right, cols, conds, old(leftPos), old(rightPos))
      ensures !ok ==> JoinedFrom(left, right, cols, conds, old(leftPos), old(rightPos)) == None
      ensures ok && !isEnd ==> leftPos > old(leftPos) || (leftPos == old(leftPos) && rightPos <= old(rightPos))
    {
      isEnd := false;
      while true
        invariant leftPos < |left| && -1 <= rightPos < |right| && !isEnd
        invariant leftPos > old(leftPos) || (leftPos == old(leftPos) && rightPos <= old(rightPos))
        invariant JoinedFrom(left, right, cols, conds, old(leftPos), old(rightPos)) ==
                  JoinedFrom(left, right, cols, conds, leftPos, rightPos)
        decreases |left| - leftPos
      {
        var l := leftPos;
        while rightPos >= 0
          invariant leftPos < |left| && -1 <= rightPos < |right| && !isEnd && leftPos == l
          invariant leftPos > old(leftPos) || (leftPos == old(leftPos) && rightPos <= old(rightPos))
          invariant JoinedFrom(left, right, cols, conds, old(leftPos), old(rightPos)) ==
                    JoinedFrom(left, right, cols, conds, leftPos, rightPos)
        {
          var hit := EvalAll(cols, left[leftPos] + right[rightPos], conds);
          if hit.None? {
            return false;
          }
          if hit.value {
            return true;
          }
          rightPos := rightPos - 1;
        }
        leftPos := leftPos + 1;
        if leftPos >= |left| {
          isEnd := true;
          return true;
        }
        rightPos := |right| - 1;
      }
    }

    method BeginTuple() returns (ok: bool)
      modifies this`leftPos, this`rightPos, this`isEnd
      ensures ok ==> Valid() && Remaining() == if right == [] then Some([]) else Joined(left, right, cols, conds)
      ensures !ok ==> right != [] && Joined(left, right, cols, conds) == None
    {
      isEnd := false;
      if right == [] || left == [] {
        isEnd := true;
        return true;
      }
      leftPos, rightPos := 0, |right| - 1;
      ok := AdvanceToMatch();
    }

    method NextTuple() returns (ok: bool)
      requires Valid()
      modifies this`leftPos, this`rightPos, this`isEnd
      ensures old(isEnd) ==> ok && isEnd
      ensures ok && !isEnd ==> leftPos > old(leftPos) || (leftPos == old(leftPos) && rightPos < old(rightPos))
      ensures ok ==> Valid()
      ensures !old(isEnd) && ok ==> old(Remaining()) == Before(old(left[leftPos] + right[rightPos]), Remaining())
      ensures !ok ==> old(Remaining()) == None
    {
      if isEnd {
        return true;
      }
      rightPos := rightPos - 1;
      ok := AdvanceToMatch();
    }

    /** The current record: the left fields, then the right fields. */
    method Next() returns (rec: Option<Row>)
      requires Valid()
      ensures rec == if isEnd then None else Some(left[leftPos] + right[rightPos])
    {
      rec := if isEnd then None else Some(left[leftPos] + right[rightPos]);
    }
  }

  /** Opens a join and reads it to its end. */
  method DrainJoin(left: seq<Row>, right: seq<Row>, cols: seq<Column>, conds: seq<Cond>) returns (out: Option<seq<Row>>)
    ensures out == if right == [] then Some([]) else Joined(left, right, cols, conds)
  {
    var join := new NestedLoopJoin(left, right, cols, conds);
    var ok := join.BeginTuple();
    var rows: seq<Row> := [];
    assert ok && join.Remaining().Some? ==> rows + join.Remaining().value == join.Remaining().value;
    while ok && !join.isEnd
      invariant ok ==> join.Valid()
      invariant right == [] ==> ok && join.isEnd && rows == []
      invariant right != [] && ok ==> Joined(left, right, cols, conds) == After(rows, join.Remaining())
      invariant right != [] && !ok ==> Joined(left, right, cols, conds) == None
      decreases ok, !join.isEnd, |left| - join.leftPos, join.rightPos
    {
      var rec := join.Next();
      ok := join.NextTuple();
      if ok {
        ReadOne(rows, rec.value, join.Remaining());
      }
      rows := rows + [rec.value];
    }
    assert rows + [] == rows;
    out := if ok then Some(rows) else None;
  }

  /** Runs the executors of a plan. */
  method RunPlan(db: Database, plan: Plan) returns (out: Option<seq<Row>>)
    requires Prepared(db, plan)
    ensures out == Run(db, plan)
    decreases plan
  {
    match plan
    case Scan(tab, conds) =>
      var ks := ScanTable(db[tab], tab, conds);
      if ks.None? {
        return None;
      }
      ScanIsUnique(db[tab], tab, conds);
      out := Some(RowsAt(db[tab].rows, ks.value));
    case Join(left, right, conds) =>
      PreparedCovers(db, plan);
      var rs := RunPlan(db, right);
      if rs.None? || rs.value == [] {
        return rs;
      }
      var ls := RunPlan(db, left);
      if ls.None? {
        return None;
      }
      out := DrainJoin(ls.value, rs.value, ColsOf(db, plan), conds);
  }
}
