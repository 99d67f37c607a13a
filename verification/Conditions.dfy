/**
 Conditions of a WHERE clause over the rows of one table.
 */
module Conditions {

  /** A row: one code per column (see KeyOrder). */
  type Row = seq<nat>

  datatype CompOp = EQ | NE | LT | GT | LE | GE

  /** What each comparison says of the two sides. */
  ghost predicate Relates(x: int, op: CompOp, y: int) {
    && (op.EQ? ==> x == y)
    && (op.NE? ==> x != y)
    && (op.LT? ==> x < y)
    && (op.GT? ==> x > y)
    && (op.LE? ==> x <= y)
    && (op.GE? ==> x >= y)
  }

  /** What the sign of a comparison says for an operator. */
  function CompareResult(cmp: int, op: CompOp): (r: bool)
    ensures r <==> Relates(cmp, op, 0)
  {
    match op
    case EQ => cmp == 0
    case NE => cmp != 0
    case LT => cmp < 0
    case GT => cmp > 0
    case LE => cmp <= 0
    case GE => cmp >= 0
  }

  /** Column `col` compared with a value of the column's type. */
  datatype ValueCond = ValueCond(col: nat, op: CompOp, val: nat)

  /** The row has the column and its value there is as the condition says. */
  ghost predicate Meets(row: Row, cond: ValueCond) {
    cond.col < |row| && Relates(row[cond.col], cond.op, cond.val)
  }

  function EvalCond(row: Row, cond: ValueCond): (r: bool)
    ensures r <==> Meets(row, cond)
  {
    cond.col < |row| && CompareResult(row[cond.col] - cond.val, cond.op)
  }

  /** All conditions of a scan: the column-against-value ones, and any others taken together. */
  ghost predicate Matches(row: Row, conds: seq<ValueCond>, others: Row -> bool) {
    others(row) && forall i :: 0 <= i < |conds| ==> Meets(row, conds[i])
  }

  /** Tests the conditions one by one, stopping at the first that fails. */
  method EvalConds(row: Row, conds: seq<ValueCond>, others: Row -> bool) returns (ok: bool)
    ensures ok <==> Matches(row, conds, others)
    ensures ok <==> others(row) && forall i :: 0 <= i < |conds| ==>
      conds[i].col < |row| && Relates(row[conds[i].col], conds[i].op, conds[i].val)
  {
    for i := 0 to |conds|
      invariant forall j :: 0 <= j < i ==> Meets(row, conds[j])
    {
      if !EvalCond(row, conds[i]) {
        assert !Meets(row, conds[i]);
        return false;
      }
    }
    ok := others(row);
  }
}
