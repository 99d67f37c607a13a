/**
 The planner: turns the tables and conditions of a query into a join tree.

 The nodes of the tree are objects. Their shape is fixed when they are made; pushing a condition down
 adds it to the conditions of one join node in place.
 */
module Planner {
  import opened Common
  import opened Conditions
  import opened JoinPlans
  import opened TableScan
  import opened PlanMeaning
  import opened PlanBuilding

  /** A scan (no children) or a join of two trees. */
  class PlanNode {
    const tab: string
    const left: PlanNode?
    const right: PlanNode?
    var conds: seq<Cond>
    ghost const repr: set<PlanNode>

    ghost predicate Valid()
      decreases repr
    {
      this in repr &&
      if left == null || right == null then left == null && right == null && repr == {this}
      else
        && left.repr < repr && right.repr < repr
        && repr == {this} + left.repr + right.repr
        && this !in left.repr && this !in right.repr && left.repr !! right.repr
        && left.Valid() && right.Valid()
    }

    function Value(): Plan
      requires Valid()
      reads repr
      decreases repr
    {
      if left == null || right == null then Scan(tab, conds) else Join(left.Value(), right.Value(), conds)
    }

    constructor NewScan(tab: string, conds: seq<Cond>)
      ensures Valid() && fresh(this) && repr == {this} && Value() == Scan(tab, conds)
      ensures left == null && right == null && this.tab == tab && this.conds == conds
    {
      this.tab, this.conds := tab, conds;
      left, right, repr := null, null, {this};
    }

    constructor NewJoin(left: PlanNode, right: PlanNode, conds: seq<Cond>)
      requires left.Valid() && right.Valid() && left.repr !! right.repr
      ensures Valid() && fresh(this) && repr == {this} + left.repr + right.repr
      ensures Value() == Join(left.Value(), right.Value(), conds)
    {
      this.tab, this.conds := "", conds;
      this.left, this.right, repr := left, right, {this} + left.repr + right.repr;
    }
  }

  /** Takes out of the conditions those that the scan of `tab` can apply. */
  method PopConds(conds: seq<Cond>, tab: string) returns (solved: seq<Cond>, rest: seq<Cond>)
    ensures solved == Select(tab, conds, true) && rest == Select(tab, conds, false)
  {
    solved, rest := [], conds;
    assert Select(tab, conds[..0], false) == Select(tab, conds[..0], true) == [];
    hide Takes, Select;
    ghost var seen := 0;
    var i := 0;
    while i < |rest|
      invariant seen <= |conds| && i <= |rest|
      invariant rest[..i] == Select(tab, conds[..seen], false) && rest[i..] == conds[seen..]
      invariant solved == Select(tab, conds[..seen], true)
      decreases |conds| - seen
    {
      assert conds[seen] == conds[seen..][0] == rest[i..][0] == rest[i];
      SelectNext(tab, conds, seen, true);
      SelectNext(tab, conds, seen, false);
      assert conds[seen..][1..] == conds[seen + 1..] && rest[i..][1..] == rest[i + 1..];
      if Takes(tab, rest[i]) {
        solved := solved + [rest[i]];
        rest := rest[..i] + rest[i + 1..];
      } else {
        i := i + 1;
      }
      seen := seen + 1;
    }
    assert conds[..seen] == conds && rest[..i] == rest;
  }

  /** Pushes a condition between two columns into the tree; 3 means that it has been placed. */
  method PushConds(cond: Cond, node: PlanNode) returns (code: int)
    requires TwoColumns(cond) && node.Valid()
    modifies node.repr
    ensures code == old(PushCode(cond, node.Value()))
    ensures node.Value() == old(Pushed(cond, node.Value()))
    decreases node.repr
  {
    if node.left == null || node.right == null {
      return if node.tab == cond.lhs.column.tab then 1 else if node.tab == cond.rhs.column.tab then 2 else 0;
    }
    var l := PushConds(cond, node.left);
    if l == 3 {
      return 3;
    }
    var r := PushConds(cond, node.right);
    if r == 3 {
      return 3;
    }
    if l == 0 || r == 0 {
      return l + r;
    }
    node.conds := node.conds + [if l == 2 then Flip(cond) else cond];
    return 3;
  }

  /** Takes the scan of a table: marks it and notes the table as joined. */
  method PopScan(scantbl: array<int>, table: string, joined: seq<string>, scans: seq<PlanNode>)
    returns (joined': seq<string>, scan: PlanNode?, ghost at: nat)
    requires scantbl.Length == |scans|
    modifies scantbl
    ensures scan == null ==> joined' == joined && scantbl[..] == old(scantbl[..])
    ensures scan == null ==> forall i :: 0 <= i < |scans| ==> scans[i].tab != table
    ensures scan != null ==> at < |scans| && scan == scans[at] && scan.tab == table &&
                             joined' == joined + [table] && scantbl[..] == old(scantbl[..])[at := IN_TREE]
  {
    at := 0;
    for i := 0 to |scans|
      invariant scantbl[..] == old(scantbl[..])
      invariant forall k :: 0 <= k < i ==> scans[k].tab != table
    {
      if scans[i].tab == table {
        scantbl[i] := IN_TREE;
        return joined + [scans[i].tab], scans[i], i;
      }
    }
    return joined, null, 0;
  }

  // ---- Building the join tree ----------------------------------------------------------------------------

  /** One scan node per table, all different. */
  ghost predicate Scans(scans: seq<PlanNode>, tables: seq<string>) {
    && |scans| == |tables|
    && (forall i :: 0 <= i < |scans| ==> scans[i].Valid() && scans[i].left == null && scans[i].tab == tables[i])
    && (forall i, j :: 0 <= i < j < |scans| ==> scans[i] != scans[j])
  }

  /** The waiting scans carry the conditions they took and are not part of the tree. */
  ghost predicate Wait(scans: seq<PlanNode>, taken: seq<seq<Cond>>, flags: seq<int>, repr: set<PlanNode>)
    reads scans
  {
    |scans| == |taken| == |flags| &&
    forall i :: 0 <= i < |flags| && flags[i] == WAITING ==> scans[i].conds == taken[i] && scans[i] !in repr
  }

  /** The conditions of all scans. */
  ghost function AllTaken(taken: seq<seq<Cond>>): multiset<Cond> {
    Total(CondParts(taken), seq(|taken|, _ => WAITING), WAITING)
  }

  lemma NothingTaken(tables: seq<string>, conds: seq<Cond>)
    ensures Dealt(tables, conds, [], conds) && AllTaken([]) == multiset{}
  {
  }

  lemma TakenGrows(taken: seq<seq<Cond>>, more: seq<Cond>)
    ensures AllTaken(taken + [more]) == AllTaken(taken) + Both(more)
  {
    hide Both;
    var n := |taken|;
    assert CondParts(taken + [more])[..n] == CondParts(taken);
    assert seq(n + 1, _ => WAITING)[..n] == seq(n, _ => WAITING);
  }

  /** What the k-th scan takes, and what it leaves, as far as comparisons with values go. */
  lemma ValuesDealt(tables: seq<string>, conds: seq<Cond>, rest: seq<Cond>, k: nat)
    requires k < |tables| && forall t :: t !in tables[..k] ==> ValueConds(t, rest) == ValueConds(t, conds)
    ensures forall t :: t !in tables[..k + 1] ==> ValueConds(t, Select(tables[k], rest, false)) == ValueConds(t, conds)
    ensures Distinct(tables) ==> ValueConds(tables[k], Select(tables[k], rest, true)) == ValueConds(tables[k], conds)
  {
    hide ValueConds, Select;
    assert tables[..k + 1] == tables[..k] + [tables[k]];
    forall t | t !in tables[..k + 1]
      ensures ValueConds(t, Select(tables[k], rest, false)) == ValueConds(t, conds)
    {
      SelectKeepsValues(tables[k], rest, t, false);
    }
    SelectKeepsValues(tables[k], rest, tables[k], true);
  }

  /** Makes the scans: each takes its conditions from those the scans before it have left. */
  method MakeScans(tables: seq<string>, conds: seq<Cond>)
      returns (scans: seq<PlanNode>, rest: seq<Cond>, ghost taken: seq<seq<Cond>>)
    ensures Scans(scans, tables) && forall i :: 0 <= i < |scans| ==> fresh(scans[i])
    ensures |taken| == |tables| && Dealt(tables, conds, taken, rest)
    ensures forall i :: 0 <= i < |scans| ==> scans[i].conds == taken[i]
    ensures AllTaken(taken) + Both(rest) == Both(conds)
    ensures Distinct(tables) ==>
      forall i :: 0 <= i < |tables| ==> ValueConds(tables[i], taken[i]) == ValueConds(tables[i], conds)
  {
    hide AllTaken, Both, Dealt, Select, Takes, ValueConds;
    scans, rest, taken := [], conds, [];
    NothingTaken(tables, conds);
    for k := 0 to |tables|
      invariant |taken| == |scans| == k && Scans(scans, tables[..k])
      invariant forall i :: 0 <= i < k ==> fresh(scans[i]) && scans[i].conds == taken[i]
      invariant Dealt(tables, conds, taken, rest)
      invariant AllTaken(taken) + Both(rest) == Both(conds)
      invariant forall t :: t !in tables[..k] ==> ValueConds(t, rest) == ValueConds(t, conds)
      invariant Distinct(tables) ==>
        forall i :: 0 <= i < k ==> ValueConds(tables[i], taken[i]) == ValueConds(tables[i], conds)
    {
      ValuesDealt(tables, conds, rest, k);
      DealOne(tables, conds, taken, rest);
      TakenGrows(taken, Select(tables[k], rest, true));
      SelectSplits(tables[k], rest);
      var solved, left := PopConds(rest, tables[k]);
      var node := new PlanNode.NewScan(tables[k], solved);
      scans, rest := scans + [node], left;
      taken := taken + [solved];
    }
  }

  /** The noted names are those of the tables in the tree (and possibly names of no table). */
  ghost predicate Noted(tables: seq<string>, joined: seq<string>, used: multiset<string>) {
    forall t <- tables :: t in joined <==> t in used
  }

  /** A table outside the tree waits. */
  lemma OutsideWaits(tables: seq<string>, taken: seq<seq<Cond>>, flags: seq<int>, plan: Plan, pending: multiset<Cond>,
                     all: multiset<Cond>, i: nat)
    requires Progress(tables, taken, flags, plan, pending, all) && i < |tables|
    ensures |flags| == |tables| == |taken| && (flags[i] == WAITING || flags[i] == IN_TREE)
    ensures flags[i] == WAITING <==> tables[i] !in TablesOf(plan)
  {
  }

  /** Takes the scans of the condition's tables that are not in the tree. */
  method PopBoth(tables: seq<string>, scans: seq<PlanNode>, scantbl: array<int>, joined: seq<string>, cond: Cond)
    returns (joined': seq<string>, leftScan: PlanNode?, rightScan: PlanNode?, ghost i: nat, ghost j: nat)
    requires scantbl.Length == |scans| && Scans(scans, tables)
    requires Crosses(cond) && cond.lhs.column.tab in tables && cond.rhs.column.tab in tables
    modifies scantbl
    ensures i < |tables| && tables[i] == cond.lhs.column.tab && j < |tables| && tables[j] == cond.rhs.column.tab
    ensures leftScan == if tables[i] in joined then null else scans[i]
    ensures rightScan == if tables[j] in joined then null else scans[j]
    ensures scantbl[..] == Marked(Marked(old(scantbl[..]), i, leftScan != null), j, rightScan != null)
    ensures forall t :: t in joined' <==> t in joined || t == tables[i] || t == tables[j]
  {
    joined', leftScan, rightScan := joined, null, null;
    i :| 0 <= i < |tables| && tables[i] == cond.lhs.column.tab;
    j :| 0 <= j < |tables| && tables[j] == cond.rhs.column.tab;
    if cond.lhs.column.tab !in joined' {
      joined', leftScan, i := PopScan(scantbl, cond.lhs.column.tab, joined', scans);
    }
    if cond.rhs.column.tab !in joined' {
      joined', rightScan, j := PopScan(scantbl, cond.rhs.column.tab, joined', scans);
    }
  }

  ghost function Marked(flags: seq<int>, i: nat, mark: bool): seq<int>
    requires i < |flags|
  {
    if mark then flags[i := IN_TREE] else flags
  }

  lemma ScanValue(node: PlanNode)
    requires node.Valid() && node.left == null
    ensures node.repr == {node} && node.Value() == Scan(node.tab, node.conds)
  {
  }

  /** A tree under construction and the scans that wait. */
  ghost predicate Underway(tables: seq<string>, scans: seq<PlanNode>, taken: seq<seq<Cond>>, flags: seq<int>,
                           tree: PlanNode,
                           pending: multiset<Cond>, all: multiset<Cond>)
    reads scans, tree.repr
  {
    Scans(scans, tables) && tree.Valid() && Wait(scans, taken, flags, tree.repr) &&
    Progress(tables, taken, flags, tree.Value(), pending, all)
  }

  /** Joins a waiting scan on the left of the tree. */
  method JoinScan(scan: PlanNode, tree: PlanNode, cond: Cond, placed: Cond, ghost tables: seq<string>,
                  ghost scans: seq<PlanNode>,
                  ghost i: nat, ghost taken: seq<seq<Cond>>, ghost flags: seq<int>, ghost pending: multiset<Cond>,
                  ghost all: multiset<Cond>)
    returns (tree': PlanNode)
    requires Underway(tables, scans, taken, flags, tree, Both([cond]) + pending, all)
    requires i < |scans| && i < |flags| && scans[i] == scan && flags[i] == WAITING
    requires (placed == cond || placed == Flip(cond)) && Across(multiset{tables[i]}, TablesOf(tree.Value()), placed)
    ensures Underway(tables, scans, taken, flags[i := IN_TREE], tree', pending, all)
    ensures TablesOf(tree'.Value()) == multiset{tables[i]} + TablesOf(tree.Value())
    ensures fresh(tree'.repr - tree.repr - {scan})
  {
    hide Progress, Both, Flip, PlanNode.Valid, PlanNode.Value;
    ScanValue(scan);
    JoinOnLeft(tables, taken, flags, tree.Value(), i, cond, placed, pending, all);
    tree' := new PlanNode.NewJoin(scan, tree, [placed]);
  }

  /** Joins two waiting scans on a condition, and their join on the left of the tree. */
  method JoinPair(left: PlanNode, right: PlanNode, tree: PlanNode, cond: Cond, ghost tables: seq<string>,
                  ghost scans: seq<PlanNode>,
                  ghost i: nat, ghost j: nat, ghost taken: seq<seq<Cond>>, ghost flags: seq<int>,
                  ghost pending: multiset<Cond>, ghost all: multiset<Cond>)
    returns (tree': PlanNode)
    requires Underway(tables, scans, taken, flags, tree, Both([cond]) + pending, all)
    requires i < |scans| && j < |scans| && i != j && |flags| == |scans| && scans[i] == left && scans[j] == right
    requires flags[i] == flags[j] == WAITING && Across(multiset{tables[i]}, multiset{tables[j]}, cond)
    ensures Underway(tables, scans, taken, flags[i := IN_TREE][j := IN_TREE], tree', pending, all)
    ensures TablesOf(tree'.Value()) == multiset{tables[i]} + multiset{tables[j]} + TablesOf(tree.Value())
    ensures fresh(tree'.repr - tree.repr - {left, right})
  {
    hide Progress, Both, PlanNode.Valid, PlanNode.Value;
    ScanValue(left);
    ScanValue(right);
    JoinPairOnLeft(tables, taken, flags, tree.Value(), i, j, cond, pending, all);
    var pair := new PlanNode.NewJoin(left, right, [cond]);
    tree' := new PlanNode.NewJoin(pair, tree, []);
    assert TablesOf(pair.Value()) == multiset{tables[i]} + multiset{tables[j]};
  }

  /** Brings one more condition into the tree, with the tables it needs. */
  method PlaceCond(tables: seq<string>, scans: seq<PlanNode>, scantbl: array<int>, joined: seq<string>,
                   tree: PlanNode, cond: Cond,
                   ghost taken: seq<seq<Cond>>, ghost pending: multiset<Cond>, ghost all: multiset<Cond>)
    returns (joined': seq<string>, tree': PlanNode)
    requires scantbl.Length == |scans| && Underway(tables, scans, taken, scantbl[..], tree, Both([cond]) + pending, all)
    requires Noted(tables, joined, TablesOf(tree.Value()))
    requires Crosses(cond) && cond.lhs.column.tab in tables && cond.rhs.column.tab in tables
    modifies scantbl, tree.repr
    ensures Underway(tables, scans, taken, scantbl[..], tree', pending, all)
    ensures Noted(tables, joined', TablesOf(tree'.Value()))
    ensures fresh(tree'.repr - tree.repr - set node | node in scans)
  {
    hide Progress, Both, Flip, PlanNode.Valid, PlanNode.Value, PushCode, Pushed, TablesOf;
    ghost var flags, plan, placed := scantbl[..], tree.Value(), Both([cond]) + pending;
    var leftScan, rightScan;
    ghost var i, j;
    joined', leftScan, rightScan, i, j := PopBoth(tables, scans, scantbl, joined, cond);
    OutsideWaits(tables, taken, flags, plan, placed, all, i);
    OutsideWaits(tables, taken, flags, plan, placed, all, j);
    if leftScan != null && rightScan != null {
      tree' := JoinPair(leftScan, rightScan, tree, cond, tables, scans, i, j, taken, flags, pending, all);
    } else if leftScan != null {
      tree' := JoinScan(leftScan, tree, cond, cond, tables, scans, i, taken, flags, pending, all);
    } else if rightScan != null {
      FlipAcross(TablesOf(plan), multiset{tables[j]}, cond);
      tree' := JoinScan(rightScan, tree, cond, Flip(cond), tables, scans, j, taken, flags, pending, all);
    } else {
      PushInside(tables, taken, flags, plan, cond, pending, all);
      var _ := PushConds(cond, tree);
      tree' := tree;
    }
  }

  /** Makes the first join, of the two tables of the first condition. */
  method FirstJoin(tables: seq<string>, scans: seq<PlanNode>, scantbl: array<int>, cond: Cond,
                   ghost taken: seq<seq<Cond>>, ghost pending: multiset<Cond>, ghost all: multiset<Cond>)
    returns (joined: seq<string>, tree: PlanNode)
    requires scantbl.Length == |scans| && Scans(scans, tables) && Distinct(tables) && "" !in tables
    requires Wait(scans, taken, scantbl[..], {}) && forall i :: 0 <= i < |scans| ==> scantbl[i] == WAITING
    requires Balanced(tables, taken, scantbl[..], multiset{}, Both([cond]) + pending, all)
    requires Crosses(cond) && cond.lhs.column.tab in tables && cond.rhs.column.tab in tables
    modifies scantbl
    ensures Underway(tables, scans, taken, scantbl[..], tree, pending, all)
    ensures Noted(tables, joined, TablesOf(tree.Value()))
    ensures fresh(tree.repr - set node | node in scans)
  {
    hide Progress, Both, Balanced, PlanNode.Valid, PlanNode.Value;
    ghost var flags := scantbl[..];
    joined := seq(|tables|, _ => "");
    var left, right;
    ghost var i, j;
    joined, left, i := PopScan(scantbl, cond.lhs.column.tab, joined, scans);
    joined, right, j := PopScan(scantbl, cond.rhs.column.tab, joined, scans);
    FirstTree(tables, taken, flags, i, j, cond, pending, all);
    ScanValue(left);
    ScanValue(right);
    tree := new PlanNode.NewJoin(left, right, [cond]);
  }

  /** Joins the tables of all conditions across tables; None without a join method. */
  method JoinByConds(tables: seq<string>, scans: seq<PlanNode>, scantbl: array<int>, conds: seq<Cond>,
                     nestedLoop: bool, sortMerge: bool,
                     ghost taken: seq<seq<Cond>>, ghost all: multiset<Cond>)
    returns (tree: Option<PlanNode>)
    requires scantbl.Length == |scans| && Scans(scans, tables) && Distinct(tables) && "" !in tables
    requires Wait(scans, taken, scantbl[..], {}) && forall i :: 0 <= i < |scans| ==> scantbl[i] == WAITING
    requires Balanced(tables, taken, scantbl[..], multiset{}, Both(conds), all)
    requires |conds| > 0
    requires forall cond <- conds ::
      Crosses(cond) && cond.lhs.column.tab in tables && cond.rhs.column.tab in tables
    modifies scantbl, scans
    ensures tree == None <==> !nestedLoop && !sortMerge
    ensures tree.Some? ==> Underway(tables, scans, taken, scantbl[..], tree.value, multiset{}, all)
    ensures tree.Some? ==> fresh(tree.value.repr - set node | node in scans)
  {
    hide Progress, Both, Balanced, PlanNode.Valid, PlanNode.Value, Crosses, TablesOf;
    if !nestedLoop && !sortMerge {
      return None;
    }
    BothFirst(conds);
    var joined, root := FirstJoin(tables, scans, scantbl, conds[0], taken, Both(conds[1..]), all);
    var todo := conds[1..];
    while todo != []
      invariant Underway(tables, scans, taken, scantbl[..], root, Both(todo), all)
      invariant Noted(tables, joined, TablesOf(root.Value()))
      invariant fresh(root.repr - set node | node in scans)
      invariant forall cond <- todo :: cond in conds
      decreases |todo|
    {
      BothFirst(todo);
      joined, root := PlaceCond(tables, scans, scantbl, joined, root, todo[0], taken, Both(todo[1..]), all);
      todo := todo[1..];
    }
    NoneBoth();
    tree := Some(root);
  }

  lemma BothFirst(conds: seq<Cond>)
    requires conds != []
    ensures Both(conds) == Both([conds[0]]) + Both(conds[1..])
  {
    assert conds == [conds[0]] + conds[1..];
    BothConcat([conds[0]], conds[1..]);
  }

  /** Joins the tables that no condition has brought in, in their order, on the right. */
  method JoinRemaining(tables: seq<string>, scans: seq<PlanNode>, scantbl: array<int>, tree: PlanNode,
                       ghost taken: seq<seq<Cond>>, ghost all: multiset<Cond>)
    returns (root: PlanNode)
    requires scantbl.Length == |scans| && Underway(tables, scans, taken, scantbl[..], tree, multiset{}, all)
    ensures Underway(tables, scans, taken, seq(|scans|, _ => IN_TREE), root, multiset{}, all)
    ensures fresh(root.repr - tree.repr - set node | node in scans)
  {
    hide Progress, PlanNode.Valid, PlanNode.Value;
    root := tree;
    ghost var flags := scantbl[..];
    for i := 0 to |scans|
      invariant |flags| == |scans| && Underway(tables, scans, taken, flags, root, multiset{}, all)
      invariant forall k :: 0 <= k < i ==> flags[k] == IN_TREE
      invariant forall k :: i <= k < |scans| ==> flags[k] == scantbl[k]
      invariant fresh(root.repr - tree.repr - set node | node in scans)
    {
      OutsideWaits(tables, taken, flags, root.Value(), multiset{}, all, i);
      if scantbl[i] == WAITING {
        JoinOnRight(tables, taken, flags, root.Value(), i, all);
        ScanValue(scans[i]);
        root := new PlanNode.NewJoin(root, scans[i], []);
        flags := flags[i := IN_TREE];
      }
    }
    assert flags == seq(|scans|, _ => IN_TREE);
  }

  /** Plans a query: every table is scanned once; every condition is placed once, on a join with its left
      side on the left input and its right side on the right input, or on a scan. A scan lacks a column of
      one of its conditions iff some condition compares two columns of a table other than the first. */
  method MakeOneRel(tables: seq<string>, conds: seq<Cond>, nestedLoop: bool, sortMerge: bool)
      returns (root: Option<PlanNode>)
    requires |tables| > 0 && Distinct(tables) && "" !in tables
    requires forall cond <- conds :: Resolved(tables, cond)
    ensures root == None <==> |tables| > 1 && !nestedLoop && !sortMerge && exists cond <- conds :: Crosses(cond)
    ensures root.Some? ==> root.value.Valid() && fresh(root.value.repr)
    ensures root.Some? ==>
      var plan := root.value.Value();
      TablesOf(plan) == multiset(tables) && CondsOf(plan) == Both(conds) && Oriented(plan) &&
      HasValueConds(plan, conds) &&
      (Clean(plan) <==> forall cond <- conds :: !Stray(tables, cond))
  {
    hide Both, Dealt, AllTaken, Progress, Balanced, PlanNode.Valid, PlanNode.Value, Crosses;
    hide Stray, Resolved, TablesOf, CondsOf, Oriented, Clean, ValueConds;
    var scans, rest;
    ghost var taken;
    scans, rest, taken := MakeScans(tables, conds);
    AllDealt(tables, conds, taken, rest);
    var scantbl := new int[|tables|](_ => WAITING);
    NoTree(tables, taken, rest, Both(conds), scantbl[..]);
    OneTable(tables, rest, conds);
    NoneBoth();
    if |tables| == 1 {
      LoneScan(tables, taken, scantbl[..], Both(conds));
      ScanValue(scans[0]);
      Finished(tables, taken, scantbl[..][0 := IN_TREE], scans[0].Value(), Both(conds));
      ScansHaveValueConds(scans[0].Value(), tables, taken, conds);
      return Some(scans[0]);
    }
    var tree: PlanNode;
    if |rest| >= 1 {
      Columns(tables, conds, rest);
      var first := JoinByConds(tables, scans, scantbl, rest, nestedLoop, sortMerge, taken, Both(conds));
      if first == None {
        assert rest[0] in conds;
        return None;
      }
      tree := first.value;
    } else {
      LoneScan(tables, taken, scantbl[..], Both(conds));
      ScanValue(scans[0]);
      tree := scans[0];
      scantbl[0] := IN_TREE;
    }
    var whole := JoinRemaining(tables, scans, scantbl, tree, taken, Both(conds));
    Finished(tables, taken, seq(|scans|, _ => IN_TREE), whole.Value(), Both(conds));
    ScansHaveValueConds(whole.Value(), tables, taken, conds);
    root := Some(whole);
  }

  lemma NoTree(tables: seq<string>, taken: seq<seq<Cond>>, rest: seq<Cond>, all: multiset<Cond>, flags: seq<int>)
    requires |tables| == |taken| == |flags| && AllTaken(taken) + Both(rest) == all
    requires forall i :: 0 <= i < |flags| ==> flags[i] == WAITING
    ensures Balanced(tables, taken, flags, multiset{}, Both(rest), all)
  {
    assert flags == seq(|taken|, _ => WAITING);
  }

  lemma Columns(tables: seq<string>, conds: seq<Cond>, rest: seq<Cond>)
    requires forall cond <- conds :: Resolved(tables, cond)
    requires forall cond :: cond in rest <==> cond in conds && Crosses(cond)
    ensures forall cond <- rest :: Crosses(cond) && cond.lhs.column.tab in tables && cond.rhs.column.tab in tables
  {
  }

  /** One table leaves no condition across tables. */
  lemma OneTable(tables: seq<string>, rest: seq<Cond>, conds: seq<Cond>)
    requires forall cond <- conds :: Resolved(tables, cond)
    requires forall cond :: cond in rest <==> cond in conds && Crosses(cond)
    ensures |tables| == 1 ==> rest == []
    ensures rest == [] ==> !exists cond <- conds :: Crosses(cond)
  {
    forall cond | cond in conds
      ensures |tables| == 1 ==> !Crosses(cond)
    {
      assert Resolved(tables, cond);
    }
    assert rest != [] ==> rest[0] in rest;
  }
}
