/**
 The planner's steps on values: which conditions a scan takes, where a condition goes in a join tree,
 and what a partly built tree accounts for.
 */
module PlanBuilding {
  import opened Conditions
  import opened JoinPlans
  import opened TableScan
  import opened PlanMeaning

  // ---- Conditions of a query -------------------------------------------------------------------------

  predicate TwoColumns(cond: Cond) {
    cond.lhs.LhsColumn? && cond.rhs.RhsColumn?
  }

  /** Compares columns of two tables. */
  predicate Crosses(cond: Cond) {
    TwoColumns(cond) && cond.lhs.column.tab != cond.rhs.column.tab
  }

  /** A resolved condition: its columns belong to the query's tables, a value on the left has no
      column on the right. */
  predicate Resolved(tables: seq<string>, cond: Cond) {
    match cond.lhs
    case LhsValue(_) => !cond.rhs.RhsColumn?
    case LhsColumn(c) => c.tab in tables && (cond.rhs.RhsColumn? ==> cond.rhs.column.tab in tables)
  }

  /** The scan of `tab` takes the condition: comparisons of two columns of one table go to whichever
      scan comes first. */
  predicate Takes(tab: string, cond: Cond) {
    if cond.rhs.RhsColumn? then cond.lhs.LhsColumn? && cond.lhs.column.tab == cond.rhs.column.tab
    else cond.lhs.LhsValue? || cond.lhs.column.tab == tab
  }

  /** The conditions that a scan of `tab` takes, or leaves. */
  function Select(tab: string, conds: seq<Cond>, taken: bool): (r: seq<Cond>)
    ensures forall cond :: cond in r <==> cond in conds && Takes(tab, cond) == taken
  {
    if conds == [] then []
    else
      var init, last := Select(tab, conds[..|conds| - 1], taken), conds[|conds| - 1];
      assert conds == conds[..|conds| - 1] + [last];
      if Takes(tab, last) == taken then init + [last] else init
  }

  lemma SelectNext(tab: string, conds: seq<Cond>, k: nat, taken: bool)
    requires k < |conds|
    ensures Select(tab, conds[..k + 1], taken) ==
            Select(tab, conds[..k], taken) + if Takes(tab, conds[k]) == taken then [conds[k]] else []
  {
    assert conds[..k + 1][..k] == conds[..k];
  }

  /** Whether a scan of `tab` has all columns of the condition. */
  predicate Own(tab: string, cond: Cond) {
    (cond.lhs.LhsColumn? ==> cond.lhs.column.tab == tab) && (cond.rhs.RhsColumn? ==> cond.rhs.column.tab == tab)
  }

  ghost predicate OwnsAll(tab: string, conds: seq<Cond>) {
    forall cond <- conds :: Own(tab, cond)
  }

  /** Compares two columns of a table other than the first. */
  predicate Stray(tables: seq<string>, cond: Cond)
    requires |tables| > 0
  {
    TwoColumns(cond) && !Crosses(cond) && cond.lhs.column.tab != tables[0]
  }

  lemma BothConcat(a: seq<Cond>, b: seq<Cond>)
    ensures Both(a + b) == Both(a) + Both(b)
  {
    assert Flipped(a + b) == Flipped(a) + Flipped(b);
  }

  lemma {:induction false} SelectSplits(tab: string, conds: seq<Cond>)
    ensures Both(Select(tab, conds, true)) + Both(Select(tab, conds, false)) == Both(conds)
  {
    hide Both, Takes;
    if conds != [] {
      var init, last := conds[..|conds| - 1], [conds[|conds| - 1]];
      assert conds == init + last;
      BothConcat(init, last);
      BothConcat(Select(tab, init, true), last);
      BothConcat(Select(tab, init, false), last);
      SelectSplits(tab, init);
    } else {
      NoneBoth();
    }
  }

  lemma NoneBoth()
    ensures Both([]) == multiset{}
  {
  }

  // ---- Shape of a join tree ----------------------------------------------------------------------------

  /** Every join condition compares a column of the left input with one of the right input. */
  ghost predicate Oriented(plan: Plan) {
    plan.Join? ==>
      Oriented(plan.left) && Oriented(plan.right) &&
      forall cond <- plan.conds :: Across(TablesOf(plan.left), TablesOf(plan.right), cond)
  }

  ghost predicate Across(left: multiset<string>, right: multiset<string>, cond: Cond) {
    TwoColumns(cond) && cond.lhs.column.tab in left && cond.rhs.column.tab in right
  }

  ghost predicate IsScan(tab: string, conds: seq<Cond>, tables: seq<string>, taken: seq<seq<Cond>>)
    requires |tables| == |taken|
  {
    exists i :: 0 <= i < |tables| && tables[i] == tab && taken[i] == conds
  }

  lemma FlipAcross(left: multiset<string>, right: multiset<string>, cond: Cond)
    requires Across(left, right, cond)
    ensures Across(right, left, Flip(cond))
  {
  }

  /** Every scan of the plan is one of the given scans. */
  ghost predicate FromScans(plan: Plan, tables: seq<string>, taken: seq<seq<Cond>>)
    requires |tables| == |taken|
  {
    match plan
    case Scan(tab, conds) => IsScan(tab, conds, tables, taken)
    case Join(left, right, _) => FromScans(left, tables, taken) && FromScans(right, tables, taken)
  }

  /** Every scan has all columns of its conditions. */
  ghost predicate Clean(plan: Plan) {
    match plan
    case Scan(tab, conds) => OwnsAll(tab, conds)
    case Join(left, right, _) => Clean(left) && Clean(right)
  }

  ghost predicate Distinct(tables: seq<string>) {
    forall i, j :: 0 <= i < j < |tables| ==> tables[i] != tables[j]
  }

  lemma {:induction false} CleanScans(plan: Plan, tables: seq<string>, taken: seq<seq<Cond>>)
    requires |tables| == |taken| && Distinct(tables) && FromScans(plan, tables, taken)
    ensures Clean(plan) <==>
            forall i :: 0 <= i < |tables| && tables[i] in TablesOf(plan) ==> OwnsAll(tables[i], taken[i])
  {
    if plan.Join? {
      CleanScans(plan.left, tables, taken);
      CleanScans(plan.right, tables, taken);
    }
  }

  // ---- Pushing a condition into a tree -----------------------------------------------------------------

  /** Where the condition's columns were found: 0 nowhere, 1 left side only, 2 right side only, 3 both,
      and then it has been placed. */
  function PushCode(cond: Cond, plan: Plan): int
    requires TwoColumns(cond)
  {
    match plan
    case Scan(tab, _) => if tab == cond.lhs.column.tab then 1 else if tab == cond.rhs.column.tab then 2 else 0
    case Join(left, right, _) =>
      var l, r := PushCode(cond, left), PushCode(cond, right);
      if l == 3 || r == 3 then 3 else if l == 0 || r == 0 then l + r else 3
  }

  /** The tree after pushing the condition into it. */
  function Pushed(cond: Cond, plan: Plan): Plan
    requires TwoColumns(cond)
  {
    match plan
    case Scan(_, _) => plan
    case Join(left, right, conds) =>
      var l, r := PushCode(cond, left), PushCode(cond, right);
      if l == 3 then Join(Pushed(cond, left), right, conds)
      else if r == 3 then Join(left, Pushed(cond, right), conds)
      else if l == 0 || r == 0 then plan
      else Join(left, right, conds + [if l == 2 then Flip(cond) else cond])
  }

  lemma BothOne(cond: Cond)
    ensures Both([cond]) == Both([Flip(cond)]) == multiset{cond, Flip(cond)}
  {
  }

  lemma {:induction false} PushKeepsScans(cond: Cond, plan: Plan, tables: seq<string>, taken: seq<seq<Cond>>)
    requires TwoColumns(cond) && |tables| == |taken| && FromScans(plan, tables, taken)
    ensures FromScans(Pushed(cond, plan), tables, taken)
  {
    hide Flip, IsScan, PushCode;
    if plan.Join? {
      PushKeepsScans(cond, plan.left, tables, taken);
      PushKeepsScans(cond, plan.right, tables, taken);
    }
  }

  function Found(tables: multiset<string>, cond: Cond): int
    requires TwoColumns(cond)
  {
    (if cond.lhs.column.tab in tables then 1 else 0) + (if cond.rhs.column.tab in tables then 2 else 0)
  }

  lemma {:induction false} PushFinds(cond: Cond, plan: Plan)
    requires Crosses(cond) && Once(TablesOf(plan))
    ensures PushCode(cond, plan) == Found(TablesOf(plan), cond)
    ensures PushCode(cond, plan) != 3 ==> Pushed(cond, plan) == plan
  {
    hide Flip;
    if plan.Join? {
      OnceApart(plan);
      PushFinds(cond, plan.left);
      PushFinds(cond, plan.right);
    }
  }

  /** Adds a condition, in either orientation, to the conditions of a join. */
  lemma PlaceHere(plan: Plan, cond: Cond, placed: Cond)
    requires plan.Join? && Oriented(plan) && (placed == cond || placed == Flip(cond))
    requires Across(TablesOf(plan.left), TablesOf(plan.right), placed)
    ensures Oriented(plan.(conds := plan.conds + [placed]))
    ensures CondsOf(plan.(conds := plan.conds + [placed])) == CondsOf(plan) + Both([cond])
  {
    hide Both, Flip, Across;
    BothOne(cond);
    BothConcat(plan.conds, [placed]);
  }

  /** A condition whose tables are both in the tree is placed once, where they meet, turned so that its
      left side belongs to the left input. */
  lemma {:induction false} PushPlaces(cond: Cond, plan: Plan)
    requires Crosses(cond) && Oriented(plan) && Once(TablesOf(plan)) && Found(TablesOf(plan), cond) == 3
    ensures TablesOf(Pushed(cond, plan)) == TablesOf(plan)
    ensures Oriented(Pushed(cond, plan))
    ensures CondsOf(Pushed(cond, plan)) == CondsOf(plan) + Both([cond])
  {
    hide Both, Once, PushCode;
    if plan.Join? {
      var left, right := plan.left, plan.right;
      OnceApart(plan);
      PushFinds(cond, left);
      PushFinds(cond, right);
      if Found(TablesOf(left), cond) == 3 {
        PushPlaces(cond, left);
      } else if Found(TablesOf(right), cond) == 3 {
        PushPlaces(cond, right);
      } else {
        PlaceHere(plan, cond, if Found(TablesOf(left), cond) == 2 then Flip(cond) else cond);
      }
    }
  }

  // ---- What a partly built tree accounts for -----------------------------------------------------------

  /** The parts whose flag is `f`, taken together. */
  ghost function Total(parts: seq<multiset<Cond>>, flags: seq<int>, f: int): multiset<Cond>
    requires |parts| == |flags|
  {
    if parts == [] then multiset{}
    else
      var n := |parts| - 1;
      Total(parts[..n], flags[..n], f) + (if flags[n] == f then parts[n] else multiset{})
  }

  lemma {:induction false} TotalMoves(parts: seq<multiset<Cond>>, flags: seq<int>, i: nat, f: int, g: int)
    requires |parts| == |flags| && i < |flags| && flags[i] == f != g
    ensures Total(parts, flags[i := g], g) == Total(parts, flags, g) + parts[i]
    ensures Total(parts, flags, f) == Total(parts, flags[i := g], f) + parts[i]
  {
    var n := |parts| - 1;
    if i < n {
      TotalMoves(parts[..n], flags[..n], i, f, g);
      assert flags[i := g][..n] == flags[..n][i := g];
    } else {
      assert flags[i := g][..n] == flags[..n];
    }
  }

  function CondParts(taken: seq<seq<Cond>>): (r: seq<multiset<Cond>>)
    ensures |r| == |taken| && forall i :: 0 <= i < |taken| ==> r[i] == Both(taken[i])
  {
    seq(|taken|, i requires 0 <= i < |taken| => Both(taken[i]))
  }

  lemma {:induction false} TotalNothing(parts: seq<multiset<Cond>>, flags: seq<int>, f: int)
    requires |parts| == |flags| && forall i :: 0 <= i < |flags| ==> flags[i] != f
    ensures Total(parts, flags, f) == multiset{}
  {
    if parts != [] {
      TotalNothing(parts[..|parts| - 1], flags[..|parts| - 1], f);
    }
  }

  const IN_TREE := 1
  const WAITING := -1

  /** The tables flagged as joined are `used`; the conditions `placed` and those of the waiting scans
      are together all the conditions of the query. */
  ghost predicate Balanced(tables: seq<string>, taken: seq<seq<Cond>>, flags: seq<int>,
                           used: multiset<string>, placed: multiset<Cond>, all: multiset<Cond>)
  {
    && |tables| == |taken| == |flags|
    && (forall i :: 0 <= i < |flags| ==> flags[i] == IN_TREE || flags[i] == WAITING)
    && (forall i :: 0 <= i < |flags| ==> used[tables[i]] == if flags[i] == IN_TREE then 1 else 0)
    && (forall t <- used :: t in tables)
    && placed + Total(CondParts(taken), flags, WAITING) == all
  }

  /** Taking a waiting scan. */
  lemma TakeScan(tables: seq<string>, taken: seq<seq<Cond>>, flags: seq<int>, i: nat,
                 used: multiset<string>, placed: multiset<Cond>, all: multiset<Cond>)
    requires Balanced(tables, taken, flags, used, placed, all) && Distinct(tables)
    requires i < |flags| && flags[i] == WAITING
    ensures Balanced(tables, taken, flags[i := IN_TREE], used + multiset{tables[i]}, placed + Both(taken[i]), all)
  {
    hide Both, Total;
    TotalMoves(CondParts(taken), flags, i, WAITING, IN_TREE);
  }

  /** When no scan waits, every table and every condition is used, and used once. */
  lemma NothingWaits(tables: seq<string>, taken: seq<seq<Cond>>, flags: seq<int>,
                     used: multiset<string>, placed: multiset<Cond>, all: multiset<Cond>)
    requires Balanced(tables, taken, flags, used, placed, all) && Distinct(tables)
    requires forall i :: 0 <= i < |flags| ==> flags[i] == IN_TREE
    ensures used == multiset(tables) && placed == all
  {
    hide Both, Total;
    TotalNothing(CondParts(taken), flags, WAITING);
    forall t
      ensures used[t] == multiset(tables)[t]
    {
      if t in tables {
        DistinctOnce(tables, t);
      }
    }
  }

  lemma {:induction false} DistinctOnce(tables: seq<string>, t: string)
    requires Distinct(tables) && t in tables
    ensures multiset(tables)[t] == 1
  {
    assert tables == [tables[0]] + tables[1..];
    if t in tables[1..] {
      DistinctOnce(tables[1..], t);
    }
  }

  lemma UsedOnce(tables: seq<string>, taken: seq<seq<Cond>>, flags: seq<int>,
                 used: multiset<string>, placed: multiset<Cond>, all: multiset<Cond>)
    requires Balanced(tables, taken, flags, used, placed, all)
    ensures Once(used)
  {
  }

  /** A tree of the given scans with its conditions the right way round. */
  ghost predicate Built(tables: seq<string>, taken: seq<seq<Cond>>, plan: Plan) {
    |tables| == |taken| && Oriented(plan) && FromScans(plan, tables, taken)
  }

  lemma ScanBuilt(tables: seq<string>, taken: seq<seq<Cond>>, i: nat)
    requires |tables| == |taken| && i < |tables|
    ensures Built(tables, taken, Scan(tables[i], taken[i]))
  {
  }

  lemma JoinBuilt(tables: seq<string>, taken: seq<seq<Cond>>, left: Plan, right: Plan, conds: seq<Cond>)
    requires Built(tables, taken, left) && Built(tables, taken, right)
    requires forall cond <- conds :: Across(TablesOf(left), TablesOf(right), cond)
    ensures Built(tables, taken, Join(left, right, conds))
  {
  }

  /** A tree under construction, with the conditions that are still to be placed. */
  ghost predicate Progress(tables: seq<string>, taken: seq<seq<Cond>>, flags: seq<int>, plan: Plan,
                           pending: multiset<Cond>, all: multiset<Cond>)
  {
    Distinct(tables) && Built(tables, taken, plan) &&
    Balanced(tables, taken, flags, TablesOf(plan), CondsOf(plan) + pending, all)
  }

  /** Two scans joined on a condition make the first tree. */
  lemma FirstTree(tables: seq<string>, taken: seq<seq<Cond>>, flags: seq<int>, i: nat, j: nat, cond: Cond,
                  pending: multiset<Cond>, all: multiset<Cond>)
    requires Balanced(tables, taken, flags, multiset{}, Both([cond]) + pending, all) && Distinct(tables)
    requires i < |flags| && j < |flags| && i != j && flags[i] == flags[j] == WAITING
    requires Across(multiset{tables[i]}, multiset{tables[j]}, cond)
    ensures Progress(tables, taken, flags[i := IN_TREE][j := IN_TREE],
                     Join(Scan(tables[i], taken[i]), Scan(tables[j], taken[j]), [cond]), pending, all)
  {
    hide Both, Built;
    var l, r := Scan(tables[i], taken[i]), Scan(tables[j], taken[j]);
    var plan := Join(l, r, [cond]);
    ScanBuilt(tables, taken, i);
    ScanBuilt(tables, taken, j);
    JoinBuilt(tables, taken, l, r, [cond]);
    var placed := Both([cond]) + pending;
    TakeScan(tables, taken, flags, i, multiset{}, placed, all);
    TakeScan(tables, taken, flags[i := IN_TREE], j, multiset{} + TablesOf(l), placed + Both(taken[i]), all);
    assert TablesOf(plan) == multiset{} + TablesOf(l) + TablesOf(r);
    assert CondsOf(plan) + pending == placed + Both(taken[i]) + Both(taken[j]);
  }

  /** A scan joined on the left of the tree, on the condition in either orientation. */
  lemma JoinOnLeft(tables: seq<string>, taken: seq<seq<Cond>>, flags: seq<int>, plan: Plan, i: nat, cond: Cond,
                   placed: Cond,
                   pending: multiset<Cond>, all: multiset<Cond>)
    requires Progress(tables, taken, flags, plan, Both([cond]) + pending, all)
    requires i < |flags| && flags[i] == WAITING && (placed == cond || placed == Flip(cond))
    requires Across(multiset{tables[i]}, TablesOf(plan), placed)
    ensures Progress(tables, taken, flags[i := IN_TREE], Join(Scan(tables[i], taken[i]), plan, [placed]), pending, all)
  {
    hide Both, Built, Flip;
    var scan := Scan(tables[i], taken[i]);
    var plan' := Join(scan, plan, [placed]);
    ScanBuilt(tables, taken, i);
    JoinBuilt(tables, taken, scan, plan, [placed]);
    BothOne(cond);
    TakeScan(tables, taken, flags, i, TablesOf(plan), CondsOf(plan) + (Both([cond]) + pending), all);
    assert TablesOf(plan') == TablesOf(plan) + multiset{tables[i]};
    assert CondsOf(plan') + pending == CondsOf(plan) + (Both([cond]) + pending) + Both(taken[i]);
  }

  /** Two scans joined on the condition, then joined on the left of the tree. */
  lemma JoinPairOnLeft(tables: seq<string>, taken: seq<seq<Cond>>, flags: seq<int>, plan: Plan, i: nat, j: nat,
                       cond: Cond,
                       pending: multiset<Cond>, all: multiset<Cond>)
    requires Progress(tables, taken, flags, plan, Both([cond]) + pending, all)
    requires i < |flags| && j < |flags| && i != j && flags[i] == flags[j] == WAITING
    requires Across(multiset{tables[i]}, multiset{tables[j]}, cond)
    ensures Progress(tables, taken, flags[i := IN_TREE][j := IN_TREE],
                     Join(Join(Scan(tables[i], taken[i]), Scan(tables[j], taken[j]), [cond]), plan, []), pending, all)
  {
    hide Both, Built;
    var l, r := Scan(tables[i], taken[i]), Scan(tables[j], taken[j]);
    var pair := Join(l, r, [cond]);
    var plan' := Join(pair, plan, []);
    ScanBuilt(tables, taken, i);
    ScanBuilt(tables, taken, j);
    JoinBuilt(tables, taken, l, r, [cond]);
    JoinBuilt(tables, taken, pair, plan, []);
    NoneBoth();
    var placed := CondsOf(plan) + (Both([cond]) + pending);
    TakeScan(tables, taken, flags, i, TablesOf(plan), placed, all);
    TakeScan(tables, taken, flags[i := IN_TREE], j, TablesOf(plan) + multiset{tables[i]}, placed + Both(taken[i]), all);
    assert TablesOf(plan') == TablesOf(plan) + multiset{tables[i]} + multiset{tables[j]};
    assert CondsOf(pair) == Both(taken[i]) + Both(taken[j]) + Both([cond]);
    assert CondsOf(plan') == CondsOf(pair) + CondsOf(plan) + Both([]);
    assert CondsOf(plan') + pending == placed + Both(taken[i]) + Both(taken[j]);
  }

  /** A scan joined on the right without a condition. */
  lemma JoinOnRight(tables: seq<string>, taken: seq<seq<Cond>>, flags: seq<int>, plan: Plan, i: nat,
                    all: multiset<Cond>)
    requires Progress(tables, taken, flags, plan, multiset{}, all) && i < |flags| && flags[i] == WAITING
    ensures Progress(tables, taken, flags[i := IN_TREE], Join(plan, Scan(tables[i], taken[i]), []), multiset{}, all)
  {
    hide Both, Built;
    var scan := Scan(tables[i], taken[i]);
    var plan' := Join(plan, scan, []);
    ScanBuilt(tables, taken, i);
    JoinBuilt(tables, taken, plan, scan, []);
    NoneBoth();
    TakeScan(tables, taken, flags, i, TablesOf(plan), CondsOf(plan) + multiset{}, all);
    assert TablesOf(plan') == TablesOf(plan) + multiset{tables[i]};
    assert CondsOf(plan') == CondsOf(plan) + Both(taken[i]) + Both([]);
    assert CondsOf(plan') + multiset{} == CondsOf(plan) + multiset{} + Both(taken[i]);
  }

  /** Without join conditions the tree starts with the first table. */
  lemma LoneScan(tables: seq<string>, taken: seq<seq<Cond>>, flags: seq<int>, all: multiset<Cond>)
    requires Balanced(tables, taken, flags, multiset{}, multiset{}, all) && Distinct(tables)
    requires |flags| > 0 && flags[0] == WAITING
    ensures Progress(tables, taken, flags[0 := IN_TREE], Scan(tables[0], taken[0]), multiset{}, all)
  {
    hide Both, Built;
    ScanBuilt(tables, taken, 0);
    TakeScan(tables, taken, flags, 0, multiset{}, multiset{}, all);
    assert multiset{} + multiset{tables[0]} == multiset{tables[0]};
    assert multiset{} + Both(taken[0]) == Both(taken[0]) + multiset{};
  }

  /** A condition between tables of the tree is pushed into it. */
  lemma PushInside(tables: seq<string>, taken: seq<seq<Cond>>, flags: seq<int>, plan: Plan, cond: Cond,
                   pending: multiset<Cond>, all: multiset<Cond>)
    requires Progress(tables, taken, flags, plan, Both([cond]) + pending, all)
    requires Crosses(cond) && Found(TablesOf(plan), cond) == 3
    ensures Progress(tables, taken, flags, Pushed(cond, plan), pending, all)
    ensures TablesOf(Pushed(cond, plan)) == TablesOf(plan)
  {
    hide Both, Oriented, FromScans, TablesOf, CondsOf, Pushed;
    UsedOnce(tables, taken, flags, TablesOf(plan), CondsOf(plan) + (Both([cond]) + pending), all);
    PushKeepsScans(cond, plan, tables, taken);
    PushPlaces(cond, plan);
    assert CondsOf(Pushed(cond, plan)) + pending == CondsOf(plan) + (Both([cond]) + pending);
  }

  /** A finished tree uses every table once and places every condition once, the right way round. */
  lemma Finished(tables: seq<string>, taken: seq<seq<Cond>>, flags: seq<int>, plan: Plan, all: multiset<Cond>)
    requires Progress(tables, taken, flags, plan, multiset{}, all)
    requires forall i :: 0 <= i < |flags| ==> flags[i] == IN_TREE
    ensures TablesOf(plan) == multiset(tables) && CondsOf(plan) == all
    ensures Oriented(plan) && FromScans(plan, tables, taken)
    ensures Clean(plan) <==> forall i :: 0 <= i < |tables| ==> OwnsAll(tables[i], taken[i])
  {
    hide Both, Total, OwnsAll;
    NothingWaits(tables, taken, flags, TablesOf(plan), CondsOf(plan) + multiset{}, all);
    CleanScans(plan, tables, taken);
    assert forall i :: 0 <= i < |tables| ==> tables[i] in multiset(tables);
  }

  // ---- Which scan takes which condition ----------------------------------------------------------------

  /** No scan before the k-th takes the condition. */
  ghost predicate Passed(tables: seq<string>, k: nat, cond: Cond)
    requires k <= |tables|
  {
    forall i :: 0 <= i < k ==> !Takes(tables[i], cond)
  }

  /** Each scan has taken the conditions it takes and no earlier scan takes; `rest` is what is left. */
  ghost predicate Dealt(tables: seq<string>, conds: seq<Cond>, taken: seq<seq<Cond>>, rest: seq<Cond>)
    requires |taken| <= |tables|
  {
    && (forall cond :: cond in rest <==> cond in conds && Passed(tables, |taken|, cond))
    && (forall i, cond :: 0 <= i < |taken| ==>
          (cond in taken[i] <==> cond in conds && Takes(tables[i], cond) && Passed(tables, i, cond)))
  }

  lemma DealOne(tables: seq<string>, conds: seq<Cond>, taken: seq<seq<Cond>>, rest: seq<Cond>)
    requires |taken| < |tables| && Dealt(tables, conds, taken, rest)
    ensures var tab := tables[|taken|];
            Dealt(tables, conds, taken + [Select(tab, rest, true)], Select(tab, rest, false))
  {
  }

  /** In the end only comparisons across tables are left, and a scan lacks a column iff a condition
      compares two columns of a table other than the first. */
  lemma AllDealt(tables: seq<string>, conds: seq<Cond>, taken: seq<seq<Cond>>, rest: seq<Cond>)
    requires |tables| == |taken| > 0 && Dealt(tables, conds, taken, rest)
    requires forall cond <- conds :: Resolved(tables, cond)
    ensures forall cond :: cond in rest <==> cond in conds && Crosses(cond)
    ensures (forall i :: 0 <= i < |tables| ==> OwnsAll(tables[i], taken[i])) <==>
            (forall cond <- conds :: !Stray(tables, cond))
  {
    forall cond | cond in conds
      ensures Passed(tables, |tables|, cond) <==> Crosses(cond)
    {
      if !Crosses(cond) {
        var i :| 0 <= i < |tables| && Takes(tables[i], cond);
      }
    }
    forall i | 0 <= i < |tables| && !OwnsAll(tables[i], taken[i])
      ensures exists cond <- conds :: Stray(tables, cond)
    {
      var cond :| cond in taken[i] && !Own(tables[i], cond);
      assert cond in taken[i] <==> cond in conds && Takes(tables[i], cond) && Passed(tables, i, cond);
      assert Passed(tables, i, cond) && i > 0 ==> !Takes(tables[0], cond);
      assert Stray(tables, cond);
    }
    forall cond | cond in conds && Stray(tables, cond)
      ensures !OwnsAll(tables[0], taken[0])
    {
      assert Takes(tables[0], cond) && Passed(tables, 0, cond) && cond in taken[0];
      assert !Own(tables[0], cond);
    }
  }

  // ---- Which comparisons with values a scan has ----------------------------------------------------------

  lemma {:induction false} SelectKeepsValues(tab: string, conds: seq<Cond>, t: string, taken: bool)
    requires taken <==> t == tab
    ensures ValueConds(t, Select(tab, conds, taken)) == ValueConds(t, conds)
  {
    if conds != [] {
      var n := |conds| - 1;
      SelectKeepsValues(tab, conds[..n], t, taken);
      var init := Select(tab, conds[..n], taken);
      assert (init + [conds[n]])[..|init|] == init;
    }
  }

  /** Every scan has all of the query's comparisons of its columns with values, in their order. */
  ghost predicate HasValueConds(plan: Plan, conds: seq<Cond>) {
    match plan
    case Scan(tab, taken) => ValueConds(tab, taken) == ValueConds(tab, conds)
    case Join(left, right, _) => HasValueConds(left, conds) && HasValueConds(right, conds)
  }

  lemma {:induction false} ScansHaveValueConds(plan: Plan, tables: seq<string>, taken: seq<seq<Cond>>, conds: seq<Cond>)
    requires |tables| == |taken| && FromScans(plan, tables, taken)
    requires forall i :: 0 <= i < |tables| ==> ValueConds(tables[i], taken[i]) == ValueConds(tables[i], conds)
    ensures HasValueConds(plan, conds)
  {
    if plan.Join? {
      ScansHaveValueConds(plan.left, tables, taken, conds);
      ScansHaveValueConds(plan.right, tables, taken, conds);
    }
  }
}
