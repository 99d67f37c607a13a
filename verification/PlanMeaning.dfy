/**
 A plan yields exactly the rows it denotes, each once.
 */
module PlanMeaning {
  import opened Common
  import opened Conditions
  import opened JoinPlans
  import opened NestedLoop
  import opened TableScan

  // ---- Finding columns in a joined record ---------------------------------------------------------

  lemma {:induction false} LookupInBoth(ls: seq<Column>, l: Row, rs: seq<Column>, r: Row, c: Column)
    requires |ls| == |l|
    ensures Lookup(ls + rs, l + r, c) == if c in ls then Lookup(ls, l, c) else Lookup(rs, r, c)
  {
    if ls == [] {
      assert ls + rs == rs && l + r == r;
    } else if ls[0] != c {
      assert (ls + rs)[1..] == ls[1..] + rs && (l + r)[1..] == l[1..] + r;
      LookupInBoth(ls[1..], l[1..], rs, r, c);
      assert c in ls <==> c in ls[1..];
    }
  }

  /** The chosen rows side by side. */
  ghost function RecordOf(db: Database, plan: Plan, choice: Choice): Row {
    match plan
    case Scan(tab, _) =>
      if tab in choice && tab in db && choice[tab] < |db[tab].rows| then db[tab].rows[choice[tab]] else []
    case Join(left, right, _) => RecordOf(db, left, choice) + RecordOf(db, right, choice)
  }

  ghost predicate Picks(db: Database, plan: Plan, choice: Choice) {
    forall t <- TablesOf(plan) :: t in choice && t in db && choice[t] < |db[t].rows|
  }

  lemma {:induction false} ColumnsOfPlan(db: Database, plan: Plan, c: Column)
    requires Covers(db, plan)
    ensures c in ColsOf(db, plan) <==> Known(db, TablesOf(plan), c)
  {
    match plan
    case Scan(tab, _) =>
      var cols := db[tab].cols;
      assert forall i :: 0 <= i < |cols| ==> Named(tab, cols)[i] == Column(tab, cols[i]);
      if c.tab == tab && c.col in cols {
        var i :| 0 <= i < |cols| && cols[i] == c.col;
        assert Named(tab, cols)[i] == c;
      }
    case Join(left, right, _) =>
      CoversBoth(db, plan);
      ColumnsOfPlan(db, left, c);
      ColumnsOfPlan(db, right, c);
  }

  lemma {:induction false} RecordWidth(db: Database, plan: Plan, choice: Choice)
    requires WellFormed(db) && Covers(db, plan) && Picks(db, plan, choice)
    ensures |ColsOf(db, plan)| == |RecordOf(db, plan, choice)|
  {
    match plan
    case Scan(tab, _) =>
      assert tab in TablesOf(plan);
      assert Rectangular(db[tab]) && db[tab].rows[choice[tab]] in db[tab].rows;
    case Join(left, right, _) =>
      CoversBoth(db, plan);
      PicksBoth(db, plan, choice);
      RecordWidth(db, left, choice);
      RecordWidth(db, right, choice);
  }

  lemma PicksBoth(db: Database, plan: Plan, choice: Choice)
    requires Picks(db, plan, choice) && plan.Join?
    ensures Picks(db, plan.left, choice) && Picks(db, plan.right, choice)
  {
  }

  /** A column of a plan's tables has, in the joined record, the value of its own row. */
  lemma {:induction false} ColumnInRecord(db: Database, plan: Plan, choice: Choice, c: Column)
    requires WellFormed(db) && Covers(db, plan) && Picks(db, plan, choice) && Known(db, TablesOf(plan), c)
    ensures Lookup(ColsOf(db, plan), RecordOf(db, plan, choice), c) == Value(db, choice, c)
  {
    hide Lookup;
    if plan.Join? {
      var left, right := plan.left, plan.right;
      CoversBoth(db, plan);
      PicksBoth(db, plan, choice);
      ColumnsOfPlan(db, left, c);
      RecordWidth(db, left, choice);
      LookupInBoth(ColsOf(db, left), RecordOf(db, left, choice), ColsOf(db, right), RecordOf(db, right, choice), c);
      ColumnInRecord(db, if Known(db, TablesOf(left), c) then left else right, choice, c);
    }
  }

  lemma ValueExists(db: Database, plan: Plan, choice: Choice, c: Column)
    requires WellFormed(db) && Covers(db, plan) && Picks(db, plan, choice) && Known(db, TablesOf(plan), c)
    ensures Value(db, choice, c).Some?
  {
    RecordWidth(db, plan, choice);
    ColumnsOfPlan(db, plan, c);
    LookupSome(ColsOf(db, plan), RecordOf(db, plan, choice), c);
    ColumnInRecord(db, plan, choice, c);
  }

  lemma OneJudged(db: Database, plan: Plan, choice: Choice, cond: Cond)
    requires WellFormed(db) && Covers(db, plan) && Picks(db, plan, choice) && Speaks(db, TablesOf(plan), cond)
    ensures EvalOne(ColsOf(db, plan), RecordOf(db, plan, choice), cond) == Some(Holds(db, choice, cond))
  {
    hide ColsOf, RecordOf, Value, Lookup, WellFormed, Picks, Covers;
    if cond.lhs.LhsColumn? {
      ColumnInRecord(db, plan, choice, cond.lhs.column);
      ValueExists(db, plan, choice, cond.lhs.column);
    }
    if cond.rhs.RhsColumn? {
      ColumnInRecord(db, plan, choice, cond.rhs.column);
      ValueExists(db, plan, choice, cond.rhs.column);
    }
  }

  /** Testing conditions on the joined record tests them on the choice. */
  lemma {:induction false} JudgedAsChosen(db: Database, plan: Plan, choice: Choice, conds: seq<Cond>)
    requires WellFormed(db) && Covers(db, plan) && Picks(db, plan, choice)
    requires forall cond <- conds :: Speaks(db, TablesOf(plan), cond)
    ensures EvalAll(ColsOf(db, plan), RecordOf(db, plan, choice), conds) == Some(AllHold(db, choice, multiset(conds)))
  {
    hide ColsOf, RecordOf, EvalOne, Holds, Speaks, WellFormed, Picks, Covers;
    if conds != [] {
      OneJudged(db, plan, choice, conds[0]);
      JudgedAsChosen(db, plan, choice, conds[1..]);
      assert conds == [conds[0]] + conds[1..];
    }
  }

  // ---- The pairs a nested loop visits -------------------------------------------------------------

  /** The pairs (a, b) with `hit(a, b)` from (i, j) on: a upwards, b downwards for each a. */
  ghost function Pairs(hit: (nat, nat) -> bool, n: nat, m: nat, i: nat, j: int): seq<(nat, nat)>
    requires j < m
    decreases n - i, j + 1
  {
    if i >= n then []
    else if j < 0 then Pairs(hit, n, m, i + 1, m - 1)
    else if hit(i, j) then [(i, j)] + Pairs(hit, n, m, i, j - 1)
    else Pairs(hit, n, m, i, j - 1)
  }

  ghost predicate Ahead(p: (nat, nat), n: nat, m: nat, i: nat, j: int) {
    (p.0 == i && i < n && p.1 <= j) || (i < p.0 < n && p.1 < m)
  }

  /** Left positions go up; right positions go down within one left position. */
  ghost predicate Precedes(p: (nat, nat), q: (nat, nat)) {
    p.0 < q.0 || (p.0 == q.0 && q.1 < p.1)
  }

  ghost predicate InOrder(pairs: seq<(nat, nat)>) {
    forall k, l :: 0 <= k < l < |pairs| ==> Precedes(pairs[k], pairs[l])
  }

  lemma {:induction false} PairIsHit(hit: (nat, nat) -> bool, n: nat, m: nat, i: nat, j: int, p: (nat, nat))
    requires j < m
    ensures p in Pairs(hit, n, m, i, j) <==> Ahead(p, n, m, i, j) && hit(p.0, p.1)
    decreases n - i, j + 1
  {
    if i < n {
      if j < 0 {
        PairIsHit(hit, n, m, i + 1, m - 1, p);
      } else {
        PairIsHit(hit, n, m, i, j - 1, p);
        assert p.0 == i && p.1 == j <==> p == (i, j as nat);
      }
    }
  }

  /** Exactly the matching pairs, each once, left in order and right in reverse. */
  lemma {:induction false} PairsExact(hit: (nat, nat) -> bool, n: nat, m: nat, i: nat, j: int)
    requires j < m
    ensures forall p :: p in Pairs(hit, n, m, i, j) <==> Ahead(p, n, m, i, j) && hit(p.0, p.1)
    ensures InOrder(Pairs(hit, n, m, i, j))
    decreases n - i, j + 1
  {
    forall p
      ensures p in Pairs(hit, n, m, i, j) <==> Ahead(p, n, m, i, j) && hit(p.0, p.1)
    {
      PairIsHit(hit, n, m, i, j, p);
    }
    if i < n {
      if j < 0 {
        PairsExact(hit, n, m, i + 1, m - 1);
      } else {
        PairsExact(hit, n, m, i, j - 1);
        var rest := Pairs(hit, n, m, i, j - 1);
        assert forall k :: 0 <= k < |rest| ==> rest[k] in rest && Precedes((i, j), rest[k]);
      }
    }
  }

  ghost function Records(left: seq<Row>, right: seq<Row>, pairs: seq<(nat, nat)>): (r: seq<Row>)
    requires forall k :: 0 <= k < |pairs| ==> pairs[k].0 < |left| && pairs[k].1 < |right|
    ensures |r| == |pairs| && forall k :: 0 <= k < |pairs| ==> r[k] == left[pairs[k].0] + right[pairs[k].1]
  {
    seq(|pairs|, k requires 0 <= k < |pairs| => left[pairs[k].0] + right[pairs[k].1])
  }

  ghost predicate Within(pairs: seq<(nat, nat)>, n: nat, m: nat) {
    forall k :: 0 <= k < |pairs| ==> pairs[k].0 < n && pairs[k].1 < m
  }

  /** The nested-loop join yields the records of those pairs. */
  lemma {:induction false} JoinYieldsPairs(left: seq<Row>, right: seq<Row>, cols: seq<Column>, conds: seq<Cond>,
                                           hit: (nat, nat) -> bool, i: nat, j: int)
    requires j < |right|
    requires forall a, b | 0 <= a < |left| && 0 <= b < |right| ::
      EvalAll(cols, left[a] + right[b], conds) == Some(hit(a, b))
    ensures Within(Pairs(hit, |left|, |right|, i, j), |left|, |right|)
    ensures JoinedFrom(left, right, cols, conds, i, j) == Some(Records(left, right, Pairs(hit, |left|, |right|, i, j)))
    decreases |left| - i, j + 1
  {
    hide EvalAll;
    if i < |left| {
      if j < 0 {
        JoinYieldsPairs(left, right, cols, conds, hit, i + 1, |right| - 1);
      } else {
        JoinYieldsPairs(left, right, cols, conds, hit, i, j - 1);
        var rest := Pairs(hit, |left|, |right|, i, j - 1);
        assert EvalAll(cols, left[i] + right[j], conds) == Some(hit(i, j));
        assert hit(i, j) ==>
          Records(left, right, [(i, j as nat)] + rest) == [left[i] + right[j]] + Records(left, right, rest);
      }
    }
  }

  // ---- Conditions and choices -----------------------------------------------------------------------

  /** Exchanging the sides of a comparison does not change its meaning. */
  lemma FlipHolds(db: Database, choice: Choice, cond: Cond)
    ensures Holds(db, choice, Flip(cond)) <==> Holds(db, choice, cond)
  {
  }

  lemma InBoth(conds: seq<Cond>, x: Cond)
    ensures x in Both(conds) <==> x in conds || Flip(x) in conds
    ensures Both(conds)[x] == multiset(conds)[x] + multiset(conds)[Flip(x)]
  {
    FlippedCount(conds, x);
  }

  lemma FlipIsOwnInverse(a: Cond, b: Cond)
    ensures Flip(a) == b <==> a == Flip(b)
  {
  }

  lemma {:induction false} FlippedCount(conds: seq<Cond>, x: Cond)
    ensures multiset(Flipped(conds))[x] == multiset(conds)[Flip(x)]
  {
    hide Flip;
    if conds == [] {
      assert Flipped(conds) == [];
    } else {
      assert conds == [conds[0]] + conds[1..];
      assert Flipped(conds) == [Flip(conds[0])] + Flipped(conds[1..]);
      assert multiset(Flipped(conds)) == multiset{Flip(conds[0])} + multiset(Flipped(conds[1..]));
      FlippedCount(conds[1..], x);
      FlipIsOwnInverse(conds[0], x);
    }
  }

  lemma BothHold(db: Database, choice: Choice, conds: seq<Cond>)
    ensures AllHold(db, choice, Both(conds)) <==> AllHold(db, choice, multiset(conds))
  {
    hide Holds, Both;
    forall x
      ensures x in conds ==> x in Both(conds)
      ensures x in Both(conds) ==> x in conds || Flip(x) in conds
      ensures Holds(db, choice, Flip(x)) <==> Holds(db, choice, x)
    {
      InBoth(conds, x);
      FlipHolds(db, choice, x);
    }
  }

  /** A condition on `tables` does not depend on the rest of a choice. */
  lemma HoldsLocally(db: Database, tables: multiset<string>, c: Choice, c': Choice, cond: Cond)
    requires Speaks(db, tables, cond)
    requires forall t <- tables :: t in c && t in c' && c[t] == c'[t]
    ensures Holds(db, c, cond) <==> Holds(db, c', cond)
  {
  }

  lemma AllHoldSum(db: Database, c: Choice, a: multiset<Cond>, b: multiset<Cond>)
    ensures AllHold(db, c, a + b) <==> AllHold(db, c, a) && AllHold(db, c, b)
  {
    hide Holds;
  }

  lemma AllHoldLocally(db: Database, tables: multiset<string>, conds: seq<Cond>, c: Choice, c': Choice)
    requires forall cond <- conds :: Speaks(db, tables, cond)
    requires forall t <- tables :: t in c && t in c' && c[t] == c'[t]
    ensures AllHold(db, c, multiset(conds)) <==> AllHold(db, c', multiset(conds))
  {
    hide Holds, Speaks;
    forall cond | cond in conds
      ensures Holds(db, c, cond) <==> Holds(db, c', cond)
    {
      HoldsLocally(db, tables, c, c', cond);
    }
  }

  // ---- The choices of a plan ------------------------------------------------------------------------

  ghost function Merged(ls: seq<Choice>, rs: seq<Choice>, pairs: seq<(nat, nat)>): (r: seq<Choice>)
    requires Within(pairs, |ls|, |rs|)
    ensures |r| == |pairs| && forall k :: 0 <= k < |pairs| ==> r[k] == ls[pairs[k].0] + rs[pairs[k].1]
  {
    seq(|pairs|, k requires 0 <= k < |pairs| => ls[pairs[k].0] + rs[pairs[k].1])
  }

  /** Which choices of the two inputs a join puts together. */
  ghost function Hits(db: Database, ls: seq<Choice>, rs: seq<Choice>, conds: seq<Cond>): (nat, nat) -> bool {
    (a: nat, b: nat) => a < |ls| && b < |rs| && AllHold(db, ls[a] + rs[b], multiset(conds))
  }

  ghost function JoinPairs(db: Database, ls: seq<Choice>, rs: seq<Choice>, conds: seq<Cond>): (r: seq<(nat, nat)>)
    ensures forall a: nat, b: nat ::
      (a, b) in r <==> a < |ls| && b < |rs| && AllHold(db, ls[a] + rs[b], multiset(conds))
    ensures Within(r, |ls|, |rs|) && InOrder(r)
  {
    var hit := Hits(db, ls, rs, conds);
    PairsExact(hit, |ls|, |rs|, 0, |rs| - 1);
    var r := Pairs(hit, |ls|, |rs|, 0, |rs| - 1);
    assert forall k :: 0 <= k < |r| ==> r[k] in r;
    r
  }

  ghost function Alone(tab: string, ks: seq<nat>): (r: seq<Choice>)
    ensures |r| == |ks| && forall i :: 0 <= i < |ks| ==> r[i] == map[tab := ks[i]]
  {
    seq(|ks|, i requires 0 <= i < |ks| => map[tab := ks[i]])
  }

  /** The choices a plan yields, in its order; None when it fails. */
  ghost function Yields(db: Database, plan: Plan): Option<seq<Choice>>
    requires Prepared(db, plan)
  {
    match plan
    case Scan(tab, conds) =>
      var ks := Scanned(db[tab], tab, conds);
      if ks.None? then None else Some(Alone(tab, ks.value))
    case Join(left, right, conds) =>
      var rs := Yields(db, right);
      if rs.None? then None
      else if rs.value == [] then Some([])
      else
        var ls := Yields(db, left);
        if ls.None? then None else Some(Merged(ls.value, rs.value, JoinPairs(db, ls.value, rs.value, conds)))
  }

  /** The conditions of joins find their columns in the tables below them. */
  ghost predicate JoinsSpeak(db: Database, plan: Plan) {
    plan.Join? ==>
      JoinsSpeak(db, plan.left) && JoinsSpeak(db, plan.right) &&
      forall cond <- plan.conds :: Speaks(db, TablesOf(plan), cond)
  }

  /** No chosen row is one that its table's scan loses. */
  ghost predicate Keeps(db: Database, plan: Plan, c: Choice)
    requires Prepared(db, plan)
  {
    match plan
    case Scan(tab, conds) => tab in c ==> !Lost(db[tab], tab, conds, c[tab])
    case Join(left, right, _) => Keeps(db, left, c) && Keeps(db, right, c)
  }

  ghost function Restrict(c: Choice, tables: multiset<string>): Choice {
    map t | t in c && t in tables :: c[t]
  }

  ghost predicate Chooses(db: Database, c: Choice, tables: multiset<string>) {
    InRange(db, c) && forall t <- tables :: t in c
  }

  ghost predicate Fits(db: Database, plan: Plan, cs: seq<Choice>) {
    Unique(cs) && forall c <- cs :: ChoosesFrom(c, TablesOf(plan)) && InRange(db, c)
  }

  /** The choices are those that satisfy the plan's conditions and use no lost row, each once. Rows of further
      tables do not matter. */
  ghost predicate Exact(db: Database, plan: Plan, cs: seq<Choice>)
    requires Prepared(db, plan)
  {
    && Fits(db, plan, cs)
    && forall c {:trigger Restrict(c, TablesOf(plan))} :: Chooses(db, c, TablesOf(plan)) ==>
         (Restrict(c, TablesOf(plan)) in cs <==> AllHold(db, c, CondsOf(plan)) && Keeps(db, plan, c))
  }

  lemma ScanExact(db: Database, plan: Plan)
    requires WellFormed(db) && plan.Scan? && Prepared(db, plan) && Yields(db, plan).Some?
    ensures Exact(db, plan, Yields(db, plan).value)
  {
    hide Scanned, Lost, AllHold, Both, WellFormed, Indexed;
    var tab, conds, cs := plan.tab, plan.conds, Yields(db, plan).value;
    var ks := Scanned(db[tab], tab, conds).value;
    ScanIsUnique(db[tab], tab, conds);
    forall i | 0 <= i < |cs|
      ensures ChoosesFrom(cs[i], TablesOf(plan)) && InRange(db, cs[i])
    {
      assert ks[i] in ks;
    }
    assert forall i :: 0 <= i < |cs| ==> cs[i][tab] == ks[i];
    forall c | Chooses(db, c, TablesOf(plan))
      ensures Restrict(c, TablesOf(plan)) in cs <==> AllHold(db, c, CondsOf(plan)) && Keeps(db, plan, c)
    {
      assert tab in TablesOf(plan);
      assert Restrict(c, TablesOf(plan)) == map[tab := c[tab]];
      ScanIsExact(db, tab, c, conds);
      BothHold(db, c, conds);
      InAlone(tab, ks, c[tab]);
    }
  }

  lemma InAlone(tab: string, ks: seq<nat>, k: nat)
    ensures map[tab := k] in Alone(tab, ks) <==> k in ks
  {
    if k in ks {
      var i :| 0 <= i < |ks| && ks[i] == k;
      assert Alone(tab, ks)[i] == map[tab := k];
    }
    if i :| 0 <= i < |ks| && Alone(tab, ks)[i] == map[tab := k] {
      assert map[tab := ks[i]][tab] == map[tab := k][tab];
    }
  }

  ghost predicate Apart(a: multiset<string>, b: multiset<string>) {
    forall t :: t !in a || t !in b
  }

  lemma OnceApart(plan: Plan)
    requires plan.Join? && Once(TablesOf(plan))
    ensures Apart(TablesOf(plan.left), TablesOf(plan.right))
    ensures Once(TablesOf(plan.left)) && Once(TablesOf(plan.right))
  {
    assert forall t :: TablesOf(plan)[t] == TablesOf(plan.left)[t] + TablesOf(plan.right)[t];
    assert forall t :: TablesOf(plan)[t] <= 1;
  }

  /** Two choices from different tables can be taken out of their union again. */
  lemma MergedChoice(db: Database, a: multiset<string>, b: multiset<string>, l: Choice, r: Choice)
    requires Apart(a, b) && ChoosesFrom(l, a) && ChoosesFrom(r, b) && InRange(db, l) && InRange(db, r)
    ensures ChoosesFrom(l + r, a + b) && InRange(db, l + r)
    ensures forall t <- a :: t in l && t in l + r && (l + r)[t] == l[t]
    ensures forall t <- b :: t in r && t in l + r && (l + r)[t] == r[t]
    ensures Restrict(l + r, a) == l && Restrict(l + r, b) == r
  {
    var c := l + r;
    assert forall t <- a :: t in l && t !in r && t in c && c[t] == l[t];
    assert forall t <- b :: t in r && t in c && c[t] == r[t];
    assert Restrict(c, a) == l;
    assert Restrict(c, b) == r;
  }

  lemma SplitChoice(c: Choice, a: multiset<string>, b: multiset<string>)
    requires Apart(a, b)
    ensures Restrict(c, a + b) == Restrict(c, a) + Restrict(c, b)
  {
  }

  lemma MergedIn(ls: seq<Choice>, rs: seq<Choice>, pairs: seq<(nat, nat)>, c: Choice)
    requires Within(pairs, |ls|, |rs|)
    ensures c in Merged(ls, rs, pairs) <==>
            exists a: nat, b: nat :: (a, b) in pairs && a < |ls| && b < |rs| && c == ls[a] + rs[b]
  {
    if c in Merged(ls, rs, pairs) {
      var k :| 0 <= k < |pairs| && Merged(ls, rs, pairs)[k] == c;
      assert pairs[k] in pairs && pairs[k] == (pairs[k].0, pairs[k].1);
    }
    if a: nat, b: nat :| (a, b) in pairs && a < |ls| && b < |rs| && c == ls[a] + rs[b] {
      var k :| 0 <= k < |pairs| && pairs[k] == (a, b);
      assert Merged(ls, rs, pairs)[k] == c;
    }
  }

  /** A pair of input choices makes the part of `c` that the join covers iff each makes its own part. */
  lemma PartsOfChoice(db: Database, plan: Plan, l: Choice, r: Choice, c: Choice)
    requires plan.Join? && Once(TablesOf(plan))
    requires ChoosesFrom(l, TablesOf(plan.left)) && ChoosesFrom(r, TablesOf(plan.right))
    requires InRange(db, l) && InRange(db, r)
    ensures l + r == Restrict(c, TablesOf(plan)) <==>
            l == Restrict(c, TablesOf(plan.left)) && r == Restrict(c, TablesOf(plan.right))
  {
    hide Restrict, ChoosesFrom, InRange, Once, Apart;
    var a, b := TablesOf(plan.left), TablesOf(plan.right);
    OnceApart(plan);
    MergedChoice(db, a, b, l, r);
    SplitChoice(c, a, b);
    RestrictTwice(c, a, b);
  }

  lemma RestrictTwice(c: Choice, a: multiset<string>, b: multiset<string>)
    ensures Restrict(Restrict(c, a + b), a) == Restrict(c, a)
    ensures Restrict(Restrict(c, a + b), b) == Restrict(c, b)
  {
    var both := a + b;
    assert forall t :: t in both <==> t in a || t in b;
  }

  lemma JoinChoice(db: Database, plan: Plan, ls: seq<Choice>, rs: seq<Choice>, c: Choice)
    requires plan.Join? && Prepared(db, plan) && JoinsSpeak(db, plan) && Once(TablesOf(plan))
    requires Exact(db, plan.left, ls) && Exact(db, plan.right, rs) && Chooses(db, c, TablesOf(plan))
    ensures Restrict(c, TablesOf(plan)) in Merged(ls, rs, JoinPairs(db, ls, rs, plan.conds)) <==>
            AllHold(db, c, CondsOf(plan)) && Keeps(db, plan, c)
  {
    hide AllHold, Once, InRange, ChoosesFrom, InOrder, Within, Unique, Both, Speaks, Restrict, JoinsSpeak;
    var left, right := plan.left, plan.right;
    var l, r := Restrict(c, TablesOf(left)), Restrict(c, TablesOf(right));
    var pairs := JoinPairs(db, ls, rs, plan.conds);
    MergedIn(ls, rs, pairs, Restrict(c, TablesOf(plan)));
    ChoosesBoth(db, plan, c);
    CondsOfJoin(db, plan, c);
    if a: nat, b: nat :| (a, b) in pairs && a < |ls| && b < |rs| && Restrict(c, TablesOf(plan)) == ls[a] + rs[b] {
      assert ls[a] in ls && rs[b] in rs;
      PartsOfChoice(db, plan, ls[a], rs[b], c);
    }
    if l in ls && r in rs && AllHold(db, l + r, multiset(plan.conds)) {
      var a: nat :| a < |ls| && ls[a] == l;
      var b: nat :| b < |rs| && rs[b] == r;
      assert (a, b) in pairs;
      PartsOfChoice(db, plan, l, r, c);
    }
  }

  lemma ChoosesBoth(db: Database, plan: Plan, c: Choice)
    requires plan.Join? && Chooses(db, c, TablesOf(plan))
    ensures Chooses(db, c, TablesOf(plan.left)) && Chooses(db, c, TablesOf(plan.right))
  {
    assert forall t :: t in TablesOf(plan.left) || t in TablesOf(plan.right) ==> t in TablesOf(plan);
  }

  /** The conditions of a join: those of its inputs, and its own, which speak of its tables only. */
  lemma CondsOfJoin(db: Database, plan: Plan, c: Choice)
    requires plan.Join? && JoinsSpeak(db, plan) && Once(TablesOf(plan)) && Chooses(db, c, TablesOf(plan))
    ensures var l, r := Restrict(c, TablesOf(plan.left)), Restrict(c, TablesOf(plan.right));
            AllHold(db, c, CondsOf(plan)) <==>
              AllHold(db, c, CondsOf(plan.left)) && AllHold(db, c, CondsOf(plan.right)) &&
              AllHold(db, l + r, multiset(plan.conds))
  {
    hide AllHold, Both, InRange, Speaks;
    var left, right := plan.left, plan.right;
    OnceApart(plan);
    SplitChoice(c, TablesOf(left), TablesOf(right));
    AllHoldSum(db, c, CondsOf(left) + CondsOf(right), Both(plan.conds));
    AllHoldSum(db, c, CondsOf(left), CondsOf(right));
    BothHold(db, c, plan.conds);
    AllHoldLocally(db, TablesOf(plan), plan.conds, c, Restrict(c, TablesOf(plan)));
  }

  lemma MergedUnique(db: Database, plan: Plan, ls: seq<Choice>, rs: seq<Choice>, pairs: seq<(nat, nat)>)
    requires plan.Join? && Once(TablesOf(plan)) && Within(pairs, |ls|, |rs|) && InOrder(pairs)
    requires Fits(db, plan.left, ls) && Fits(db, plan.right, rs)
    ensures Fits(db, plan, Merged(ls, rs, pairs))
  {
    hide Restrict, ChoosesFrom, InRange, Apart, Once;
    OnceApart(plan);
    var a, b, cs := TablesOf(plan.left), TablesOf(plan.right), Merged(ls, rs, pairs);
    forall k | 0 <= k < |pairs|
      ensures ChoosesFrom(cs[k], a + b) && InRange(db, cs[k])
      ensures Restrict(cs[k], a) == ls[pairs[k].0] && Restrict(cs[k], b) == rs[pairs[k].1]
    {
      assert ls[pairs[k].0] in ls && rs[pairs[k].1] in rs;
      MergedChoice(db, a, b, ls[pairs[k].0], rs[pairs[k].1]);
    }
    forall k, l | 0 <= k < l < |pairs|
      ensures cs[k] != cs[l]
    {
      assert Precedes(pairs[k], pairs[l]);
    }
  }

  lemma JoinExact(db: Database, plan: Plan, ls: seq<Choice>, rs: seq<Choice>)
    requires plan.Join? && Prepared(db, plan) && JoinsSpeak(db, plan) && Once(TablesOf(plan))
    requires Exact(db, plan.left, ls) && Exact(db, plan.right, rs)
    ensures Exact(db, plan, Merged(ls, rs, JoinPairs(db, ls, rs, plan.conds)))
  {
    hide AllHold, JoinsSpeak, TablesOf, CondsOf, Once, Keeps, Restrict, Chooses, Prepared;
    var cs := Merged(ls, rs, JoinPairs(db, ls, rs, plan.conds));
    forall c | Chooses(db, c, TablesOf(plan))
      ensures Restrict(c, TablesOf(plan)) in cs <==> AllHold(db, c, CondsOf(plan)) && Keeps(db, plan, c)
    {
      JoinChoice(db, plan, ls, rs, c);
    }
    MergedUnique(db, plan, ls, rs, JoinPairs(db, ls, rs, plan.conds));
  }

  /** A join whose right input yields nothing yields nothing. */
  lemma NothingJoined(db: Database, plan: Plan)
    requires plan.Join? && Prepared(db, plan) && JoinsSpeak(db, plan) && Once(TablesOf(plan))
    requires Exact(db, plan.right, [])
    ensures Exact(db, plan, [])
  {
    hide AllHold, JoinsSpeak, Once, Restrict;
    forall c | Chooses(db, c, TablesOf(plan))
      ensures !(AllHold(db, c, CondsOf(plan)) && Keeps(db, plan, c))
    {
      ChoosesBoth(db, plan, c);
      CondsOfJoin(db, plan, c);
      assert Restrict(c, TablesOf(plan.right)) !in [];
    }
  }

  /** A plan that does not fail yields exactly the choices that satisfy its conditions and use no lost row. */
  lemma {:induction false} YieldsExact(db: Database, plan: Plan)
    requires WellFormed(db) && Prepared(db, plan) && JoinsSpeak(db, plan) && Once(TablesOf(plan))
    requires Yields(db, plan).Some?
    ensures Exact(db, plan, Yields(db, plan).value)
  {
    hide Exact, WellFormed, JoinPairs;
    if plan.Scan? {
      ScanExact(db, plan);
    } else {
      OnceApart(plan);
      YieldsExact(db, plan.right);
      if Yields(db, plan.right).value == [] {
        NothingJoined(db, plan);
      } else {
        YieldsExact(db, plan.left);
        JoinExact(db, plan, Yields(db, plan.left).value, Yields(db, plan.right).value);
      }
    }
  }

  // ---- The records of a plan -------------------------------------------------------------------------

  ghost function RecordsOf(db: Database, plan: Plan, choices: seq<Choice>): (r: seq<Row>)
    ensures |r| == |choices| && forall k :: 0 <= k < |choices| ==> r[k] == RecordOf(db, plan, choices[k])
  {
    seq(|choices|, k requires 0 <= k < |choices| => RecordOf(db, plan, choices[k]))
  }

  lemma {:induction false} RecordLocal(db: Database, plan: Plan, c: Choice, c': Choice)
    requires forall t <- TablesOf(plan) :: t in c && t in c' && c[t] == c'[t]
    ensures RecordOf(db, plan, c) == RecordOf(db, plan, c')
  {
    if plan.Join? {
      assert forall t <- TablesOf(plan.left) :: t in TablesOf(plan);
      assert forall t <- TablesOf(plan.right) :: t in TablesOf(plan);
      RecordLocal(db, plan.left, c, c');
      RecordLocal(db, plan.right, c, c');
    }
  }

  /** What a pair of input records becomes. */
  lemma PairRecord(db: Database, plan: Plan, l: Choice, r: Choice)
    requires plan.Join? && WellFormed(db) && Covers(db, plan) && JoinsSpeak(db, plan) && Once(TablesOf(plan))
    requires ChoosesFrom(l, TablesOf(plan.left)) && InRange(db, l)
    requires ChoosesFrom(r, TablesOf(plan.right)) && InRange(db, r)
    ensures RecordOf(db, plan, l + r) == RecordOf(db, plan.left, l) + RecordOf(db, plan.right, r)
    ensures EvalAll(ColsOf(db, plan), RecordOf(db, plan.left, l) + RecordOf(db, plan.right, r), plan.conds) ==
            Some(AllHold(db, l + r, multiset(plan.conds)))
  {
    hide EvalAll, AllHold, CondsOf, WellFormed, ColsOf;
    OnceApart(plan);
    MergedChoice(db, TablesOf(plan.left), TablesOf(plan.right), l, r);
    RecordLocal(db, plan.left, l + r, l);
    RecordLocal(db, plan.right, l + r, r);
    assert Picks(db, plan, l + r) by {
      assert forall t <- TablesOf(plan) :: t in TablesOf(plan.left) + TablesOf(plan.right);
    }
    JudgedAsChosen(db, plan, l + r, plan.conds);
  }

  lemma JoinYields(db: Database, plan: Plan, ls: seq<Choice>, rs: seq<Choice>)
    requires plan.Join? && WellFormed(db) && Covers(db, plan) && JoinsSpeak(db, plan) && Once(TablesOf(plan))
    requires Fits(db, plan.left, ls) && Fits(db, plan.right, rs)
    ensures Joined(RecordsOf(db, plan.left, ls), RecordsOf(db, plan.right, rs), ColsOf(db, plan), plan.conds) ==
            Some(RecordsOf(db, plan, Merged(ls, rs, JoinPairs(db, ls, rs, plan.conds))))
  {
    hide WellFormed, Covers, JoinsSpeak, Once, TablesOf, ColsOf, EvalAll;
    hide AllHold, RecordOf, ChoosesFrom, InRange, Unique;
    var left, right := RecordsOf(db, plan.left, ls), RecordsOf(db, plan.right, rs);
    var hit, pairs := Hits(db, ls, rs, plan.conds), JoinPairs(db, ls, rs, plan.conds);
    forall a, b | 0 <= a < |left| && 0 <= b < |right|
      ensures EvalAll(ColsOf(db, plan), left[a] + right[b], plan.conds) == Some(hit(a, b))
      ensures RecordOf(db, plan, ls[a] + rs[b]) == left[a] + right[b]
    {
      assert ls[a] in ls && rs[b] in rs;
      PairRecord(db, plan, ls[a], rs[b]);
    }
    JoinYieldsPairs(left, right, ColsOf(db, plan), plan.conds, hit, 0, |right| - 1);
    assert Records(left, right, pairs) == RecordsOf(db, plan, Merged(ls, rs, pairs));
  }

  lemma ScanYields(db: Database, plan: Plan)
    requires plan.Scan? && Prepared(db, plan) && Yields(db, plan).Some?
    ensures Run(db, plan) == Some(RecordsOf(db, plan, Yields(db, plan).value))
  {
    hide Scanned, Indexed;
    var tab, ks := plan.tab, Scanned(db[plan.tab], plan.tab, plan.conds).value;
    ScanIsUnique(db[tab], tab, plan.conds);
    var rows, records := RowsAt(db[tab].rows, ks), RecordsOf(db, plan, Alone(tab, ks));
    forall i | 0 <= i < |ks|
      ensures rows[i] == records[i]
    {
      assert ks[i] in ks;
    }
    assert rows == records;
  }

  /** Running a plan gives the records of its choices, in their order, and fails when they do. */
  lemma {:induction false} RunYields(db: Database, plan: Plan)
    requires WellFormed(db) && Prepared(db, plan) && JoinsSpeak(db, plan) && Once(TablesOf(plan))
    ensures var cs := Yields(db, plan);
            Run(db, plan) == if cs.None? then None else Some(RecordsOf(db, plan, cs.value))
  {
    hide Scanned, WellFormed, JoinPairs, RecordOf, ColsOf, Joined;
    if plan.Scan? {
      if Yields(db, plan).Some? {
        ScanYields(db, plan);
      }
    } else {
      PreparedCovers(db, plan);
      OnceApart(plan);
      RunYields(db, plan.left);
      RunYields(db, plan.right);
      var ls, rs := Yields(db, plan.left), Yields(db, plan.right);
      if rs.Some? && rs.value == [] {
        assert RecordsOf(db, plan, []) == [];
      } else if ls.Some? && rs.Some? {
        YieldsExact(db, plan.left);
        YieldsExact(db, plan.right);
        JoinYields(db, plan, ls.value, rs.value);
      }
    }
  }
}
