/**
 The scan of one table in a plan: the planner lets it use the index with the most usable conditions, if
 there is one, and the scan then tests all its conditions on the rows it reads.
 */
module TableScan {
  import opened Common
  import opened KeyOrder
  import opened Conditions
  import opened IndexRange
  import opened JoinPlans

  // ---------------------------------------------------------------- usable conditions

  /** The comparisons of columns of `tab` with values. */
  function ValueConds(tab: string, conds: seq<Cond>): seq<Cond> {
    if conds == [] then []
    else
      var init, c := ValueConds(tab, conds[..|conds| - 1]), conds[|conds| - 1];
      if c.lhs.LhsColumn? && c.lhs.column.tab == tab && c.rhs.RhsValue? then init + [c] else init
  }

  /** The place of a column. */
  function Position(names: seq<string>, name: string): (p: Option<nat>)
    ensures p.Some? ==> p.value < |names| && names[p.value] == name && name !in names[..p.value]
    ensures p.None? <==> name !in names
  {
    if names == [] then None
    else if names[0] == name then Some(0)
    else
      var rest := Position(names[1..], name);
      if rest.None? then None else Some(rest.value + 1)
  }

  /** Comparisons with values, by the places of their columns. */
  function Placed(names: seq<string>, conds: seq<Cond>): seq<ValueCond> {
    if conds == [] then []
    else
      var init, c := Placed(names, conds[..|conds| - 1]), conds[|conds| - 1];
      if c.lhs.LhsColumn? && c.rhs.RhsValue? && Position(names, c.lhs.column.col).Some?
      then init + [ValueCond(Position(names, c.lhs.column.col).value, c.op, c.rhs.value)]
      else init
  }

  function Usable(rel: Relation, tab: string, conds: seq<Cond>): seq<ValueCond> {
    Placed(rel.cols, ValueConds(tab, conds))
  }

  /** The `i`-th condition compares a column of the table with a value. */
  ghost predicate Compares(rel: Relation, tab: string, conds: seq<Cond>, i: int) {
    && 0 <= i < |conds| && conds[i].lhs.LhsColumn? && conds[i].lhs.column.tab == tab && conds[i].rhs.RhsValue?
    && conds[i].lhs.column.col in rel.cols
  }

  /** It is `u`, where the column is the first with its name. */
  ghost predicate IsUsable(rel: Relation, tab: string, conds: seq<Cond>, i: int, u: ValueCond) {
    && Compares(rel, tab, conds, i) && u.op == conds[i].op && u.val == conds[i].rhs.value
    && u.col < |rel.cols| && rel.cols[u.col] == conds[i].lhs.column.col && rel.cols[u.col] !in rel.cols[..u.col]
  }

  /** The usable conditions are exactly the comparisons of the table's columns with values, in order. */
  lemma {:induction false} UsableByPlace(rel: Relation, tab: string, conds: seq<Cond>) returns (from: seq<int>)
    ensures |from| == |Usable(rel, tab, conds)|
    ensures forall k :: 0 <= k < |from| ==> IsUsable(rel, tab, conds, from[k], Usable(rel, tab, conds)[k])
    ensures forall k, l :: 0 <= k < l < |from| ==> from[k] < from[l]
    ensures forall i :: Compares(rel, tab, conds, i) ==> i in from
  {
    hide Usable, IsUsable;
    from := [];
    UsableGrows(rel, tab, conds);
    if conds != [] {
      var n := |conds| - 1;
      var before := UsableByPlace(rel, tab, conds[..n]);
      forall k | 0 <= k < |before|
        ensures before[k] < n && IsUsable(rel, tab, conds, before[k], Usable(rel, tab, conds[..n])[k])
      {
        EarlierUsable(rel, tab, conds, before[k], Usable(rel, tab, conds[..n])[k]);
      }
      from := if Compares(rel, tab, conds, n) then before + [n] else before;
      forall i | Compares(rel, tab, conds, i)
        ensures i in from
      {
        assert i < n ==> Compares(rel, tab, conds[..n], i);
      }
    }
  }

  lemma EarlierUsable(rel: Relation, tab: string, conds: seq<Cond>, i: int, u: ValueCond)
    requires conds != [] && IsUsable(rel, tab, conds[..|conds| - 1], i, u)
    ensures i < |conds| - 1 && IsUsable(rel, tab, conds, i, u)
  {
  }

  /** The last condition adds itself to the usable ones, if it is one. */
  lemma UsableGrows(rel: Relation, tab: string, conds: seq<Cond>)
    ensures conds == [] ==> Usable(rel, tab, conds) == []
    ensures
      conds != [] ==>
        var n := |conds| - 1;
        var before, all := Usable(rel, tab, conds[..n]), Usable(rel, tab, conds);
        if Compares(rel, tab, conds, n)
        then |all| == |before| + 1 && all[..|before|] == before && IsUsable(rel, tab, conds, n, all[|before|])
        else all == before
  {
    if conds != [] {
      var n := |conds| - 1;
      var some := ValueConds(tab, conds[..n]);
      assert (some + [conds[n]])[..|some|] == some;
    }
  }

  function PathColumns(paths: seq<Path>): (r: seq<seq<nat>>)
    ensures |r| == |paths| && forall i :: 0 <= i < |paths| ==> r[i] == paths[i].cols
  {
    seq(|paths|, i requires 0 <= i < |paths| => paths[i].cols)
  }

  // ---------------------------------------------------------------- indexes of a relation

  /** The rows fit the index, and it lists each of them once, in the order of their keys. */
  ghost predicate PathOk(rel: Relation, path: Path) {
    && |path.cols| == |path.sizes|
    && (forall k :: 0 <= k < |rel.rows| ==> RowFits(rel.rows[k], path.cols, path.sizes))
    && (forall k :: 0 <= k < |rel.rows| ==> k in path.byKey)
    && (forall i :: 0 <= i < |path.byKey| ==> path.byKey[i] < |rel.rows|)
    && (forall i, j :: 0 <= i < j < |path.byKey| ==>
          KeyRank(rel.rows[path.byKey[i]], path) < KeyRank(rel.rows[path.byKey[j]], path))
  }

  function KeyRank(row: Row, path: Path): nat
    requires |path.cols| == |path.sizes| && forall i :: 0 <= i < |path.cols| ==> path.cols[i] < |row|
  {
    Rank(KeyOf(row, path.cols), path.sizes)
  }

  /** The indexes are well formed and the values that their columns are compared with have their types. */
  ghost predicate Indexed(rel: Relation, tab: string, conds: seq<Cond>) {
    forall path <- rel.paths :: PathOk(rel, path) && CondsFit(Usable(rel, tab, conds), path.cols, path.sizes)
  }

  /** The index that the planner lets the scan use. */
  ghost function Picked(rel: Relation, tab: string, conds: seq<Cond>): (r: Option<Path>)
    ensures r.Some? ==> r.value in rel.paths
  {
    var best := Best(Usable(rel, tab, conds), PathColumns(rel.paths));
    if best.None? then None else Some(rel.paths[best.value])
  }

  /** The scan reads its range, if it uses an index. */
  ghost predicate Reads(rel: Relation, tab: string, conds: seq<Cond>)
    requires Indexed(rel, tab, conds)
  {
    var path := Picked(rel, tab, conds);
    path.Some? ==>
      var r := RangeOf(Usable(rel, tab, conds), path.value.cols, path.value.sizes);
      path.value.readable(From(r, path.value.sizes), To(r, path.value.sizes))
  }

  /** The scan uses an index whose padded lower bound cuts the row off. */
  ghost predicate Lost(rel: Relation, tab: string, conds: seq<Cond>, k: nat) {
    var path := Picked(rel, tab, conds);
    && path.Some? && k < |rel.rows| && RowFits(rel.rows[k], path.value.cols, path.value.sizes)
    && Missed(rel.rows[k], Usable(rel, tab, conds), path.value.cols, path.value.sizes)
  }

  /** How a scan uses indexes depends on its comparisons with values only. */
  lemma SameUse(rel: Relation, tab: string, a: seq<Cond>, b: seq<Cond>)
    requires ValueConds(tab, a) == ValueConds(tab, b)
    ensures Indexed(rel, tab, a) <==> Indexed(rel, tab, b)
    ensures Indexed(rel, tab, a) ==> (Reads(rel, tab, a) <==> Reads(rel, tab, b))
    ensures forall k :: Lost(rel, tab, a, k) <==> Lost(rel, tab, b, k)
  {
    assert Usable(rel, tab, a) == Usable(rel, tab, b);
    hide Usable, PathOk, CondsFit, RangeOf, Missed, RowFits;
  }

  // ---------------------------------------------------------------- what a scan reads and keeps

  function UpTo(n: nat): (ks: seq<nat>)
    ensures |ks| == n && forall i :: 0 <= i < n ==> ks[i] == i
  {
    seq(n, i => i)
  }

  /** The listed rows whose keys lie in the range. */
  ghost function Between(rel: Relation, path: Path, from: int, to: int, ks: seq<nat>): (r: seq<nat>)
    requires |path.cols| == |path.sizes|
    ensures forall k :: k in r <==>
      && k in ks && k < |rel.rows| && RowFits(rel.rows[k], path.cols, path.sizes)
      && from <= KeyRank(rel.rows[k], path) < to
  {
    if ks == [] then []
    else
      var init, k := Between(rel, path, from, to, ks[..|ks| - 1]), ks[|ks| - 1];
      assert ks == ks[..|ks| - 1] + [k];
      if k < |rel.rows| && RowFits(rel.rows[k], path.cols, path.sizes) && from <= KeyRank(rel.rows[k], path) < to
      then init + [k] else init
  }

  /** The rows a scan tests, in its order; None when it cannot read its range. */
  ghost function Tested(rel: Relation, tab: string, conds: seq<Cond>): (r: Option<seq<nat>>)
    requires Indexed(rel, tab, conds)
    ensures r.Some? ==> forall i :: 0 <= i < |r.value| ==> r.value[i] < |rel.rows|
  {
    var path := Picked(rel, tab, conds);
    if path.None? then Some(UpTo(|rel.rows|))
    else if !Reads(rel, tab, conds) then None
    else
      var r := RangeOf(Usable(rel, tab, conds), path.value.cols, path.value.sizes);
      var ks := Between(rel, path.value, From(r, path.value.sizes), To(r, path.value.sizes), path.value.byKey);
      assert forall i :: 0 <= i < |ks| ==> ks[i] in ks;
      Some(ks)
  }

  /** The listed rows that meet the conditions; None when a condition lacks a column. */
  function Kept(cols: seq<Column>, rows: seq<Row>, conds: seq<Cond>, ks: seq<nat>): Option<seq<nat>>
    requires forall i :: 0 <= i < |ks| ==> ks[i] < |rows|
  {
    if ks == [] then Some([])
    else
      var n := |ks| - 1;
      var init, last := Kept(cols, rows, conds, ks[..n]), EvalAll(cols, rows[ks[n]], conds);
      if init.None? || last.None? then None
      else Some(if last.value then init.value + [ks[n]] else init.value)
  }

  /** The rows a scan yields; None when it fails. */
  ghost function Scanned(rel: Relation, tab: string, conds: seq<Cond>): Option<seq<nat>>
    requires Indexed(rel, tab, conds)
  {
    var ks := Tested(rel, tab, conds);
    if ks.None? then None else Kept(Named(tab, rel.cols), rel.rows, conds, ks.value)
  }

  // ---------------------------------------------------------------- what the rows of a scan are

  lemma {:induction false} LookupSome(cols: seq<Column>, rec: Row, c: Column)
    requires |cols| == |rec|
    ensures Lookup(cols, rec, c).Some? <==> c in cols
  {
    if cols != [] && cols[0] != c {
      LookupSome(cols[1..], rec[1..], c);
      assert c in cols <==> c in cols[1..];
    }
  }

  /** A test that comes to an answer on a table's own row answers for every choice of that row. */
  lemma OneIsJudged(db: Database, tab: string, c: Choice, cond: Cond)
    requires WellFormed(db) && InRange(db, c) && tab in c
    ensures
      var v := EvalOne(Named(tab, db[tab].cols), db[tab].rows[c[tab]], cond);
      v.Some? ==> v.value == Holds(db, c, cond)
  {
    var cols, row := Named(tab, db[tab].cols), db[tab].rows[c[tab]];
    assert Rectangular(db[tab]) && row in db[tab].rows;
    forall col: Column
      ensures Lookup(cols, row, col).Some? ==> Value(db, c, col) == Lookup(cols, row, col)
    {
      LookupSome(cols, row, col);
    }
  }

  lemma {:induction false} AllAreJudged(db: Database, tab: string, c: Choice, conds: seq<Cond>)
    requires WellFormed(db) && InRange(db, c) && tab in c
    ensures
      var v := EvalAll(Named(tab, db[tab].cols), db[tab].rows[c[tab]], conds);
      v.Some? ==> v.value == AllHold(db, c, multiset(conds))
  {
    hide EvalOne, Holds, WellFormed, InRange;
    if conds != [] {
      OneIsJudged(db, tab, c, conds[0]);
      AllAreJudged(db, tab, c, conds[1..]);
      assert conds == [conds[0]] + conds[1..];
    }
  }

  lemma {:induction false} KeptExact(cols: seq<Column>, rows: seq<Row>, conds: seq<Cond>, ks: seq<nat>)
    requires forall i :: 0 <= i < |ks| ==> ks[i] < |rows|
    ensures
      var r := Kept(cols, rows, conds, ks);
      && (r.None? <==> exists k <- ks :: k < |rows| && EvalAll(cols, rows[k], conds) == None)
      && (r.Some? ==> forall k :: k in r.value <==>
            k in ks && k < |rows| && EvalAll(cols, rows[k], conds) == Some(true))
  {
    hide EvalAll;
    if ks != [] {
      KeptExact(cols, rows, conds, ks[..|ks| - 1]);
      assert ks == ks[..|ks| - 1] + [ks[|ks| - 1]];
    }
  }

  lemma {:induction false} ValueCondsExact(tab: string, conds: seq<Cond>, x: Cond)
    ensures x in ValueConds(tab, conds) <==>
            x in conds && x.lhs.LhsColumn? && x.lhs.column.tab == tab && x.rhs.RhsValue?
  {
    if conds != [] {
      ValueCondsExact(tab, conds[..|conds| - 1], x);
      assert conds == conds[..|conds| - 1] + [conds[|conds| - 1]];
    }
  }

  lemma {:induction false} LookupAtPosition(tab: string, names: seq<string>, row: Row, name: string)
    requires |names| == |row| && Position(names, name).Some?
    ensures Lookup(Named(tab, names), row, Column(tab, name)) == Some(row[Position(names, name).value])
  {
    if names[0] != name {
      assert Named(tab, names)[1..] == Named(tab, names[1..]);
      LookupAtPosition(tab, names[1..], row[1..], name);
    }
  }

  lemma OneMeets(db: Database, tab: string, c: Choice, x: Cond)
    requires WellFormed(db) && InRange(db, c) && tab in c && Holds(db, c, x)
    requires x.lhs.LhsColumn? && x.lhs.column.tab == tab && x.rhs.RhsValue?
    requires Position(db[tab].cols, x.lhs.column.col).Some?
    ensures Meets(db[tab].rows[c[tab]], ValueCond(Position(db[tab].cols, x.lhs.column.col).value, x.op, x.rhs.value))
  {
    var row := db[tab].rows[c[tab]];
    assert Rectangular(db[tab]) && row in db[tab].rows;
    LookupAtPosition(tab, db[tab].cols, row, x.lhs.column.col);
    assert Column(tab, x.lhs.column.col) == x.lhs.column;
  }

  /** A row that meets the comparisons meets them by the places of their columns. */
  lemma {:induction false} PlacedMeets(db: Database, tab: string, c: Choice, conds: seq<Cond>)
    requires WellFormed(db) && InRange(db, c) && tab in c
    requires forall x <- conds :: x.lhs.LhsColumn? && x.lhs.column.tab == tab && x.rhs.RhsValue? && Holds(db, c, x)
    ensures MeetsAll(db[tab].rows[c[tab]], Placed(db[tab].cols, conds))
  {
    hide Holds, Meets, WellFormed, Position;
    if conds != [] {
      var n := |conds| - 1;
      assert conds == conds[..n] + [conds[n]];
      PlacedMeets(db, tab, c, conds[..n]);
      if Position(db[tab].cols, conds[n].lhs.column.col).Some? {
        OneMeets(db, tab, c, conds[n]);
      }
    }
  }

  lemma UsableMeets(db: Database, tab: string, c: Choice, conds: seq<Cond>)
    requires WellFormed(db) && InRange(db, c) && tab in c && AllHold(db, c, multiset(conds))
    ensures MeetsAll(db[tab].rows[c[tab]], Usable(db[tab], tab, conds))
  {
    hide Holds, Placed, MeetsAll, WellFormed;
    forall x | x in ValueConds(tab, conds)
      ensures x.lhs.LhsColumn? && x.lhs.column.tab == tab && x.rhs.RhsValue? && Holds(db, c, x)
    {
      ValueCondsExact(tab, conds, x);
    }
    PlacedMeets(db, tab, c, ValueConds(tab, conds));
  }

  /** A row that meets the conditions is tested iff it is not lost. */
  lemma MatchIsTested(db: Database, tab: string, c: Choice, conds: seq<Cond>)
    requires WellFormed(db) && InRange(db, c) && tab in c && AllHold(db, c, multiset(conds))
    requires Indexed(db[tab], tab, conds) && Tested(db[tab], tab, conds).Some?
    ensures c[tab] in Tested(db[tab], tab, conds).value <==> !Lost(db[tab], tab, conds, c[tab])
  {
    hide AllHold, Usable, Missed, MeetsAll, From, To, CondsFit, WellFormed;
    var rel, k := db[tab], c[tab];
    var usable, path := Usable(rel, tab, conds), Picked(rel, tab, conds);
    if path.None? {
      assert UpTo(|rel.rows|)[k] == k;
    } else {
      var p := path.value;
      var r := RangeOf(usable, p.cols, p.sizes);
      UsableMeets(db, tab, c, conds);
      assert PathOk(rel, p) && CondsFit(usable, p.cols, p.sizes);
      MatchIsAboveBottom(r, rel.rows[k], usable, p.cols, p.sizes);
      MatchIsBelowTop(r, rel.rows[k], usable, p.cols, p.sizes);
    }
  }

  /** A scan that comes to an end yields exactly the rows that meet its conditions and are not lost,
      whatever rows of other tables they are chosen with. */
  lemma ScanIsExact(db: Database, tab: string, c: Choice, conds: seq<Cond>)
    requires WellFormed(db) && InRange(db, c) && tab in c
    requires Indexed(db[tab], tab, conds) && Scanned(db[tab], tab, conds).Some?
    ensures c[tab] in Scanned(db[tab], tab, conds).value <==>
            AllHold(db, c, multiset(conds)) && !Lost(db[tab], tab, conds, c[tab])
  {
    hide AllHold, Lost, Tested, EvalAll, Kept, WellFormed, Indexed;
    var rel, k := db[tab], c[tab];
    KeptExact(Named(tab, rel.cols), rel.rows, conds, Tested(rel, tab, conds).value);
    AllAreJudged(db, tab, c, conds);
    if AllHold(db, c, multiset(conds)) {
      MatchIsTested(db, tab, c, conds);
    }
  }

  ghost predicate Unique<T>(s: seq<T>) {
    forall k, l :: 0 <= k < l < |s| ==> s[k] != s[l]
  }

  lemma {:induction false} KeptUnique(cols: seq<Column>, rows: seq<Row>, conds: seq<Cond>, ks: seq<nat>)
    requires Unique(ks) && forall i :: 0 <= i < |ks| ==> ks[i] < |rows|
    ensures Kept(cols, rows, conds, ks).Some? ==> Unique(Kept(cols, rows, conds, ks).value)
  {
    hide EvalAll;
    if ks != [] {
      KeptUnique(cols, rows, conds, ks[..|ks| - 1]);
      KeptExact(cols, rows, conds, ks[..|ks| - 1]);
    }
  }

  lemma {:induction false} BetweenUnique(rel: Relation, path: Path, from: int, to: int, ks: seq<nat>)
    requires |path.cols| == |path.sizes| && Unique(ks)
    ensures Unique(Between(rel, path, from, to, ks))
  {
    hide RowFits, KeyRank;
    if ks != [] {
      BetweenUnique(rel, path, from, to, ks[..|ks| - 1]);
    }
  }

  /** A scan yields no row twice. */
  lemma ScanIsUnique(rel: Relation, tab: string, conds: seq<Cond>)
    requires Indexed(rel, tab, conds) && Scanned(rel, tab, conds).Some?
    ensures Unique(Scanned(rel, tab, conds).value)
    ensures forall i :: 0 <= i < |Scanned(rel, tab, conds).value| ==> Scanned(rel, tab, conds).value[i] < |rel.rows|
  {
    hide Between, Kept, Usable;
    var path, cols, ks := Picked(rel, tab, conds), Named(tab, rel.cols), Tested(rel, tab, conds).value;
    if path.Some? {
      var p := path.value;
      var r := RangeOf(Usable(rel, tab, conds), p.cols, p.sizes);
      assert PathOk(rel, p);
      BetweenUnique(rel, p, From(r, p.sizes), To(r, p.sizes), p.byKey);
    }
    KeptUnique(cols, rel.rows, conds, ks);
    KeptExact(cols, rel.rows, conds, ks);
    var out := Scanned(rel, tab, conds).value;
    assert forall i :: 0 <= i < |out| ==> out[i] in out;
  }

  ghost predicate Ascends(ks: seq<nat>, f: nat -> int) {
    forall i, j :: 0 <= i < j < |ks| ==> f(ks[i]) < f(ks[j])
  }

  lemma {:induction false} KeptAscends(cols: seq<Column>, rows: seq<Row>, conds: seq<Cond>, ks: seq<nat>, f: nat -> int)
    requires Ascends(ks, f) && forall i :: 0 <= i < |ks| ==> ks[i] < |rows|
    ensures Kept(cols, rows, conds, ks).Some? ==> Ascends(Kept(cols, rows, conds, ks).value, f)
  {
    hide EvalAll;
    if ks != [] {
      var n := |ks| - 1;
      KeptAscends(cols, rows, conds, ks[..n], f);
      KeptExact(cols, rows, conds, ks[..n]);
      assert forall k <- ks[..n] :: f(k) < f(ks[n]);
    }
  }

  lemma {:induction false} BetweenAscends(rel: Relation, path: Path, from: int, to: int, ks: seq<nat>, f: nat -> int)
    requires |path.cols| == |path.sizes| && Ascends(ks, f)
    ensures Ascends(Between(rel, path, from, to, ks), f)
  {
    hide RowFits, KeyRank;
    if ks != [] {
      var n := |ks| - 1;
      BetweenAscends(rel, path, from, to, ks[..n], f);
      assert forall k <- ks[..n] :: f(k) < f(ks[n]);
    }
  }

  /** A scan yields its rows in the order of the table, or in the order of the keys of the index it uses. */
  lemma ScanOrder(rel: Relation, tab: string, conds: seq<Cond>, f: nat -> int)
    requires Indexed(rel, tab, conds) && Scanned(rel, tab, conds).Some?
    requires
      var path := Picked(rel, tab, conds);
      if path.None? then forall k :: f(k) == k
      else forall k :: 0 <= k < |rel.rows| && RowFits(rel.rows[k], path.value.cols, path.value.sizes) ==>
        f(k) == KeyRank(rel.rows[k], path.value)
    ensures Ascends(Scanned(rel, tab, conds).value, f)
  {
    hide Between, Kept, Usable, KeyRank;
    var path, ks := Picked(rel, tab, conds), Tested(rel, tab, conds).value;
    if path.Some? {
      var p := path.value;
      var r := RangeOf(Usable(rel, tab, conds), p.cols, p.sizes);
      assert PathOk(rel, p);
      BetweenAscends(rel, p, From(r, p.sizes), To(r, p.sizes), p.byKey, f);
    }
    KeptAscends(Named(tab, rel.cols), rel.rows, conds, ks, f);
  }

  lemma {:induction false} OwnIsJudged(tab: string, rel: Relation, row: Row, conds: seq<Cond>)
    requires |row| == |rel.cols| && forall cond <- conds :: InTable(tab, rel, cond)
    ensures EvalAll(Named(tab, rel.cols), row, conds).Some?
  {
    if conds != [] {
      var cond := conds[0];
      assert cond in conds && InTable(tab, rel, cond);
      if cond.lhs.LhsColumn? {
        LookupSome(Named(tab, rel.cols), row, cond.lhs.column);
      }
      if cond.rhs.RhsColumn? {
        LookupSome(Named(tab, rel.cols), row, cond.rhs.column);
      }
      assert EvalOne(Named(tab, rel.cols), row, cond).Some?;
      assert conds == [cond] + conds[1..];
      OwnIsJudged(tab, rel, row, conds[1..]);
    }
  }

  /** The columns of the condition are columns of the table. */
  ghost predicate InTable(tab: string, rel: Relation, cond: Cond) {
    (cond.lhs.LhsColumn? ==> cond.lhs.column in Named(tab, rel.cols)) &&
    (cond.rhs.RhsColumn? ==> cond.rhs.column in Named(tab, rel.cols))
  }

  /** A scan that has all the columns it needs, and can read its range, does not fail. */
  lemma ScanSucceeds(rel: Relation, tab: string, conds: seq<Cond>)
    requires Rectangular(rel) && Indexed(rel, tab, conds) && Reads(rel, tab, conds)
    requires forall cond <- conds :: InTable(tab, rel, cond)
    ensures Scanned(rel, tab, conds).Some?
  {
    hide Between, Kept, Usable, EvalAll, InTable;
    var ks := Tested(rel, tab, conds);
    KeptExact(Named(tab, rel.cols), rel.rows, conds, ks.value);
    forall k | k in ks.value && k < |rel.rows|
      ensures EvalAll(Named(tab, rel.cols), rel.rows[k], conds).Some?
    {
      assert rel.rows[k] in rel.rows;
      OwnIsJudged(tab, rel, rel.rows[k], conds);
    }
  }

  /** Compares columns of another table. */
  predicate Foreign(tab: string, cond: Cond) {
    cond.lhs.LhsColumn? && cond.rhs.RhsColumn? && cond.lhs.column.tab != tab
  }

  lemma {:induction false} ForeignIsNoAnswer(tab: string, names: seq<string>, row: Row, conds: seq<Cond>, i: nat)
    requires |row| == |names| && i < |conds| && Foreign(tab, conds[i])
    ensures EvalAll(Named(tab, names), row, conds) != Some(true)
    ensures EvalAll(Named(tab, names), row, conds[..i]) == Some(true) ==> EvalAll(Named(tab, names), row, conds) == None
  {
    if i == 0 {
      LookupSome(Named(tab, names), row, conds[0].lhs.column);
    } else {
      ForeignIsNoAnswer(tab, names, row, conds[1..], i - 1);
      assert conds[..i][1..] == conds[1..][..i - 1];
    }
  }

  lemma EmptyOrNot(s: seq<nat>)
    ensures s == [] || exists x :: x in s
  {
    if s != [] {
      assert s[0] in s;
    }
  }

  /** A scan that is given a comparison of another table's columns yields no row, and it fails as soon as it
      tests a row that meets the conditions before it. */
  lemma StrayConditionFails(rel: Relation, tab: string, conds: seq<Cond>, i: nat)
    requires Rectangular(rel) && Indexed(rel, tab, conds) && i < |conds| && Foreign(tab, conds[i])
    ensures Scanned(rel, tab, conds).Some? ==> Scanned(rel, tab, conds).value == []
    ensures
      var ks := Tested(rel, tab, conds);
      ks.Some? && (exists k <- ks.value ::
                     k < |rel.rows| && EvalAll(Named(tab, rel.cols), rel.rows[k], conds[..i]) == Some(true))
      ==> Scanned(rel, tab, conds) == None
  {
    hide EvalAll, Kept, Indexed, Foreign;
    var ks := Tested(rel, tab, conds);
    if ks.Some? {
      KeptExact(Named(tab, rel.cols), rel.rows, conds, ks.value);
      forall k | 0 <= k < |rel.rows|
        ensures EvalAll(Named(tab, rel.cols), rel.rows[k], conds) != Some(true)
        ensures EvalAll(Named(tab, rel.cols), rel.rows[k], conds[..i]) == Some(true) ==>
                  EvalAll(Named(tab, rel.cols), rel.rows[k], conds) == None
      {
        assert rel.rows[k] in rel.rows;
        ForeignIsNoAnswer(tab, rel.cols, rel.rows[k], conds, i);
      }
      var out := Kept(Named(tab, rel.cols), rel.rows, conds, ks.value);
      EmptyOrNot(if out.Some? then out.value else []);
    }
  }

  // ---------------------------------------------------------------- running a scan

  /** A scan that fails on the rows it tests first fails. */
  lemma {:induction false} NoneStays(cols: seq<Column>, rows: seq<Row>, conds: seq<Cond>, ks: seq<nat>, n: nat)
    requires n <= |ks| && (forall i :: 0 <= i < |ks| ==> ks[i] < |rows|) && Kept(cols, rows, conds, ks[..n]) == None
    ensures Kept(cols, rows, conds, ks) == None
    decreases |ks|
  {
    if n < |ks| {
      assert ks[..|ks| - 1][..n] == ks[..n];
      NoneStays(cols, rows, conds, ks[..|ks| - 1], n);
    } else {
      assert ks[..n] == ks;
    }
  }

  /** Tests the conditions on the listed rows. */
  method KeepRows(cols: seq<Column>, rows: seq<Row>, conds: seq<Cond>, ks: seq<nat>) returns (out: Option<seq<nat>>)
    requires forall i :: 0 <= i < |ks| ==> ks[i] < |rows|
    ensures out == Kept(cols, rows, conds, ks)
  {
    var kept := [];
    for i := 0 to |ks|
      invariant Kept(cols, rows, conds, ks[..i]) == Some(kept)
    {
      assert ks[..i + 1][..i] == ks[..i];
      var hit := EvalAll(cols, rows[ks[i]], conds);
      if hit.None? {
        NoneStays(cols, rows, conds, ks, i + 1);
        return None;
      }
      if hit.value {
        kept := kept + [ks[i]];
      }
    }
    assert ks[..|ks|] == ks;
    out := Some(kept);
  }

  /** The rows of an index between two ranks. */
  method RowsBetween(rel: Relation, path: Path, from: int, to: int) returns (ks: seq<nat>)
    requires PathOk(rel, path)
    ensures ks == Between(rel, path, from, to, path.byKey)
  {
    ks := [];
    for i := 0 to |path.byKey|
      invariant ks == Between(rel, path, from, to, path.byKey[..i])
    {
      assert path.byKey[..i + 1][..i] == path.byKey[..i];
      var rank := KeyRank(rel.rows[path.byKey[i]], path);
      if from <= rank < to {
        ks := ks + [path.byKey[i]];
      }
    }
    assert path.byKey[..|path.byKey|] == path.byKey;
  }

  /** Reads the rows of an index that the usable conditions select, if the range can be read. */
  method ReadPath(rel: Relation, path: Path, usable: seq<ValueCond>) returns (ks: Option<seq<nat>>)
    requires PathOk(rel, path)
    ensures |path.cols| == |path.sizes|
    ensures
      var r := RangeOf(usable, path.cols, path.sizes);
      var from, to := From(r, path.sizes), To(r, path.sizes);
      ks == if path.readable(from, to) then Some(Between(rel, path, from, to, path.byKey)) else None
  {
    hide Between, IsRange, PathOk, RangeOf;
    WidthsAgree(rel, path);
    var r := MakeScanRange(usable, path.cols, path.sizes);
    RangeIsUnique(r, RangeOf(usable, path.cols, path.sizes), usable, path.cols, path.sizes);
    RangeWidth(r, usable, path.cols, path.sizes);
    var from := if r.useLower then Rank(r.low, path.sizes) else Rank(r.low, path.sizes) + 1;
    var to := if r.useUpper then Rank(r.high, path.sizes) + 1 else Rank(r.high, path.sizes);
    if !path.readable(from, to) {
      return None;
    }
    var rows := RowsBetween(rel, path, from, to);
    ks := Some(rows);
  }

  /** Chooses how to scan the table, and scans it. */
  method ScanTable(rel: Relation, tab: string, conds: seq<Cond>) returns (out: Option<seq<nat>>)
    requires Indexed(rel, tab, conds)
    ensures out == Scanned(rel, tab, conds)
  {
    hide Between, Kept, Usable, RangeOf, From, To, CondsFit, Best;
    var usable := Usable(rel, tab, conds);
    var best := ChooseIndex(usable, PathColumns(rel.paths));
    var ks := Some(UpTo(|rel.rows|));
    if best.Some? {
      ks := ReadPath(rel, rel.paths[best.value], usable);
    }
    assert ks == Tested(rel, tab, conds);
    if ks.None? {
      return None;
    }
    out := KeepRows(Named(tab, rel.cols), rel.rows, conds, ks.value);
  }

  lemma WidthsAgree(rel: Relation, path: Path)
    requires PathOk(rel, path)
    ensures |path.cols| == |path.sizes|
  {
  }
}
