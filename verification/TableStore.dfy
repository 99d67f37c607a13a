/**
 A table with its record file and its unique indexes, and the statements that change them.
 */
module TableStore {
  import opened Common
  import opened KeyOrder
  import opened Conditions
  import opened IndexRange
  import opened IndexHandle
  import opened PlainTable
  import opened RecordFile
  import opened RecordScan

  /** An index on the columns `cols`, with the number of codes of each. */
  datatype Index = Index(cols: seq<nat>, sizes: seq<nat>, ih: IxIndexHandle)

  function RowKey(row: Row, cols: seq<nat>, sizes: seq<nat>): nat
    requires |cols| == |sizes| && forall i :: 0 <= i < |cols| ==> cols[i] < |row|
  {
    Rank(KeyOf(row, cols), sizes)
  }

  /** The entries are exactly the keys of the records, each with its record's id. */
  ghost predicate Agrees(contents: map<int, Rid>, cols: seq<nat>, sizes: seq<nat>, records: map<Rid, Row>) {
    && (forall rid :: rid in records ==>
          && RowFits(records[rid], cols, sizes)
          && RowKey(records[rid], cols, sizes) in contents
          && contents[RowKey(records[rid], cols, sizes)] == rid)
    && (forall k :: k in contents ==>
          && contents[k] in records && RowFits(records[contents[k]], cols, sizes)
          && RowKey(records[contents[k]], cols, sizes) == k)
  }

  lemma AgreesAfterInsert(contents: map<int, Rid>, cols: seq<nat>, sizes: seq<nat>, records: map<Rid, Row>,
                          rid: Rid, row: Row)
    requires Agrees(contents, cols, sizes, records) && rid !in records && RowFits(row, cols, sizes)
    requires RowKey(row, cols, sizes) !in contents
    ensures Agrees(contents[RowKey(row, cols, sizes) := rid], cols, sizes, records[rid := row])
  {
  }

  lemma AgreesAfterDelete(contents: map<int, Rid>, cols: seq<nat>, sizes: seq<nat>, records: map<Rid, Row>, rid: Rid)
    requires Agrees(contents, cols, sizes, records) && rid in records
    ensures Agrees(contents - {RowKey(records[rid], cols, sizes)}, cols, sizes, records - {rid})
  {
  }

  /** Moving a row's entry to a new key that is free, or its own, keeps the agreement. */
  lemma AgreesAfterUpdate(contents: map<int, Rid>, cols: seq<nat>, sizes: seq<nat>, records: map<Rid, Row>,
                          rid: Rid, row: Row)
    requires Agrees(contents, cols, sizes, records) && rid in records && RowFits(row, cols, sizes)
    requires
      var k := RowKey(row, cols, sizes);
      k in contents ==> contents[k] == rid
    ensures
      var contents' := contents - {RowKey(records[rid], cols, sizes)};
      && RowKey(row, cols, sizes) !in contents'
      && Agrees(contents'[RowKey(row, cols, sizes) := rid], cols, sizes, records[rid := row])
  {
  }

  // ---------------------------------------------------------------- all indexes of a table

  ghost predicate RowOk(row: Row, sizes: seq<nat>) {
    |row| == |sizes| && forall i :: 0 <= i < |row| ==> row[i] < sizes[i]
  }

  ghost predicate IndexOk(ix: Index, sizes: seq<nat>) {
    && |ix.cols| == |ix.sizes|
    && forall i :: 0 <= i < |ix.cols| ==> ix.cols[i] < |sizes| && ix.sizes[i] == sizes[ix.cols[i]]
  }

  lemma OkRowFits(row: Row, ix: Index, sizes: seq<nat>)
    requires RowOk(row, sizes) && IndexOk(ix, sizes)
    ensures RowFits(row, ix.cols, ix.sizes) && HasColumns(row, ix)
  {
  }

  predicate HasColumns(row: Row, ix: Index) {
    |ix.cols| == |ix.sizes| && forall i :: 0 <= i < |ix.cols| ==> ix.cols[i] < |row|
  }

  /** The key of a row in each index. */
  function KeysOf(row: Row, ixs: seq<Index>): (keys: seq<int>)
    requires forall i :: 0 <= i < |ixs| ==> HasColumns(row, ixs[i])
    ensures |keys| == |ixs|
  {
    seq(|ixs|, i requires 0 <= i < |ixs| && HasColumns(row, ixs[i]) => RowKey(row, ixs[i].cols, ixs[i].sizes))
  }

  /** Index `ix`, holding `entries`, agrees with the records. */
  ghost predicate InStep(entries: map<int, Rid>, ix: Index, records: map<Rid, Row>) {
    Agrees(entries, ix.cols, ix.sizes, records)
  }

  ghost predicate AllInStep(entries: seq<map<int, Rid>>, ixs: seq<Index>, records: map<Rid, Row>) {
    |entries| == |ixs| && forall i {:trigger InStep(entries[i], ixs[i], records)} ::
      0 <= i < |ixs| ==> InStep(entries[i], ixs[i], records)
  }

  /** Some index already has its key. */
  ghost predicate Taken(entries: seq<map<int, Rid>>, keys: seq<int>) {
    exists i :: 0 <= i < |keys| && i < |entries| && keys[i] in entries[i]
  }

  /** The column lists of the indexes. */
  ghost function KeyColumns(ixs: seq<Index>): (keys: seq<seq<nat>>)
    ensures |keys| == |ixs| && forall i :: 0 <= i < |ixs| ==> keys[i] == ixs[i].cols
  {
    seq(|ixs|, i requires 0 <= i < |ixs| => ixs[i].cols)
  }

  /** Keys are equal iff the values in their columns are. */
  lemma KeyIsColumns(a: Row, b: Row, ix: Index, sizes: seq<nat>)
    requires RowOk(a, sizes) && RowOk(b, sizes) && IndexOk(ix, sizes)
    ensures HasColumns(a, ix) && HasColumns(b, ix)
    ensures RowKey(a, ix.cols, ix.sizes) == RowKey(b, ix.cols, ix.sizes) <==> SameColumns(a, b, ix.cols)
  {
    OkRowFits(a, ix, sizes);
    OkRowFits(b, ix, sizes);
    var x, y := KeyOf(a, ix.cols), KeyOf(b, ix.cols);
    RankIsOrder(x, y, ix.sizes);
    assert x == y <==> forall i :: 0 <= i < |x| ==> x[i] == y[i];
  }

  /** In an index that agrees with the records, a key belongs to a record not in `but` iff the key's
      columns are occupied by one. */
  lemma EntryIsOccupant(entries: map<int, Rid>, ix: Index, sizes: seq<nat>, records: map<Rid, Row>, row: Row,
                        but: set<Rid>)
    requires RowOk(row, sizes) && IndexOk(ix, sizes) && HasColumns(row, ix) && InStep(entries, ix, records)
    requires forall rid <- records :: RowOk(records[rid], sizes)
    ensures
      var key := RowKey(row, ix.cols, ix.sizes);
      key in entries && entries[key] !in but <==> Occupied(records, ix.cols, row, but)
  {
    var key := RowKey(row, ix.cols, ix.sizes);
    if key in entries && entries[key] !in but {
      KeyIsColumns(records[entries[key]], row, ix, sizes);
    }
    if rid :| rid in records && rid !in but && SameColumns(records[rid], row, ix.cols) {
      KeyIsColumns(records[rid], row, ix, sizes);
    }
  }

  /** Some key is taken iff some record has it. */
  lemma TakenIsClash(entries: seq<map<int, Rid>>, ixs: seq<Index>, sizes: seq<nat>, records: map<Rid, Row>, row: Row)
    requires RowOk(row, sizes) && forall i :: 0 <= i < |ixs| ==> IndexOk(ixs[i], sizes) && HasColumns(row, ixs[i])
    requires AllInStep(entries, ixs, records) && forall rid <- records :: RowOk(records[rid], sizes)
    ensures Taken(entries, KeysOf(row, ixs)) <==> FirstOccupied(records, KeyColumns(ixs), row, {}) < |ixs|
  {
    var keys := KeysOf(row, ixs);
    forall i | 0 <= i < |ixs|
      ensures keys[i] in entries[i] <==> Occupied(records, KeyColumns(ixs)[i], row, {})
    {
      assert InStep(entries[i], ixs[i], records);
      EntryIsOccupant(entries[i], ixs[i], sizes, records, row, {});
    }
  }

  ghost predicate SetsOk(sets: seq<SetClause>, sizes: seq<nat>) {
    forall i :: 0 <= i < |sets| ==> sets[i].col < |sizes| && sets[i].val < sizes[sets[i].col]
  }

  lemma {:induction false} SetsKeepRowOk(row: Row, sets: seq<SetClause>, sizes: seq<nat>)
    requires RowOk(row, sizes) && SetsOk(sets, sizes)
    ensures RowOk(ApplySets(row, sets), sizes)
  {
    if sets != [] {
      SetsKeepRowOk(row, sets[..|sets| - 1], sizes);
    }
  }

  /** `after` is `before` with a key entered in every index. */
  ghost predicate Entered(before: seq<map<int, Rid>>, after: seq<map<int, Rid>>, keys: seq<int>, rid: Rid) {
    && |before| == |after| == |keys|
    && forall i {:trigger after[i]} :: 0 <= i < |keys| ==> after[i] == before[i][keys[i] := rid]
  }

  ghost predicate Left(before: seq<map<int, Rid>>, after: seq<map<int, Rid>>, keys: seq<int>) {
    && |before| == |after| == |keys|
    && forall i {:trigger after[i]} :: 0 <= i < |keys| ==> after[i] == before[i] - {keys[i]}
  }

  lemma AllInStepAfterInsert(before: seq<map<int, Rid>>, after: seq<map<int, Rid>>, ixs: seq<Index>,
                             sizes: seq<nat>, records: map<Rid, Row>, rid: Rid, row: Row)
    requires RowOk(row, sizes) && forall i :: 0 <= i < |ixs| ==> IndexOk(ixs[i], sizes) && HasColumns(row, ixs[i])
    requires AllInStep(before, ixs, records) && rid !in records
    requires Entered(before, after, KeysOf(row, ixs), rid) && !Taken(before, KeysOf(row, ixs))
    ensures AllInStep(after, ixs, records[rid := row])
  {
    forall i | 0 <= i < |ixs|
      ensures InStep(after[i], ixs[i], records[rid := row])
    {
      assert InStep(before[i], ixs[i], records);
      OkRowFits(row, ixs[i], sizes);
      assert KeysOf(row, ixs)[i] !in before[i];
      AgreesAfterInsert(before[i], ixs[i].cols, ixs[i].sizes, records, rid, row);
    }
  }

  lemma AllInStepAfterDelete(before: seq<map<int, Rid>>, after: seq<map<int, Rid>>, ixs: seq<Index>,
                             sizes: seq<nat>, records: map<Rid, Row>, rid: Rid)
    requires rid in records && forall i :: 0 <= i < |ixs| ==> HasColumns(records[rid], ixs[i])
    requires AllInStep(before, ixs, records) && Left(before, after, KeysOf(records[rid], ixs))
    ensures AllInStep(after, ixs, records - {rid})
  {
    forall i | 0 <= i < |ixs|
      ensures InStep(after[i], ixs[i], records - {rid})
    {
      assert InStep(before[i], ixs[i], records);
      AgreesAfterDelete(before[i], ixs[i].cols, ixs[i].sizes, records, rid);
    }
  }

  lemma RowHasOneKey(entries: seq<map<int, Rid>>, ixs: seq<Index>, records: map<Rid, Row>, rid: Rid)
    requires AllInStep(entries, ixs, records) && rid in records
    requires forall i :: 0 <= i < |ixs| ==> HasColumns(records[rid], ixs[i])
    ensures forall i :: 0 <= i < |ixs| ==> OnlyKey(entries[i], KeysOf(records[rid], ixs)[i], rid)
  {
    forall i | 0 <= i < |ixs|
      ensures OnlyKey(entries[i], KeysOf(records[rid], ixs)[i], rid)
    {
      assert InStep(entries[i], ixs[i], records);
    }
  }

  /** `after` is `before` with the row's entry moved to its new key in the first `n` indexes. */
  ghost predicate Moved(before: seq<map<int, Rid>>, after: seq<map<int, Rid>>, from: seq<int>, to: seq<int>,
                        rid: Rid, n: nat) {
    && |before| == |after| == |from| == |to| && n <= |before|
    && (forall i {:trigger after[i]} :: 0 <= i < n ==> after[i] == (before[i] - {from[i]})[to[i] := rid])
    && (forall i {:trigger after[i]} :: n <= i < |before| ==> after[i] == before[i])
  }

  ghost predicate OnlyKey(entries: map<int, Rid>, key: int, rid: Rid) {
    forall k :: k in entries && entries[k] == rid <==> k == key
  }

  /** The new key is free in an index, or the row's own. */
  ghost predicate Movable(before: seq<map<int, Rid>>, to: seq<int>, rid: Rid, i: int)
    requires 0 <= i < |before| == |to|
  {
    to[i] in before[i] ==> before[i][to[i]] == rid
  }

  lemma AllInStepAfterUpdate(before: seq<map<int, Rid>>, after: seq<map<int, Rid>>, ixs: seq<Index>,
                             sizes: seq<nat>, records: map<Rid, Row>, rid: Rid, row: Row)
    requires RowOk(row, sizes) && rid in records && AllInStep(before, ixs, records)
    requires forall i :: 0 <= i < |ixs| ==>
      IndexOk(ixs[i], sizes) && HasColumns(row, ixs[i]) && HasColumns(records[rid], ixs[i])
    requires Moved(before, after, KeysOf(records[rid], ixs), KeysOf(row, ixs), rid, |ixs|)
    requires forall i :: 0 <= i < |ixs| ==> Movable(before, KeysOf(row, ixs), rid, i)
    ensures AllInStep(after, ixs, records[rid := row])
  {
    forall i | 0 <= i < |ixs|
      ensures InStep(after[i], ixs[i], records[rid := row])
    {
      assert InStep(before[i], ixs[i], records) && Movable(before, KeysOf(row, ixs), rid, i);
      OkRowFits(row, ixs[i], sizes);
      AgreesAfterUpdate(before[i], ixs[i].cols, ixs[i].sizes, records, rid, row);
    }
  }

  /** The first key that may not move is the first whose columns another record has. */
  lemma FirstBlocked(before: seq<map<int, Rid>>, ixs: seq<Index>, sizes: seq<nat>, records: map<Rid, Row>, row: Row,
                     rid: Rid, i: nat)
    requires RowOk(row, sizes) && AllInStep(before, ixs, records) && i <= |ixs|
    requires forall k :: 0 <= k < |ixs| ==> IndexOk(ixs[k], sizes) && HasColumns(row, ixs[k])
    requires forall rid <- records :: RowOk(records[rid], sizes)
    requires forall k :: 0 <= k < i ==> Movable(before, KeysOf(row, ixs), rid, k)
    requires i < |ixs| ==> !Movable(before, KeysOf(row, ixs), rid, i)
    ensures FirstOccupied(records, KeyColumns(ixs), row, {rid}) == i
  {
    hide Occupied, RowOk;
    forall k | 0 <= k < |ixs|
      ensures Movable(before, KeysOf(row, ixs), rid, k) <==> !Occupied(records, KeyColumns(ixs)[k], row, {rid})
    {
      assert InStep(before[k], ixs[k], records);
      EntryIsOccupant(before[k], ixs[k], sizes, records, row, {rid});
    }
    FirstIsUnique(records, KeyColumns(ixs), row, {rid}, i);
  }

  /** An update that stops at index `n` leaves the table consistent exactly when the indexes it has
      been through did not have to change. */
  lemma TornUpdate(before: seq<map<int, Rid>>, after: seq<map<int, Rid>>, ixs: seq<Index>, sizes: seq<nat>,
                   records: map<Rid, Row>, rid: Rid, row: Row, n: nat)
    requires rid in records && AllInStep(before, ixs, records) && RowOk(records[rid], sizes) && RowOk(row, sizes)
    requires forall i :: 0 <= i < |ixs| ==>
      IndexOk(ixs[i], sizes) && HasColumns(records[rid], ixs[i]) && HasColumns(row, ixs[i])
    requires Moved(before, after, KeysOf(records[rid], ixs), KeysOf(row, ixs), rid, n)
    ensures AllInStep(after, ixs, records) <==> !KeyMoves(records[rid], row, KeyColumns(ixs), n)
  {
    var from, to := KeysOf(records[rid], ixs), KeysOf(row, ixs);
    forall i | 0 <= i < |ixs|
      ensures from[i] == to[i] <==> SameColumns(records[rid], row, KeyColumns(ixs)[i])
    {
      KeyIsColumns(records[rid], row, ixs[i], sizes);
    }
    if i :| 0 <= i < n && !SameColumns(records[rid], row, KeyColumns(ixs)[i]) {
      assert after[i][to[i]] == rid;
      assert !InStep(after[i], ixs[i], records);
    } else {
      forall i | 0 <= i < |ixs|
        ensures InStep(after[i], ixs[i], records)
      {
        assert InStep(before[i], ixs[i], records);
        assert after[i] == before[i];
      }
    }
  }

  lemma SameKeyTwice(ix: Index, done: map<Rid, Row>, records: map<Rid, Row>, entries: map<int, Rid>, rid: Rid)
    requires InStep(entries, ix, done) && rid !in done && rid in records
    requires forall x :: x in done ==> x in records && done[x] == records[x]
    requires RowFits(records[rid], ix.cols, ix.sizes) && RowKey(records[rid], ix.cols, ix.sizes) in entries
    ensures !UniqueKeys(records, ix.cols)
  {
    var other := entries[RowKey(records[rid], ix.cols, ix.sizes)];
    var a, b := KeyOf(records[rid], ix.cols), KeyOf(records[other], ix.cols);
    RankIsOrder(a, b, ix.sizes);
    assert forall i :: 0 <= i < |ix.cols| ==> a[i] == b[i];
    assert SameColumns(records[rid], records[other], ix.cols);
  }

  lemma AgreementIsUnique(ix: Index, records: map<Rid, Row>, entries: map<int, Rid>)
    requires InStep(entries, ix, records)
    ensures UniqueKeys(records, ix.cols)
  {
    forall a, b | a in records && b in records && SameColumns(records[a], records[b], ix.cols)
      ensures a == b
    {
      assert KeyOf(records[a], ix.cols) == KeyOf(records[b], ix.cols);
    }
  }

  lemma RankInList(rids: seq<Rid>, i: nat)
    requires Increasing(rids) && i < |rids|
    ensures rids[i] !in rids[..i]
  {
  }

  class Table {
    const sizes: seq<nat>
    const file: RmFileHandle
    var indexes: seq<Index>

    ghost function Handles(): set<object>
      reads this
    {
      set i | 0 <= i < |indexes| :: indexes[i].ih
    }

    ghost function Pools(): set<object>
      reads this
    {
      set i | 0 <= i < |indexes| :: indexes[i].ih.pool
    }

    /** What each index holds. */
    ghost function Entries(): seq<map<int, Rid>>
      reads this, Handles()
    {
      seq(|indexes|, i requires 0 <= i < |indexes| reads this, Handles() => indexes[i].ih.contents)
    }

    /** The parts are well formed and do not overlap. */
    ghost predicate Sound()
      reads this, file, Handles()
    {
      && file.Valid()
      && (forall rid :: rid in file.records ==> RowOk(file.records[rid], sizes))
      && (forall i :: 0 <= i < |indexes| ==> IndexOk(indexes[i], sizes) && indexes[i].ih.Valid())
      && (forall i, j :: 0 <= i < j < |indexes| ==> indexes[i].ih != indexes[j].ih)
    }

    /** Every index agrees with the record file. */
    ghost predicate Valid()
      reads this, file, Handles()
    {
      Sound() && AllInStep(Entries(), indexes, file.records)
    }

    /** The table as its clients see it. */
    ghost function View(): Plain
      reads this, file
    {
      Plain(file.records, KeyColumns(indexes))
    }

    /** An empty table without indexes. */
    constructor (sizes: seq<nat>, perPage: nat, zero: Rec)
      requires 1 <= perPage
      ensures Valid() && fresh(file) && file.records == map[] && indexes == [] && this.sizes == sizes
    {
      this.sizes := sizes;
      file := new RmFileHandle(perPage, zero);
      indexes := [];
    }

    lemma AllRowsFit(row: Row)
      requires Sound() && RowOk(row, sizes)
      ensures forall i :: 0 <= i < |indexes| ==> HasColumns(row, indexes[i])
    {
    }

    lemma OneInStep(i: nat)
      requires Valid() && i < |indexes|
      ensures indexes[i].ih.Valid() && InStep(indexes[i].ih.contents, indexes[i], file.records)
    {
      assert InStep(Entries()[i], indexes[i], file.records);
    }

    /** Looks a row's keys up, index by index, stopping at the first that is there. */
    method FindDuplicate(keys: seq<int>) returns (found: bool)
      requires Sound() && |keys| == |indexes|
      modifies Pools()
      ensures found <==> Taken(Entries(), keys)
    {
      hide IxIndexHandle.Valid, RmFileHandle.Valid;
      for i := 0 to |indexes|
        invariant forall j :: 0 <= j < i ==> keys[j] !in indexes[j].ih.contents
      {
        var existed := indexes[i].ih.GetValue(keys[i]);
        if existed.Found? {
          assert keys[i] in Entries()[i];
          return true;
        }
      }
      return false;
    }

    /** Enters a key in one index that does not have it. */
    method EnterAt(i: nat, key: int, rid: Rid)
      requires Sound() && i < |indexes| && key !in Entries()[i]
      modifies indexes[i].ih, indexes[i].ih.pool
      ensures Sound() && Entries() == old(Entries())[i := old(Entries())[i][key := rid]]
    {
      hide IxIndexHandle.Valid, RmFileHandle.Valid;
      var _ := indexes[i].ih.InsertEntry(key, rid);
    }

    /** Takes a key out of one index. */
    method RemoveAt(i: nat, key: int)
      requires Sound() && i < |indexes|
      modifies indexes[i].ih, indexes[i].ih.pool
      ensures Sound() && Entries() == old(Entries())[i := old(Entries())[i] - {key}]
    {
      hide IxIndexHandle.Valid, RmFileHandle.Valid;
      var _ := indexes[i].ih.DeleteEntry(key);
    }

    /** Enters a row's keys in every index. */
    method AddEntries(keys: seq<int>, rid: Rid)
      requires Sound() && |keys| == |indexes| && !Taken(Entries(), keys)
      modifies Handles(), Pools()
      ensures Sound() && Entered(old(Entries()), Entries(), keys, rid)
    {
      hide Sound;
      ghost var before, now := Entries(), Entries();
      for i := 0 to |indexes|
        invariant Sound() && Entries() == now && |now| == |indexes|
        invariant forall j :: 0 <= j < i ==> now[j] == before[j][keys[j] := rid]
        invariant forall j :: i <= j < |indexes| ==> now[j] == before[j]
      {
        EnterAt(i, keys[i], rid);
        now := now[i := now[i][keys[i] := rid]];
      }
    }

    /** Takes a row's keys out of every index. */
    method DropEntries(keys: seq<int>)
      requires Sound() && |keys| == |indexes|
      modifies Handles(), Pools()
      ensures Sound() && Left(old(Entries()), Entries(), keys)
    {
      hide Sound;
      ghost var before, now := Entries(), Entries();
      for i := 0 to |indexes|
        invariant Sound() && Entries() == now && |now| == |indexes|
        invariant forall j :: 0 <= j < i ==> now[j] == before[j] - {keys[j]}
        invariant forall j :: i <= j < |indexes| ==> now[j] == before[j]
      {
        RemoveAt(i, keys[i]);
        now := now[i := now[i] - {keys[i]}];
      }
    }

    /** Adds a row, unless some index already has its key. */
    method InsertRow(row: Row) returns (r: InsertResult)
      requires Valid() && RowOk(row, sizes)
      modifies file, Handles(), Pools()
      ensures Valid()
      ensures r.DuplicateKey? <==> FirstOccupied(old(file.records), KeyColumns(indexes), row, {}) < |indexes|
      ensures r.DuplicateKey? ==> file.records == old(file.records) && Entries() == old(Entries())
      ensures r.Stored? ==> r.rid !in old(file.records) && file.records == old(file.records)[r.rid := row]
    {
      hide IxIndexHandle.Valid, RmFileHandle.Valid, AllInStep, FirstOccupied, Taken, Entered, RowOk, IndexOk;
      AllRowsFit(row);
      var keys := KeysOf(row, indexes);
      TakenIsClash(Entries(), indexes, sizes, file.records, row);
      var duplicate := FindDuplicate(keys);
      if duplicate {
        return DuplicateKey;
      }
      var rid := file.InsertRecord(row);
      AddEntries(keys, rid);
      AllInStepAfterInsert(old(Entries()), Entries(), indexes, sizes, old(file.records), rid, row);
      r := Stored(rid);
    }

    /** Deletes one record and its index entries. */
    method DeleteRow(rid: Rid) returns (ok: bool)
      requires Valid()
      modifies file, Handles(), Pools()
      ensures Valid()
      ensures ok <==> rid in old(file.records)
      ensures file.records == old(file.records) - {rid}
    {
      hide IxIndexHandle.Valid, RmFileHandle.Valid, AllInStep;
      var rec := file.GetRecord(rid);
      if rec.Err? {
        return false;
      }
      AllRowsFit(rec.value);
      DropEntries(KeysOf(rec.value, indexes));
      var _ := file.DeleteRecord(rid);
      AllInStepAfterDelete(old(Entries()), Entries(), indexes, sizes, old(file.records), rid);
      ok := true;
    }

    /** Deletes the given records one after the other, up to the first that is not there any more. */
    method DeleteRows(rids: seq<Rid>) returns (r: DeleteResult)
      requires Valid()
      modifies file, Handles(), Pools()
      ensures Valid() && DeleteAnswers(old(View()), rids, r)
      ensures file.records == Removed(old(file.records), rids[..RowsDeleted(rids, r)])
    {
      hide Valid;
      for i := 0 to |rids|
        invariant Valid() && file.records == Removed(old(file.records), rids[..i])
        invariant DeletesUpTo(old(View()), rids, i)
      {
        var ok := DeleteRow(rids[i]);
        if !ok {
          return NoSuchRecord(i);
        }
        assert rids[..i + 1] == rids[..i] + [rids[i]];
      }
      r := AllDeleted;
    }

    /** Moves the row's entry to its new key, index by index, unless another row has the key. */
    method MoveEntries(from: seq<int>, to: seq<int>, rid: Rid) returns (r: UpdateResult)
      requires Sound() && |from| == |to| == |indexes|
      requires forall i :: 0 <= i < |indexes| ==> OnlyKey(Entries()[i], from[i], rid)
      modifies Handles(), Pools()
      ensures Sound() && !r.NotThere?
      ensures r.Updated? ==>
        && Moved(old(Entries()), Entries(), from, to, rid, |indexes|)
        && forall i :: 0 <= i < |indexes| ==> Movable(old(Entries()), to, rid, i)
      ensures r.Clash? ==>
        && r.index < |indexes| && Moved(old(Entries()), Entries(), from, to, rid, r.index)
        && from[r.index] != to[r.index] && !Movable(old(Entries()), to, rid, r.index)
        && forall i :: 0 <= i < r.index ==> Movable(old(Entries()), to, rid, i)
    {
      hide Sound;
      ghost var before, now := Entries(), Entries();
      for i := 0 to |indexes|
        invariant Sound() && Entries() == now && Moved(before, now, from, to, rid, i)
        invariant forall j :: 0 <= j < i ==> Movable(before, to, rid, j)
      {
        assert OnlyKey(before[i], from[i], rid) && now[i] == before[i];
        if from[i] != to[i] {
          var existed := ValueAt(i, to[i]);
          if existed.Found? && existed.rid != rid {
            return Clash(i);
          }
        }
        RemoveAt(i, from[i]);
        now := now[i := now[i] - {from[i]}];
        EnterAt(i, to[i], rid);
        now := now[i := now[i][to[i] := rid]];
      }
      r := Updated;
    }

    method ValueAt(i: nat, key: int) returns (r: Lookup)
      requires Sound() && i < |indexes|
      modifies indexes[i].ih.pool
      ensures Sound() && Entries() == old(Entries())
      ensures r == if key in Entries()[i] then Found(Entries()[i][key]) else Missing
    {
      hide IxIndexHandle.Valid, RmFileHandle.Valid;
      r := indexes[i].ih.GetValue(key);
    }

    /** Writes one row's new values to its indexes and then to the record file. Stops at the first index
        in which another record has the new key, and then leaves the indexes out of step with the records
        iff a key before it changes. */
    method UpdateRow(rid: Rid, sets: seq<SetClause>) returns (r: UpdateResult)
      requires Valid() && SetsOk(sets, sizes)
      modifies file, Handles(), Pools()
      ensures Sound() && r == UpdateOne(old(View()), rid, sets)
      ensures file.records == if r.Updated? then SetAll(old(file.records), [rid], sets) else old(file.records)
      ensures Reassigned(old(file.records), if r.Updated? then [rid] else [], sets, file.records)
      ensures Valid() <==> !TearsOne(old(View()), rid, sets)
    {
      hide IxIndexHandle.Valid, RmFileHandle.Valid, AllInStep, Moved, KeyMoves, Movable, FirstOccupied;
      hide RowOk, IndexOk, ApplySets, SetAll, OnlyKey, IsAssigned, Reassigned;
      ghost var p := View();
      NoneReassigned(p.records, sets);
      var rec := file.GetRecord(rid);
      if rec.Err? {
        return NotThere;
      }
      var row := SetColumns(rec.value, sets);
      SetsKeepRowOk(rec.value, sets, sizes);
      AllRowsFit(rec.value);
      AllRowsFit(row);
      var from, to := KeysOf(rec.value, indexes), KeysOf(row, indexes);
      RowHasOneKey(Entries(), indexes, file.records, rid);
      r := MoveEntries(from, to, rid);
      FirstBlocked(old(Entries()), indexes, sizes, p.records, row, rid, if r.Clash? then r.index else |indexes|);
      if r.Clash? {
        TornUpdate(old(Entries()), Entries(), indexes, sizes, file.records, rid, row, r.index);
        return;
      }
      SetOne(p.records, rid, sets);
      SetAllReassigns(p.records, [rid], sets);
      var _ := file.UpdateRecord(rid, row);
      AllInStepAfterUpdate(old(Entries()), Entries(), indexes, sizes, old(file.records), rid, row);
    }

    /** Updates the given rows one after the other, up to the first that is not there or meets another
        record's key. */
    method UpdateRows(rids: seq<Rid>, sets: seq<SetClause>) returns (r: UpdateRowsResult)
      requires Valid() && SetsOk(sets, sizes)
      modifies file, Handles(), Pools()
      ensures Sound() && UpdateAnswers(old(View()), rids, sets, r)
      ensures file.records == SetAll(old(file.records), rids[..RowsUpdated(rids, r)], sets)
      ensures Reassigned(old(file.records), rids[..RowsUpdated(rids, r)], sets, file.records)
      ensures Valid() <==> !Tears(old(View()), rids, sets)
    {
      hide Sound, AllInStep, UpdateOne, IsAssigned;
      ghost var p := View();
      for i := 0 to |rids|
        invariant Valid() && View() == p.(records := SetAll(p.records, rids[..i], sets))
        invariant UpdatesUpTo(p, rids, sets, i)
      {
        var one := UpdateRow(rids[i], sets);
        assert one == UpdateAt(p, rids, sets, i) && (Valid() <==> !TearsAt(p, rids, sets, i));
        if !one.Updated? {
          r := if one.NotThere? then NoRecord(i) else ClashIn(i, one.index);
          TearsWhereStopped(p, rids, sets, r);
          SetAllReassigns(p.records, rids[..i], sets);
          return;
        }
        assert rids[..i + 1][..i] == rids[..i];
      }
      r := AllUpdated;
      TearsWhereStopped(p, rids, sets, r);
      SetAllReassigns(p.records, rids[..|rids|], sets);
    }

    /** Enters every record in a new index, up to the first key that is already there. */
    method FillIndex(ix: Index) returns (ok: bool)
      requires file.Valid() && ix.ih.Valid() && ix.ih.contents == map[] && IndexOk(ix, sizes)
      requires forall rid :: rid in file.records ==> RowOk(file.records[rid], sizes)
      modifies ix.ih, ix.ih.pool
      ensures ix.ih.Valid()
      ensures ok ==> InStep(ix.ih.contents, ix, file.records)
      ensures ok <==> UniqueKeys(file.records, ix.cols)
    {
      hide IxIndexHandle.Valid, RmFileHandle.Valid;
      var rids := ScanAll(file);
      ghost var done := map[];
      for i := 0 to |rids|
        invariant ix.ih.Valid() && InStep(ix.ih.contents, ix, done)
        invariant forall rid :: rid in done <==> rid in rids[..i]
        invariant forall rid :: rid in done ==> rid in file.records && done[rid] == file.records[rid]
      {
        var rid := rids[i];
        assert rid !in done by { RankInList(rids, i); }
        assert rid in rids;
        var rec := file.GetRecord(rid);
        var row := rec.value;
        OkRowFits(row, ix, sizes);
        var key := RowKey(row, ix.cols, ix.sizes);
        var existed := ix.ih.GetValue(key);
        if existed.Found? {
          SameKeyTwice(ix, done, file.records, ix.ih.contents, rid);
          return false;
        }
        AgreesAfterInsert(ix.ih.contents, ix.cols, ix.sizes, done, rid, row);
        var _ := ix.ih.InsertEntry(key, rid);
        done := done[rid := row];
      }
      assert done == file.records;
      AgreementIsUnique(ix, file.records, ix.ih.contents);
      ok := true;
    }

    /** Builds an index over the records and adds it, if the keys are unique; otherwise drops it. */
    method CreateIndex(cols: seq<nat>, order: nat, filePages: int) returns (r: BuildResult)
      requires Valid() && 3 <= order && forall i :: 0 <= i < |cols| ==> cols[i] < |sizes|
      modifies this`indexes
      ensures Valid() && file.records == old(file.records)
      ensures r.IndexExists? <==> exists i :: 0 <= i < |old(indexes)| && old(indexes)[i].cols == cols
      ensures !r.IndexExists? ==> (r.Built? <==> UniqueKeys(file.records, cols))
      ensures r.Built? ==> |indexes| == |old(indexes)| + 1 && indexes[..|old(indexes)|] == old(indexes)
      ensures r.Built? ==> indexes[|old(indexes)|].cols == cols
      ensures r.Built? ==> fresh(indexes[|old(indexes)|].ih) && fresh(indexes[|old(indexes)|].ih.pool)
      ensures !r.Built? ==> indexes == old(indexes)
    {
      hide IxIndexHandle.Valid, RmFileHandle.Valid, InStep, UniqueKeys;
      for i := 0 to |indexes|
        invariant forall j :: 0 <= j < i ==> indexes[j].cols != cols
      {
        if indexes[i].cols == cols {
          return IndexExists;
        }
      }
      ghost var entries := Entries();
      var ih := new IxIndexHandle(order, filePages);
      var ix := Index(cols, seq(|cols|, i requires 0 <= i < |cols| && cols[i] < |sizes| => sizes[cols[i]]), ih);
      var ok := FillIndex(ix);
      assert forall i :: 0 <= i < |indexes| ==> indexes[i].ih != ih && indexes[i].ih.contents == entries[i];
      assert Entries() == entries;
      if !ok {
        return KeysNotUnique;
      }
      indexes := indexes + [ix];
      assert Entries() == entries + [ih.contents];
      r := Built;
    }
  }
}
