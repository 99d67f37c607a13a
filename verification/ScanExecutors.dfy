/**
 The two ways to find the rows of a table that meet a WHERE clause: reading every record, and
 reading the part of an index that the conditions select.
 */
module ScanExecutors {
  import opened Common
  import opened KeyOrder
  import opened Conditions
  import opened IndexRange
  import opened IndexShape
  import opened IndexOrder
  import opened IndexHandle
  import opened IndexScan
  import opened RecordFile
  import opened RecordScan
  import opened TableStore

  datatype ScanRows = Rows(rids: seq<Rid>) | ScanFailed

  /** The record is there and meets the conditions. */
  ghost predicate Selected(rid: Rid, records: map<Rid, Row>, conds: seq<ValueCond>, others: Row -> bool) {
    rid in records && Matches(records[rid], conds, others)
  }

  /** Reads every record and keeps those that meet the conditions, in record order. */
  method SeqScan(file: RmFileHandle, conds: seq<ValueCond>, others: Row -> bool) returns (rids: seq<Rid>)
    requires file.Valid()
    ensures Increasing(rids)
    ensures forall rid :: rid in rids <==> Selected(rid, file.records, conds, others)
  {
    hide RmFileHandle.Valid, Matches;
    var all := ScanAll(file);
    rids := [];
    for i := 0 to |all|
      invariant Increasing(rids)
      invariant forall rid :: rid in rids ==> rid in all[..i] && Selected(rid, file.records, conds, others)
      invariant forall j :: 0 <= j < i && Selected(all[j], file.records, conds, others) ==> all[j] in rids
    {
      assert all[i] in all;
      var rec := file.GetRecord(all[i]);
      var ok := EvalConds(rec.value, conds, others);
      if ok {
        assert forall x :: x in all[..i] ==> Before(x, all[i]);
        rids := rids + [all[i]];
      }
    }
  }

  // ---------------------------------------------------------------- which ranges can be read

  /** The part of the index between two bounds can be read. */
  ghost predicate RangeReads(t: Tree, leaves: seq<int>, from: int, to: int) {
    exists lower, upper ::
      && Normal(t, leaves, lower) && Normal(t, leaves, upper)
      && CutsEntries(Flat(t, leaves), from, Place(t, leaves, lower))
      && CutsEntries(Flat(t, leaves), to, Place(t, leaves, upper))
      && Readable(t, leaves, lower, upper)
  }

  /** There is one normal position before each entry. */
  lemma NormalIsUnique(t: Tree, leaves: seq<int>, x: Iid, y: Iid)
    requires Chain(t, leaves) && Normal(t, leaves, x) && Normal(t, leaves, y)
    requires Place(t, leaves, x) == Place(t, leaves, y)
    ensures x == y
  {
    Standing(t, leaves, x);
    Standing(t, leaves, y);
    var i, j, n := LeafRank(leaves, x.pageNo), LeafRank(leaves, y.pageNo), Place(t, leaves, x);
    if i < j {
      LaterLeafIsLater(t, leaves, x, i, n, y, j, n);
    } else if j < i {
      LaterLeafIsLater(t, leaves, y, j, n, x, i, n);
    }
  }

  /** Any pair of positions at the bounds decides. */
  lemma RangeReadsAt(t: Tree, leaves: seq<int>, from: int, to: int, lower: Iid, upper: Iid)
    requires Chain(t, leaves) && Normal(t, leaves, lower) && Normal(t, leaves, upper)
    requires CutsEntries(Flat(t, leaves), from, Place(t, leaves, lower))
    requires CutsEntries(Flat(t, leaves), to, Place(t, leaves, upper))
    ensures RangeReads(t, leaves, from, to) <==> Readable(t, leaves, lower, upper)
  {
    if RangeReads(t, leaves, from, to) {
      var lo, up :| && Normal(t, leaves, lo) && Normal(t, leaves, up)
                    && CutsEntries(Flat(t, leaves), from, Place(t, leaves, lo))
                    && CutsEntries(Flat(t, leaves), to, Place(t, leaves, up))
                    && Readable(t, leaves, lo, up);
      CutIsUnique(Flat(t, leaves), from, Place(t, leaves, lo), Place(t, leaves, lower));
      CutIsUnique(Flat(t, leaves), to, Place(t, leaves, up), Place(t, leaves, upper));
      NormalIsUnique(t, leaves, lo, lower);
      NormalIsUnique(t, leaves, up, upper);
    }
  }

  lemma CutIsUnique(es: seq<Entry>, bound: int, m: int, n: int)
    requires CutsEntries(es, bound, m) && CutsEntries(es, bound, n)
    ensures m == n
  {
    assert m < |es| ==> bound <= es[m].key;
    assert n < |es| ==> bound <= es[n].key;
  }

  /** An index none of whose leaves is empty reads every range that is not reversed. */
  lemma FullLeavesRead(t: Tree, leaves: seq<int>, from: int, to: int, lower: Iid, upper: Iid)
    requires Chain(t, leaves) && Normal(t, leaves, lower) && Normal(t, leaves, upper)
    requires CutsEntries(Flat(t, leaves), from, Place(t, leaves, lower))
    requires CutsEntries(Flat(t, leaves), to, Place(t, leaves, upper))
    requires forall i :: 0 <= i < |leaves| ==> LeafEntries(t, leaves[i]) != []
    requires from <= to
    ensures Readable(t, leaves, lower, upper)
  {
    var b := Place(t, leaves, upper);
    assert b < |Flat(t, leaves)| ==> to <= Flat(t, leaves)[b].key;
  }

  // ---------------------------------------------------------------- the index scan

  /** The entries of a range belong to exactly the records whose keys lie in it. */
  lemma RangeIsRecords(ix: Index, es: seq<Entry>, entries: map<int, Rid>, records: map<Rid, Row>,
                       from: int, to: int, a: int, b: int)
    requires InStep(entries, ix, records) && EntriesSorted(es)
    requires forall n :: 0 <= n < |es| ==> es[n].key in entries && entries[es[n].key] == es[n].rid
    requires forall k :: k in entries ==> Entry(k, entries[k]) in es
    requires CutsEntries(es, from, a) && CutsEntries(es, to, b) && a <= b
    ensures forall rid :: rid in RidsOf(es[a..b]) <==>
      rid in records && from <= RowKey(records[rid], ix.cols, ix.sizes) < to
    ensures forall i, j :: 0 <= i < j < b - a ==>
      RowKey(records[RidsOf(es[a..b])[i]], ix.cols, ix.sizes) < RowKey(records[RidsOf(es[a..b])[j]], ix.cols, ix.sizes)
  {
    var rids := RidsOf(es[a..b]);
    forall i | 0 <= i < |rids|
      ensures rids[i] in records && RowKey(records[rids[i]], ix.cols, ix.sizes) == es[a + i].key
    {
      assert rids[i] == es[a + i].rid;
    }
    forall rid | rid in records && from <= RowKey(records[rid], ix.cols, ix.sizes) < to
      ensures rid in rids
    {
      var k := RowKey(records[rid], ix.cols, ix.sizes);
      var n :| 0 <= n < |es| && es[n] == Entry(k, entries[k]);
      assert a <= n < b && rids[n - a] == rid;
    }
  }

  /** The listed record ids are those of the records with keys in the range, in key order. */
  ghost predicate Candidates(rids: seq<Rid>, ix: Index, records: map<Rid, Row>, from: int, to: int) {
    && InKeyOrder(rids, ix, records)
    && forall rid :: rid in rids <==>
         rid in records && HasColumns(records[rid], ix) && from <= RowKey(records[rid], ix.cols, ix.sizes) < to
  }

  lemma CandidateFacts(ix: Index, records: map<Rid, Row>, from: int, to: int, lower: Iid, upper: Iid)
    requires ix.ih.Valid() && InStep(ix.ih.contents, ix, records)
    requires Normal(ix.ih.View(), ix.ih.shape.leaves, lower) && Normal(ix.ih.View(), ix.ih.shape.leaves, upper)
    requires CutsEntries(ix.ih.Entries(), from, Place(ix.ih.View(), ix.ih.shape.leaves, lower))
    requires CutsEntries(ix.ih.Entries(), to, Place(ix.ih.View(), ix.ih.shape.leaves, upper))
    ensures RangeReads(ix.ih.View(), ix.ih.shape.leaves, from, to)
      <==> Readable(ix.ih.View(), ix.ih.shape.leaves, lower, upper)
    ensures
      var a := Place(ix.ih.View(), ix.ih.shape.leaves, lower);
      var b := Place(ix.ih.View(), ix.ih.shape.leaves, upper);
      a <= b ==> Candidates(RidsOf(ix.ih.Entries()[a..b]), ix, records, from, to)
  {
    var t, s := ix.ih.View(), ix.ih.shape;
    FlatSorted(t, s, ix.ih.MaxSize());
    FlatIsContents(t, s, ix.ih.MaxSize(), ix.ih.contents);
    RangeReadsAt(t, s.leaves, from, to, lower, upper);
    var a, b := Place(t, s.leaves, lower), Place(t, s.leaves, upper);
    if a <= b {
      RangeIsRecords(ix, ix.ih.Entries(), ix.ih.contents, records, from, to, a, b);
    }
  }

  /** The two ends of the range, each found with the search its bound asks for. */
  method FindRange(ix: Index, range: ScanRange) returns (lower: Iid, upper: Iid)
    requires ix.ih.Valid() && |range.low| == |range.high| == |ix.sizes|
    modifies ix.ih.pool
    ensures Normal(ix.ih.View(), ix.ih.shape.leaves, lower) && Normal(ix.ih.View(), ix.ih.shape.leaves, upper)
    ensures CutsEntries(ix.ih.Entries(), From(range, ix.sizes), Place(ix.ih.View(), ix.ih.shape.leaves, lower))
    ensures CutsEntries(ix.ih.Entries(), To(range, ix.sizes), Place(ix.ih.View(), ix.ih.shape.leaves, upper))
  {
    hide IxIndexHandle.Valid;
    if range.useLower {
      lower := ix.ih.LowerBoundOf(Rank(range.low, ix.sizes));
    } else {
      lower := ix.ih.UpperBoundOf(Rank(range.low, ix.sizes));
    }
    if range.useUpper {
      upper := ix.ih.UpperBoundOf(Rank(range.high, ix.sizes));
    } else {
      upper := ix.ih.LowerBoundOf(Rank(range.high, ix.sizes));
    }
  }

  /** Reads the candidates of a range: the records whose keys lie in it, in key order. */
  method ReadCandidates(ix: Index, range: ScanRange, ghost records: map<Rid, Row>) returns (r: ScanRows)
    requires ix.ih.Valid() && |range.low| == |range.high| == |ix.sizes|
    requires InStep(ix.ih.contents, ix, records)
    modifies ix.ih.pool
    ensures r.Rows? <==> RangeReads(ix.ih.View(), ix.ih.shape.leaves, From(range, ix.sizes), To(range, ix.sizes))
    ensures r.Rows? ==> Candidates(r.rids, ix, records, From(range, ix.sizes), To(range, ix.sizes))
  {
    hide IxIndexHandle.Valid, InStep, Candidates, CutsEntries, RangeReads;
    var lower, upper := FindRange(ix, range);
    CandidateFacts(ix, records, From(range, ix.sizes), To(range, ix.sizes), lower, upper);
    var outcome := ReadRange(ix.ih, lower, upper);
    if outcome.EntryNotFound? {
      return ScanFailed;
    }
    r := Rows(outcome.rids);
  }

  /** The keys of the listed records increase. */
  ghost predicate InKeyOrder(rids: seq<Rid>, ix: Index, records: map<Rid, Row>) {
    && (forall i {:trigger rids[i]} :: 0 <= i < |rids| ==> rids[i] in records && HasColumns(records[rids[i]], ix))
    && (forall i, j :: 0 <= i < j < |rids| ==>
          RowKey(records[rids[i]], ix.cols, ix.sizes) < RowKey(records[rids[j]], ix.cols, ix.sizes))
  }

  /** The record is selected and the padded lower bound of its index cuts it off. */
  ghost predicate CutOff(rid: Rid, records: map<Rid, Row>, ix: Index, conds: seq<ValueCond>, others: Row -> bool) {
    && Selected(rid, records, conds, others) && RowFits(records[rid], ix.cols, ix.sizes)
    && Missed(records[rid], conds, ix.cols, ix.sizes)
  }

  /** The part of the index that the conditions select can be read. */
  ghost predicate CanRead(ix: Index, conds: seq<ValueCond>)
    requires |ix.cols| == |ix.sizes|
    reads ix.ih
  {
    var r := RangeOf(conds, ix.cols, ix.sizes);
    RangeReads(ix.ih.View(), ix.ih.shape.leaves, From(r, ix.sizes), To(r, ix.sizes))
  }

  ghost predicate Usable(ix: Index, conds: seq<ValueCond>) {
    CondsFit(conds, ix.cols, ix.sizes) && MatchedColumns(conds, ix.cols) > 0
  }

  /** A selected record is in the range unless it is cut off. */
  lemma SelectedInRange(rid: Rid, records: map<Rid, Row>, ix: Index, conds: seq<ValueCond>, others: Row -> bool)
    requires InStep(ix.ih.contents, ix, records) && CondsFit(conds, ix.cols, ix.sizes)
    requires Selected(rid, records, conds, others)
    ensures RowFits(records[rid], ix.cols, ix.sizes) && HasColumns(records[rid], ix)
    ensures
      var r := RangeOf(conds, ix.cols, ix.sizes);
      From(r, ix.sizes) <= RowKey(records[rid], ix.cols, ix.sizes) < To(r, ix.sizes) <==>
      !CutOff(rid, records, ix, conds, others)
  {
    hide Missed, CondsFit, From, To, Meets;
    var r := RangeOf(conds, ix.cols, ix.sizes);
    assert RowFits(records[rid], ix.cols, ix.sizes);
    MatchIsAboveBottom(r, records[rid], conds, ix.cols, ix.sizes);
    MatchIsBelowTop(r, records[rid], conds, ix.cols, ix.sizes);
  }

  /** Finds rows through an index. It finds the rows a full scan would find, except those the padded
      lower bound leaves out. */
  method IndexScanRows(file: RmFileHandle, ix: Index, conds: seq<ValueCond>, others: Row -> bool) returns (r: ScanRows)
    requires file.Valid() && ix.ih.Valid() && InStep(ix.ih.contents, ix, file.records) && Usable(ix, conds)
    modifies ix.ih.pool
    ensures |ix.cols| == |ix.sizes| && (r.Rows? <==> CanRead(ix, conds))
    ensures r.Rows? ==> InKeyOrder(r.rids, ix, file.records)
    ensures r.Rows? ==> forall rid :: rid in r.rids <==>
      Selected(rid, file.records, conds, others) && !CutOff(rid, file.records, ix, conds, others)
  {
    hide IxIndexHandle.Valid, RmFileHandle.Valid, InStep, RangeReads, IsRange, Selected, CutOff, InKeyOrder, RangeOf;
    var bounds := MakeScanRange(conds, ix.cols, ix.sizes);
    RangeIsUnique(bounds, RangeOf(conds, ix.cols, ix.sizes), conds, ix.cols, ix.sizes);
    RangeWidth(bounds, conds, ix.cols, ix.sizes);
    var candidates := ReadCandidates(ix, bounds, file.records);
    if candidates.ScanFailed? {
      return ScanFailed;
    }
    var rids := FilterRows(file, candidates.rids, ix, conds, others);
    forall rid
      ensures rid in rids <==>
        Selected(rid, file.records, conds, others) && !CutOff(rid, file.records, ix, conds, others)
    {
      if Selected(rid, file.records, conds, others) {
        SelectedIsThere(rid, file.records, conds, others);
        SelectedInRange(rid, file.records, ix, conds, others);
      }
    }
    r := Rows(rids);
  }

  lemma SelectedIsThere(rid: Rid, records: map<Rid, Row>, conds: seq<ValueCond>, others: Row -> bool)
    requires Selected(rid, records, conds, others)
    ensures rid in records
  {
  }

  /** Keeps the candidates whose records meet the conditions. */
  method FilterRows(file: RmFileHandle, candidates: seq<Rid>, ghost ix: Index, conds: seq<ValueCond>,
                    others: Row -> bool) returns (rids: seq<Rid>)
    requires file.Valid() && InKeyOrder(candidates, ix, file.records)
    ensures forall rid :: rid in rids <==> rid in candidates && Selected(rid, file.records, conds, others)
    ensures InKeyOrder(rids, ix, file.records)
  {
    hide RmFileHandle.Valid, Matches;
    rids := [];
    for i := 0 to |candidates|
      invariant forall rid :: rid in rids ==> rid in candidates[..i] && Selected(rid, file.records, conds, others)
      invariant forall j :: 0 <= j < i && Selected(candidates[j], file.records, conds, others) ==> candidates[j] in rids
      invariant InKeyOrder(rids, ix, file.records)
    {
      var rec := file.GetRecord(candidates[i]);
      if rec.Ok? {
        var ok := EvalConds(rec.value, conds, others);
        if ok {
          forall x | x in candidates[..i]
            ensures RowKey(file.records[x], ix.cols, ix.sizes)
                    < RowKey(file.records[candidates[i]], ix.cols, ix.sizes)
          {
          }
          rids := rids + [candidates[i]];
        }
      }
    }
  }

  // ---------------------------------------------------------------- one scan or the other

  /** An index scan that can read its range finds the rows of the sequential scan iff its padding cuts none of
      them off. */
  method CompareScans(file: RmFileHandle, ix: Index, conds: seq<ValueCond>, others: Row -> bool)
      returns (all: seq<Rid>, found: ScanRows)
    requires file.Valid() && ix.ih.Valid() && InStep(ix.ih.contents, ix, file.records) && Usable(ix, conds)
    modifies ix.ih.pool
    ensures |ix.cols| == |ix.sizes| && (found.Rows? <==> CanRead(ix, conds))
    ensures forall rid :: rid in all <==> Selected(rid, file.records, conds, others)
    ensures found.Rows? ==>
      ((forall rid :: rid in all <==> rid in found.rids) <==>
       (forall rid :: !CutOff(rid, file.records, ix, conds, others)))
  {
    hide IxIndexHandle.Valid, RmFileHandle.Valid, InStep, RangeReads, Selected, Missed;
    hide InKeyOrder, Usable, RowFits, CanRead;
    all := SeqScan(file, conds, others);
    found := IndexScanRows(file, ix, conds, others);
  }

  /** Finds the rows of a table through the index with the most usable conditions, or by reading them all when
      no index has any. */
  method FindRows(t: Table, conds: seq<ValueCond>, others: Row -> bool) returns (r: ScanRows, ghost best: Option<nat>)
    requires t.Valid() && forall i :: 0 <= i < |t.indexes| ==> CondsFit(conds, t.indexes[i].cols, t.indexes[i].sizes)
    modifies t.Pools()
    ensures best == Best(conds, KeyColumns(t.indexes)) && (best.Some? ==> best.value < |t.indexes|)
    ensures best.None? ==> r.Rows? && forall rid :: rid in r.rids <==> Selected(rid, t.file.records, conds, others)
    ensures best.Some? ==>
      var ix := t.indexes[best.value];
      && |ix.cols| == |ix.sizes| && (r.Rows? <==> CanRead(ix, conds))
      && (r.Rows? ==> forall rid :: rid in r.rids <==>
            Selected(rid, t.file.records, conds, others) && !CutOff(rid, t.file.records, ix, conds, others))
  {
    hide IxIndexHandle.Valid, RmFileHandle.Valid, Selected, CondsFit, RangeReads, InKeyOrder;
    hide InStep, CutOff, CanRead, Best;
    var cols := seq(|t.indexes|, i requires 0 <= i < |t.indexes| reads t => t.indexes[i].cols);
    assert cols == KeyColumns(t.indexes);
    forall i | 0 <= i < |t.indexes|
      ensures t.indexes[i].ih.Valid() && InStep(t.indexes[i].ih.contents, t.indexes[i], t.file.records)
    {
      t.OneInStep(i);
    }
    hide Table.Valid;
    var choice := ChooseIndex(conds, cols);
    best := choice;
    if choice.None? {
      var rids := SeqScan(t.file, conds, others);
      r := Rows(rids);
    } else {
      var ix := t.indexes[choice.value];
      r := IndexScanRows(t.file, ix, conds, others);
    }
  }
}
