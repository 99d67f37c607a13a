/**
 The scan of a record file.
 */
module RecordScan {
  import opened Common
  import opened Bitmap
  import opened RecordFile

  /** The order in which the scan meets records. */
  predicate Before(x: Rid, y: Rid) {
    x.pageNo < y.pageNo || (x.pageNo == y.pageNo && x.slotNo < y.slotNo)
  }

  ghost predicate Increasing(rids: seq<Rid>) {
    forall i, j :: 0 <= i < j < |rids| ==> Before(rids[i], rids[j])
  }

  class RmScan {
    const fh: RmFileHandle
    var rid: Rid

    ghost predicate InStep()
      reads this, fh
    {
      && fh.Valid() && FIRST_RECORD_PAGE <= rid.pageNo <= fh.numPages && -1 <= rid.slotNo < fh.perPage
      && (rid.pageNo == fh.numPages ==> rid.slotNo == -1)
    }

    predicate IsEnd()
      reads this, fh
    {
      rid.pageNo >= fh.numPages
    }

    /** Starts on the first record. */
    constructor (fh: RmFileHandle)
      requires fh.Valid()
      ensures this.fh == fh && InStep()
      ensures !IsEnd() ==> rid in fh.records
      ensures forall x :: x in fh.records ==> !IsEnd() && !Before(x, rid)
    {
      this.fh := fh;
      rid := Rid(FIRST_RECORD_PAGE, -1);
      new;
      forall x | x in fh.records
        ensures Before(rid, x)
      {
        assert x in fh.records <==> Live(fh.pages, fh.perPage, x);
      }
      Next();
    }

    /** Moves to the next record after the current place, or to the end. */
    method Next()
      requires InStep()
      modifies this
      ensures InStep()
      ensures !IsEnd() ==> rid in fh.records && Before(old(rid), rid)
      ensures forall x :: x in fh.records && Before(old(rid), x) ==> !IsEnd() && !Before(x, rid)
    {
      var pageNo, slotNo := rid.pageNo, rid.slotNo;
      while pageNo < fh.numPages
        invariant FIRST_RECORD_PAGE <= pageNo <= fh.numPages && -1 <= slotNo < fh.perPage
        invariant Rid(pageNo, slotNo) == rid || Before(rid, Rid(pageNo, slotNo))
        invariant forall x :: x in fh.records && Before(old(rid), x) ==> Before(Rid(pageNo, slotNo), x)
        invariant rid == old(rid)
      {
        ghost var place := Rid(pageNo, slotNo);
        var next := NextBit(true, fh.pages[pageNo].bitmap, fh.perPage, slotNo);
        forall x | x in fh.records && Before(place, x)
          ensures if next < fh.perPage then !Before(x, Rid(pageNo, next)) else x.pageNo > pageNo
        {
          assert x in fh.records <==> Live(fh.pages, fh.perPage, x);
        }
        if next < fh.perPage {
          rid := Rid(pageNo, next);
          assert rid in fh.records <==> Live(fh.pages, fh.perPage, rid);
          return;
        }
        pageNo := pageNo + 1;
        slotNo := -1;
        forall x | x in fh.records && Before(place, x)
          ensures Before(Rid(pageNo, slotNo), x)
        {
          assert x in fh.records <==> Live(fh.pages, fh.perPage, x);
        }
      }
      forall x | x in fh.records
        ensures x.pageNo < fh.numPages
      {
        assert x in fh.records <==> Live(fh.pages, fh.perPage, x);
      }
      rid := Rid(fh.numPages, -1);
    }
  }

  lemma IncreasingMore(rids: seq<Rid>, here: Rid)
    requires Increasing(rids) && forall x <- rids :: Before(x, here)
    ensures Increasing(rids + [here])
  {
  }

  /** The scan meets every record once, in order, and then ends. */
  method ScanAll(fh: RmFileHandle) returns (rids: seq<Rid>)
    requires fh.Valid()
    ensures Increasing(rids)
    ensures forall x :: x in rids <==> x in fh.records
  {
    hide RmFileHandle.Valid;
    rids := [];
    var scan := new RmScan(fh);
    while !scan.IsEnd()
      invariant scan.fh == fh && scan.InStep() && fresh(scan)
      invariant !scan.IsEnd() ==> scan.rid in fh.records
      invariant Increasing(rids)
      invariant forall x :: x in rids ==> x in fh.records && (scan.IsEnd() || Before(x, scan.rid))
      invariant forall x :: x in fh.records && x !in rids ==> !scan.IsEnd() && !Before(x, scan.rid)
      decreases fh.numPages - scan.rid.pageNo, fh.perPage - scan.rid.slotNo
    {
      var here := scan.rid;
      ghost var seen := rids;
      IncreasingMore(rids, here);
      rids := rids + [here];
      scan.Next();
      assert forall x :: x in rids <==> x in seen || x == here;
      assert forall x :: x in fh.records && x !in rids ==> Before(here, x);
    }
  }
}
