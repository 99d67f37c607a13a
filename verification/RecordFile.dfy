/**
 The record file of a table: pages of slots with a bitmap each, and a list of the pages with room
 threaded through their headers. It stands for a map from record ids to records.
 */
module RecordFile {
  import opened Bitmap
  import opened Common

  type Rec = seq<nat>

  const FIRST_RECORD_PAGE := 1

  datatype RmPage = RmPage(next: int, num: int, bitmap: seq<bv8>, slots: seq<Rec>)

  type RmPages = map<int, RmPage>

  datatype RmError = PageNotExist | RecordNotFound

  // ---------------------------------------------------------------- the invariant

  ghost predicate PageOk(pg: RmPage, perPage: nat) {
    perPage <= 8 * |pg.bitmap| && |pg.slots| == perPage && pg.num == CountSet(pg.bitmap, perPage)
  }

  ghost predicate PagesOk(pages: RmPages, perPage: nat, numPages: int) {
    && 1 <= numPages && 1 <= perPage
    && (forall p :: p in pages <==> FIRST_RECORD_PAGE <= p < numPages)
    && (forall p {:trigger pages[p]} :: p in pages ==> PageOk(pages[p], perPage))
  }

  ghost predicate FreeLink(pages: RmPages, free: seq<int>, i: int)
    requires 0 <= i < |free|
  {
    free[i] in pages && pages[free[i]].next == (if i + 1 < |free| then free[i + 1] else NO_PAGE)
  }

  ghost predicate Linked(pages: RmPages, free: seq<int>) {
    forall i {:trigger FreeLink(pages, free, i)} :: 0 <= i < |free| ==> FreeLink(pages, free, i)
  }

  ghost predicate NoRepeats(s: seq<int>) {
    forall i, j :: 0 <= i < j < |s| ==> s[i] != s[j]
  }

  /** The free list starts at `head`, has no repeats, and holds exactly the pages with room. */
  ghost predicate FreeListOk(pages: RmPages, perPage: nat, head: int, free: seq<int>) {
    && head == (if free == [] then NO_PAGE else free[0])
    && Linked(pages, free) && NoRepeats(free)
    && (forall p :: p in free <==> p in pages && pages[p].num < perPage)
  }

  ghost predicate Live(pages: RmPages, perPage: nat, rid: Rid) {
    && rid.pageNo in pages && 0 <= rid.slotNo < perPage
    && rid.slotNo < 8 * |pages[rid.pageNo].bitmap| && IsSet(pages[rid.pageNo].bitmap, rid.slotNo)
  }

  /** The live slots are exactly the records of the map. */
  ghost predicate Stores(pages: RmPages, perPage: nat, records: map<Rid, Rec>) {
    forall rid {:trigger rid in records} {:trigger Live(pages, perPage, rid)} ::
      && (rid in records <==> Live(pages, perPage, rid))
      && (rid in records && rid.slotNo < |pages[rid.pageNo].slots| ==>
            records[rid] == pages[rid.pageNo].slots[rid.slotNo])
  }

  ghost predicate FileOk(pages: RmPages, perPage: nat, numPages: int, head: int, free: seq<int>,
                         records: map<Rid, Rec>) {
    && PagesOk(pages, perPage, numPages) && FreeListOk(pages, perPage, head, free)
    && Stores(pages, perPage, records)
  }

  // ---------------------------------------------------------------- one slot changes

  function Fill(pg: RmPage, slot: nat, rec: Rec): RmPage
    requires slot < |pg.slots| && slot < 8 * |pg.bitmap|
  {
    pg.(bitmap := Set(pg.bitmap, slot), slots := pg.slots[slot := rec],
        num := if IsSet(pg.bitmap, slot) then pg.num else pg.num + 1)
  }

  function Clear(pg: RmPage, slot: nat, zero: Rec): RmPage
    requires slot < |pg.slots| && slot < 8 * |pg.bitmap|
  {
    pg.(bitmap := Reset(pg.bitmap, slot), slots := pg.slots[slot := zero], num := pg.num - 1)
  }

  lemma FillStores(pages: RmPages, perPage: nat, p: int, slot: nat, rec: Rec, next: int, records: map<Rid, Rec>)
    requires Stores(pages, perPage, records) && p in pages && PageOk(pages[p], perPage) && slot < perPage
    ensures PageOk(Fill(pages[p], slot, rec), perPage)
    ensures Stores(pages[p := Fill(pages[p], slot, rec).(next := next)], perPage, records[Rid(p, slot) := rec])
  {
    var pages' := pages[p := Fill(pages[p], slot, rec).(next := next)];
    var records' := records[Rid(p, slot) := rec];
    CountAfterSet(pages[p].bitmap, slot, perPage);
    forall rid
      ensures rid in records' <==> Live(pages', perPage, rid)
      ensures rid in records' && rid.slotNo < |pages'[rid.pageNo].slots| ==>
        records'[rid] == pages'[rid.pageNo].slots[rid.slotNo]
    {
      assert rid in records <==> Live(pages, perPage, rid);
      if rid.pageNo == p && 0 <= rid.slotNo < perPage {
        SetSets(pages[p].bitmap, slot, rid.slotNo);
      }
    }
  }

  lemma ClearStores(pages: RmPages, perPage: nat, p: int, slot: nat, zero: Rec, next: int, records: map<Rid, Rec>)
    requires Stores(pages, perPage, records) && p in pages && PageOk(pages[p], perPage) && slot < perPage
    requires IsSet(pages[p].bitmap, slot)
    ensures PageOk(Clear(pages[p], slot, zero), perPage)
    ensures Stores(pages[p := Clear(pages[p], slot, zero).(next := next)], perPage, records - {Rid(p, slot)})
  {
    var pages' := pages[p := Clear(pages[p], slot, zero).(next := next)];
    var records' := records - {Rid(p, slot)};
    CountAfterSet(pages[p].bitmap, slot, perPage);
    forall rid
      ensures rid in records' <==> Live(pages', perPage, rid)
      ensures rid in records' && rid.slotNo < |pages'[rid.pageNo].slots| ==>
        records'[rid] == pages'[rid.pageNo].slots[rid.slotNo]
    {
      assert rid in records <==> Live(pages, perPage, rid);
      if rid.pageNo == p && 0 <= rid.slotNo < perPage {
        SetSets(pages[p].bitmap, slot, rid.slotNo);
      }
    }
  }

  lemma WriteStores(pages: RmPages, perPage: nat, rid: Rid, rec: Rec, records: map<Rid, Rec>)
    requires Stores(pages, perPage, records) && rid in records
    requires rid.pageNo in pages && 0 <= rid.slotNo < |pages[rid.pageNo].slots|
    ensures
      var pg := pages[rid.pageNo];
      Stores(pages[rid.pageNo := pg.(slots := pg.slots[rid.slotNo := rec])], perPage, records[rid := rec])
  {
  }

  lemma CreateStores(pages: RmPages, perPage: nat, p: int, pg: RmPage, records: map<Rid, Rec>)
    requires Stores(pages, perPage, records) && p !in pages
    requires perPage <= 8 * |pg.bitmap| && pg.bitmap == Init(|pg.bitmap|)
    ensures Stores(pages[p := pg], perPage, records)
  {
  }

  // ---------------------------------------------------------------- the free list

  /** A page that stays on its side of full keeps the list. */
  lemma FreeListKept(pages: RmPages, perPage: nat, head: int, free: seq<int>, p: int, pg: RmPage)
    requires FreeListOk(pages, perPage, head, free) && p in pages
    requires pg.num < perPage <==> pages[p].num < perPage
    requires pages[p].num < perPage ==> pg.next == pages[p].next
    ensures FreeListOk(pages[p := pg], perPage, head, free)
  {
    var pages' := pages[p := pg];
    forall i | 0 <= i < |free|
      ensures FreeLink(pages', free, i)
    {
      assert FreeLink(pages, free, i) && free[i] in free;
    }
  }

  /** A page that comes to have room goes to the front. */
  lemma FreeListPush(pages: RmPages, perPage: nat, head: int, free: seq<int>, p: int, pg: RmPage)
    requires FreeListOk(pages, perPage, head, free) && p !in free
    requires pg.num < perPage && pg.next == head
    ensures FreeListOk(pages[p := pg], perPage, p, [p] + free)
  {
    var pages', free' := pages[p := pg], [p] + free;
    forall i | 0 <= i < |free'|
      ensures FreeLink(pages', free', i)
    {
      if i > 0 {
        assert FreeLink(pages, free, i - 1) && free[i - 1] in free;
      }
    }
  }

  function Without(free: seq<int>, k: int): seq<int>
    requires 0 <= k < |free|
  {
    free[..k] + free[k + 1..]
  }

  /** The pages after the page at place `k` of the list has filled up and been unlinked. */
  function Unlinked(pages: RmPages, free: seq<int>, k: int, pg: RmPage): RmPages
    requires 0 <= k < |free|
  {
    var pages' := pages[free[k] := pg.(next := NO_PAGE)];
    if k == 0 || free[k - 1] !in pages' then pages'
    else pages'[free[k - 1] := pages'[free[k - 1]].(next := pg.next)]
  }

  lemma FreeListUnlink(pages: RmPages, perPage: nat, head: int, free: seq<int>, k: int, pg: RmPage)
    requires FreeListOk(pages, perPage, head, free) && 0 <= k < |free| && free[k] in pages
    requires pg.num >= perPage && pg.next == pages[free[k]].next
    requires k > 0 ==> free[k - 1] in pages
    ensures FreeListOk(Unlinked(pages, free, k, pg), perPage, if k == 0 then pg.next else head, Without(free, k))
  {
    var pages', free' := Unlinked(pages, free, k, pg), Without(free, k);
    assert FreeLink(pages, free, k);
    forall i | 0 <= i < |free'|
      ensures FreeLink(pages', free', i)
    {
      var j := if i < k then i else i + 1;
      assert FreeLink(pages, free, j) && free'[i] == free[j] && free[j] != free[k];
      assert j != k - 1 && k > 0 ==> free[j] != free[k - 1];
    }
    forall p
      ensures p in free' <==> p in free && p != free[k]
    {
      if p in free && p != free[k] {
        var j :| 0 <= j < |free| && free[j] == p;
        assert free'[if j < k then j else j - 1] == p;
      }
    }
  }

  lemma LinksKept(pages: RmPages, free: seq<int>, p: int, pg: RmPage)
    requires Linked(pages, free) && p in pages && pg.next == pages[p].next
    ensures Linked(pages[p := pg], free)
  {
    var pages' := pages[p := pg];
    forall i | 0 <= i < |free|
      ensures FreeLink(pages', free, i)
    {
      assert FreeLink(pages, free, i);
    }
  }

  // ---------------------------------------------------------------- whole steps

  /** A record goes into a page that still has room afterwards, or was full before. */
  lemma FillStep(pages: RmPages, perPage: nat, numPages: int, head: int, free: seq<int>,
                 records: map<Rid, Rec>, p: int, slot: nat, rec: Rec)
    requires FileOk(pages, perPage, numPages, head, free, records) && p in pages && slot < perPage
    requires Fill(pages[p], slot, rec).num < perPage || pages[p].num == perPage
    ensures
      var filled := Fill(pages[p], slot, rec);
      FileOk(pages[p := if filled.num == perPage then filled.(next := NO_PAGE) else filled],
             perPage, numPages, head, free, records[Rid(p, slot) := rec])
  {
    var filled := Fill(pages[p], slot, rec);
    CountIsFull(pages[p].bitmap, perPage);
    var pg := if filled.num == perPage then filled.(next := NO_PAGE) else filled;
    FillStores(pages, perPage, p, slot, rec, pg.next, records);
    FreeListKept(pages, perPage, head, free, p, pg);
  }

  /** A record takes the last slot of the page at place `k` of the free list. */
  lemma FillUpStep(pages: RmPages, perPage: nat, numPages: int, head: int, free: seq<int>,
                   records: map<Rid, Rec>, k: int, slot: nat, rec: Rec)
    requires FileOk(pages, perPage, numPages, head, free, records) && 0 <= k < |free| && slot < perPage
    requires free[k] in pages && (k > 0 ==> free[k - 1] in pages)
    requires Fill(pages[free[k]], slot, rec).num == perPage
    ensures
      var filled := Fill(pages[free[k]], slot, rec);
      FileOk(Unlinked(pages, free, k, filled), perPage, numPages,
             if k == 0 then filled.next else head, Without(free, k), records[Rid(free[k], slot) := rec])
  {
    var p := free[k];
    var filled := Fill(pages[p], slot, rec);
    FillStores(pages, perPage, p, slot, rec, NO_PAGE, records);
    FreeListUnlink(pages, perPage, head, free, k, filled);
    RelinkStores(pages[p := filled.(next := NO_PAGE)], Unlinked(pages, free, k, filled), perPage,
                 records[Rid(p, slot) := rec]);
  }

  /** The pages after a record has gone into page `p`, at place `k` of the free list if it is there. */
  function FilledPages(pages: RmPages, perPage: nat, free: seq<int>, k: int, p: int, filled: RmPage): RmPages
    requires 0 <= k <= |free|
  {
    if filled.num != perPage then pages[p := filled]
    else if k < |free| then Unlinked(pages, free, k, filled)
    else pages[p := filled.(next := NO_PAGE)]
  }

  lemma FillPlaceStep(pages: RmPages, perPage: nat, numPages: int, head: int, free: seq<int>,
                      records: map<Rid, Rec>, p: int, slot: nat, rec: Rec) returns (k: int)
    requires FileOk(pages, perPage, numPages, head, free, records) && p in pages && slot < perPage
    ensures 0 <= k <= |free| && (if k < |free| then free[k] == p else p !in free)
    ensures slot < |pages[p].slots| && slot < 8 * |pages[p].bitmap|
    ensures NO_PAGE !in pages && NoRepeats(free) && head == if free == [] then NO_PAGE else free[0]
    ensures
      var filled := Fill(pages[p], slot, rec);
      && Linked(pages[p := filled], free)
      && FileOk(FilledPages(pages, perPage, free, k, p, filled), perPage, numPages,
                if filled.num == perPage && k == 0 && k < |free| then filled.next else head,
                if filled.num == perPage && k < |free| then Without(free, k) else free,
                records[Rid(p, slot) := rec])
  {
    var filled := Fill(pages[p], slot, rec);
    CountIsFull(pages[p].bitmap, perPage);
    LinksKept(pages, free, p, filled);
    k := |free|;
    if p in free {
      k :| 0 <= k < |free| && free[k] == p;
    }
    if filled.num == perPage && k < |free| {
      assert k > 0 ==> FreeLink(pages, free, k - 1);
      FillUpStep(pages, perPage, numPages, head, free, records, k, slot, rec);
    } else {
      FillStep(pages, perPage, numPages, head, free, records, p, slot, rec);
    }
  }

  lemma RelinkStores(pages: RmPages, pages': RmPages, perPage: nat, records: map<Rid, Rec>)
    requires Stores(pages, perPage, records) && pages'.Keys == pages.Keys
    requires forall p :: p in pages ==> pages'[p] == pages[p].(next := pages'[p].next)
    ensures Stores(pages', perPage, records)
  {
  }

  lemma ClearStep(pages: RmPages, perPage: nat, numPages: int, head: int, free: seq<int>,
                  records: map<Rid, Rec>, p: int, slot: nat, zero: Rec)
    requires FileOk(pages, perPage, numPages, head, free, records) && p in pages && slot < perPage
    requires IsSet(pages[p].bitmap, slot)
    ensures
      var cleared := Clear(pages[p], slot, zero);
      if pages[p].num == perPage
      then FileOk(pages[p := cleared.(next := head)], perPage, numPages, p, [p] + free, records - {Rid(p, slot)})
      else FileOk(pages[p := cleared], perPage, numPages, head, free, records - {Rid(p, slot)})
  {
    var cleared := Clear(pages[p], slot, zero);
    CountIsFull(pages[p].bitmap, perPage);
    if pages[p].num == perPage {
      ClearStores(pages, perPage, p, slot, zero, head, records);
      FreeListPush(pages, perPage, head, free, p, cleared.(next := head));
    } else {
      ClearStores(pages, perPage, p, slot, zero, cleared.next, records);
      FreeListKept(pages, perPage, head, free, p, cleared);
    }
  }

  // ---------------------------------------------------------------- the file

  datatype Outcome<T> = Ok(value: T) | Err(error: RmError)

  lemma PlaceFacts(pages: RmPages, perPage: nat, numPages: int, head: int, free: seq<int>,
                   records: map<Rid, Rec>, rid: Rid)
    requires FileOk(pages, perPage, numPages, head, free, records)
    ensures rid in records <==> Live(pages, perPage, rid)
    ensures FIRST_RECORD_PAGE <= rid.pageNo < numPages <==> rid.pageNo in pages
    ensures rid.pageNo in pages ==>
      && perPage <= |pages[rid.pageNo].slots| && perPage <= 8 * |pages[rid.pageNo].bitmap|
      && (rid.pageNo in free <==> pages[rid.pageNo].num < perPage) && pages[rid.pageNo].num <= perPage
    ensures head == NO_PAGE <==> free == []
  {
    if rid.pageNo in pages {
      CountIsFull(pages[rid.pageNo].bitmap, perPage);
    }
    if free != [] {
      assert free[0] in free;
    }
  }

  class RmFileHandle {
    const perPage: nat
    const bitmapSize: nat
    const zero: Rec
    var numPages: int
    var firstFree: int
    var pages: RmPages
    ghost var free: seq<int>
    ghost var records: map<Rid, Rec>

    ghost predicate Valid()
      reads this
    {
      perPage <= 8 * bitmapSize && FileOk(pages, perPage, numPages, firstFree, free, records)
    }

    constructor (perPage: nat, zero: Rec)
      requires 1 <= perPage
      ensures Valid() && records == map[] && this.perPage == perPage
    {
      this.perPage, this.zero := perPage, zero;
      bitmapSize := (perPage + 7) / 8;
      numPages, firstFree, pages := 1, NO_PAGE, map[];
      free, records := [], map[];
    }

    /** Whether a page of the file has this number. */
    predicate HasPage(p: int)
      reads this
    {
      FIRST_RECORD_PAGE <= p < numPages
    }

    method GetRecord(rid: Rid) returns (r: Outcome<Rec>)
      requires Valid()
      ensures r.Ok? <==> rid in records
      ensures r.Ok? ==> r.value == records[rid]
      ensures r.Err? ==> r.error == if HasPage(rid.pageNo) then RecordNotFound else PageNotExist
    {
      assert rid in records <==> Live(pages, perPage, rid);
      if !HasPage(rid.pageNo) {
        return Err(PageNotExist);
      }
      var pg := pages[rid.pageNo];
      if rid.slotNo < 0 || rid.slotNo >= perPage || !IsSet(pg.bitmap, rid.slotNo) {
        return Err(RecordNotFound);
      }
      r := Ok(pg.slots[rid.slotNo]);
    }

    /** Adds an empty page at the front of the free list. */
    method CreatePage() returns (p: int)
      requires Valid()
      modifies this`pages, this`numPages, this`firstFree, this`free
      ensures Valid() && p == old(numPages) && numPages == p + 1 && firstFree == p && p in pages
      ensures free == [p] + old(free)
    {
      p := numPages;
      var pg := RmPage(firstFree, 0, Init(bitmapSize), seq(perPage, _ => zero));
      CountInit(bitmapSize, perPage);
      CreateStores(pages, perPage, p, pg, records);
      FreeListPush(pages, perPage, firstFree, free, p, pg);
      pages := pages[p := pg];
      numPages := numPages + 1;
      firstFree := p;
      free := [p] + free;
    }

    /** A page with room: the first of the free list, or a new one. */
    method PageWithRoom() returns (p: int)
      requires Valid()
      modifies this`pages, this`numPages, this`firstFree, this`free
      ensures Valid() && free != [] && p == free[0] && p in pages && pages[p].num < perPage
      ensures free == if old(free) == [] then [old(numPages)] else old(free)
    {
      PlaceFacts(pages, perPage, numPages, firstFree, free, records, Rid(NO_PAGE, 0));
      p := firstFree;
      if firstFree == NO_PAGE {
        p := CreatePage();
      }
      assert free[0] in free;
    }

    /** Stores a record in the first free slot of the first page with room. */
    method InsertRecord(rec: Rec) returns (rid: Rid)
      requires Valid()
      modifies this
      ensures Valid()
      ensures rid !in old(records) && records == old(records)[rid := rec]
      ensures rid.pageNo == if old(free) == [] then old(numPages) else old(free)[0]
      ensures 0 <= rid.slotNo < perPage && forall s :: 0 <= s < rid.slotNo ==> Rid(rid.pageNo, s) in old(records)
    {
      hide FileOk;
      var p := PageWithRoom();
      var slot := FreeSlot(p);
      rid := Rid(p, slot);
      var filled := Fill(pages[p], slot, rec);
      if filled.num == perPage {
        FillUpStep(pages, perPage, numPages, firstFree, free, records, 0, slot, rec);
        pages, firstFree := pages[p := filled.(next := NO_PAGE)], filled.next;
        free := Without(free, 0);
      } else {
        FillStep(pages, perPage, numPages, firstFree, free, records, p, slot, rec);
        pages := pages[p := filled];
      }
      records := records[rid := rec];
    }

    /** The first free slot of a page with room. */
    method FreeSlot(p: int) returns (slot: nat)
      requires Valid() && p in pages && pages[p].num < perPage
      ensures slot < perPage && Rid(p, slot) !in records
      ensures forall s :: 0 <= s < slot ==> Rid(p, s) in records
      ensures slot < |pages[p].slots| && slot < 8 * |pages[p].bitmap| && Fill(pages[p], slot, zero).num <= perPage
    {
      var pg := pages[p];
      CountIsFull(pg.bitmap, perPage);
      slot := NextBit(false, pg.bitmap, perPage, -1);
      assert Rid(p, slot) in records <==> Live(pages, perPage, Rid(p, slot));
      forall s | 0 <= s < slot
        ensures Rid(p, s) in records
      {
        assert Live(pages, perPage, Rid(p, s));
      }
    }

    /** Takes a page that has just filled up off the free list, by a walk from its head. */
    method Unlink(p: int, ghost k: int)
      requires p in pages && NO_PAGE !in pages
      requires 0 <= k <= |free| && NoRepeats(free) && Linked(pages, free)
      requires firstFree == if free == [] then NO_PAGE else free[0]
      requires if k < |free| then free[k] == p else p !in free
      modifies this`pages, this`firstFree
      ensures firstFree == if k == 0 && k < |free| then old(pages)[p].next else old(firstFree)
      ensures pages == if k < |free| then Unlinked(old(pages), free, k, old(pages)[p])
                       else old(pages)[p := old(pages)[p].(next := NO_PAGE)]
    {
      if firstFree == p {
        firstFree := pages[p].next;
      } else {
        var prev := firstFree;
        ghost var i := 0;
        assert free != [] ==> FreeLink(pages, free, 0);
        while prev != NO_PAGE
          invariant pages == old(pages)
          invariant 0 <= i <= |free| && prev == (if i < |free| then free[i] else NO_PAGE)
          invariant i < |free| ==> prev in pages && FreeLink(pages, free, i)
          invariant k < |free| ==> i < k
          decreases |free| - i
        {
          if pages[prev].next == p {
            pages := pages[prev := pages[prev].(next := pages[p].next)];
            break;
          }
          prev := pages[prev].next;
          i := i + 1;
          assert i < |free| ==> FreeLink(pages, free, i);
        }
      }
      pages := pages[p := pages[p].(next := NO_PAGE)];
    }

    /** Stores a record at a given place, adding pages up to it. */
    method InsertRecordAt(rid: Rid, rec: Rec) returns (r: Outcome<()>)
      requires Valid()
      modifies this
      ensures Valid()
      ensures r.Ok? <==> FIRST_RECORD_PAGE <= rid.pageNo && 0 <= rid.slotNo < perPage
      ensures records == if r.Ok? then old(records)[rid := rec] else old(records)
    {
      while rid.pageNo >= numPages
        invariant Valid() && records == old(records)
      {
        var _ := CreatePage();
      }
      if !HasPage(rid.pageNo) {
        return Err(PageNotExist);
      }
      if rid.slotNo < 0 || rid.slotNo >= perPage {
        return Err(RecordNotFound);
      }
      FillPlace(rid.pageNo, rid.slotNo, rec);
      r := Ok(());
    }

    /** Stores a record in a slot of a page, used or not. */
    method FillPlace(p: int, slot: nat, rec: Rec)
      requires Valid() && p in pages && slot < perPage
      modifies this
      ensures Valid() && records == old(records)[Rid(p, slot) := rec]
    {
      hide FileOk, Linked, NoRepeats, Fill;
      ghost var k := FillPlaceStep(pages, perPage, numPages, firstFree, free, records, p, slot, rec);
      var filled := Fill(pages[p], slot, rec);
      ghost var pages0, head0 := pages, firstFree;
      pages := pages[p := filled];
      if filled.num == perPage {
        Unlink(p, k);
        assert pages == FilledPages(pages0, perPage, free, k, p, filled);
        assert firstFree == if k == 0 && k < |free| then filled.next else head0;
        free := if k < |free| then Without(free, k) else free;
      }
      records := records[Rid(p, slot) := rec];
    }

    method UpdateRecord(rid: Rid, rec: Rec) returns (r: Outcome<()>)
      requires Valid()
      modifies this`pages, this`records
      ensures Valid()
      ensures r.Ok? <==> rid in old(records)
      ensures records == if r.Ok? then old(records)[rid := rec] else old(records)
    {
      assert rid in records <==> Live(pages, perPage, rid);
      if !HasPage(rid.pageNo) {
        return Err(PageNotExist);
      }
      var pg := pages[rid.pageNo];
      if rid.slotNo < 0 || rid.slotNo >= perPage || !IsSet(pg.bitmap, rid.slotNo) {
        return Err(RecordNotFound);
      }
      var written := pg.(slots := pg.slots[rid.slotNo := rec]);
      FreeListKept(pages, perPage, firstFree, free, rid.pageNo, written);
      WriteStores(pages, perPage, rid, rec, records);
      pages := pages[rid.pageNo := written];
      records := records[rid := rec];
      r := Ok(());
    }

    method DeleteRecord(rid: Rid) returns (r: Outcome<()>)
      requires Valid()
      modifies this
      ensures Valid()
      ensures r.Ok? <==> rid in old(records)
      ensures records == old(records) - {rid}
      ensures free == if r.Ok? && rid.pageNo !in old(free) then [rid.pageNo] + old(free) else old(free)
    {
      hide FileOk, IsSet;
      PlaceFacts(pages, perPage, numPages, firstFree, free, records, rid);
      if !HasPage(rid.pageNo) {
        return Err(PageNotExist);
      }
      var p, pg := rid.pageNo, pages[rid.pageNo];
      if rid.slotNo < 0 || rid.slotNo >= perPage || !IsSet(pg.bitmap, rid.slotNo) {
        return Err(RecordNotFound);
      }
      ClearStep(pages, perPage, numPages, firstFree, free, records, p, rid.slotNo, zero);
      var cleared := Clear(pg, rid.slotNo, zero);
      if pg.num == perPage {
        cleared := cleared.(next := firstFree);
        firstFree := p;
        free := [p] + free;
      }
      pages := pages[p := cleared];
      records := records - {rid};
      r := Ok(());
    }
  }
}
