/**
 The buffer pool manager and its replacer, proved against the steps of module BufferPool.
 */
module BufferManager {
  import opened Common
  import opened BufferPool

  /** Lists the frames that may be replaced, the one unpinned longest ago first. */
  class LRUReplacer {
    const maxSize: nat
    var list: seq<int>
    var hash: set<int>
    ghost var clock: nat
    /** When each listed frame was unpinned. */
    ghost var since: map<int, nat>

    ghost predicate Valid()
      reads this
    {
      && NoRepeats(list) && (forall f :: f in hash <==> f in list)
      && InOrder(list, since) && (forall f :: f in list ==> since[f] < clock)
    }

    /** Of all listed frames, this one was unpinned first. */
    ghost predicate Oldest(f: int)
      reads this
    {
      f in list && f in since && forall g :: g in list && g != f ==> g in since && since[f] < since[g]
    }

    constructor (numPages: nat)
      ensures Valid() && maxSize == numPages && list == []
    {
      maxSize, list, hash, clock, since := numPages, [], {}, 0, map[];
    }

    /** Takes the frame unpinned longest ago. */
    method Victim() returns (found: bool, f: int)
      requires Valid()
      modifies this
      ensures Valid() && found == (old(list) != [])
      ensures found ==> f == old(list)[0] && list == old(list)[1..]
      ensures found ==> old(Oldest(f))
      ensures !found ==> list == old(list)
      ensures since == old(since) && clock == old(clock)
    {
      if list == [] {
        return false, -1;
      }
      f := list[0];
      assert forall g :: g in list && g != f ==> since[f] < since[g];
      assert forall x :: x in list <==> x == f || x in list[1..];
      assert f !in list[1..];
      list := list[1..];
      hash := hash - {f};
      found := true;
    }

    method Pin(f: int)
      requires Valid()
      modifies this
      ensures Valid() && list == Drop(old(list), f) && since == old(since) && clock == old(clock)
    {
      DropDrops(list, f);
      if f !in hash {
        return;
      }
      DropKeepsOrder(list, f, since);
      list := Drop(list, f);
      hash := hash - {f};
    }

    /** Lists a frame, unless it is listed or the list is full. */
    method Unpin(f: int)
      requires Valid()
      modifies this
      ensures Valid()
      ensures list == if f in old(list) || |old(list)| >= maxSize then old(list) else old(list) + [f]
      ensures since == if list == old(list) then old(since) else old(since)[f := old(clock)]
      ensures clock == if list == old(list) then old(clock) else old(clock) + 1
    {
      if f in hash || |list| >= maxSize {
        return;
      }
      AppendKeepsOrder(list, f, since, clock);
      list := list + [f];
      hash := hash + {f};
      since := since[f := clock];
      clock := clock + 1;
    }
  }

  ghost predicate InOrder(list: seq<int>, since: map<int, nat>) {
    && (forall f :: f in list ==> f in since)
    && (forall i, j :: 0 <= i < j < |list| ==> since[list[i]] < since[list[j]])
  }

  lemma AppendKeepsOrder(list: seq<int>, f: int, since: map<int, nat>, clock: nat)
    requires NoRepeats(list) && InOrder(list, since) && f !in list && forall g :: g in list ==> since[g] < clock
    ensures NoRepeats(list + [f]) && InOrder(list + [f], since[f := clock])
  {
    forall i | 0 <= i < |list|
      ensures list[i] != f && since[list[i]] < clock
    {
      assert list[i] in list;
    }
  }

  lemma DropKeepsOrder(list: seq<int>, f: int, since: map<int, nat>)
    requires NoRepeats(list) && InOrder(list, since) && f in list
    ensures InOrder(Drop(list, f), since)
  {
    var k: nat :| k < |list| && list[k] == f;
    DropIsRemoval(list, f, k);
  }

  /** Only pages that the disk has given out are cached. */
  ghost predicate Allocated(table: map<PageId, int>, next: map<int, int>) {
    && (forall fd :: fd in next ==> 0 <= next[fd])
    && forall id :: id in table ==> id.fd in next && id.pageNo < next[id.fd]
  }

  /** The next page of a file is not cached, and may be once it has been given out. */
  lemma NextIsNew(table: map<PageId, int>, next: map<int, int>, fd: int)
    requires Allocated(table, next) && fd in next
    ensures PageId(fd, next[fd]) !in table && PageId(fd, next[fd]).pageNo != INVALID_PAGE
    ensures Allocated(table, next[fd := next[fd] + 1])
  {
  }

  lemma FewerAllocated(table: map<PageId, int>, table': map<PageId, int>, next: map<int, int>)
    requires Allocated(table, next) && table'.Keys <= table.Keys
    ensures Allocated(table', next)
  {
  }

  lemma StillAllocated(table: map<PageId, int>, table': map<PageId, int>, next: map<int, int>, id: PageId)
    requires Allocated(table, next) && id.fd in next && id.pageNo < next[id.fd]
    requires table'.Keys <= table.Keys + {id}
    ensures Allocated(table', next)
  {
  }

  /** The pages of a file among `ids` have their content on the disk. */
  ghost predicate OnDisk(p: Pool, zero: Data, disk: map<PageId, Data>, fd: int, ids: set<PageId>) {
    forall id <- ids :: id.fd == fd ==> id in disk && disk[id] == Content(p, zero, id)
  }

  /** The reported pages without those of a file that have been flushed. */
  ghost function Unreported(changed: set<PageId>, fd: int, todo: set<PageId>): set<PageId> {
    set id | id in changed && (id.fd != fd || id in todo)
  }

  lemma MoreOnDisk(p: Pool, zero: Data, disk: map<PageId, Data>, fd: int, ids: set<PageId>, id: PageId)
    requires OnDisk(p, zero, disk, fd, ids)
    ensures OnDisk(p, zero, disk[id := Content(p, zero, id)], fd, ids + {id})
  {
  }

  lemma OtherOnDisk(p: Pool, zero: Data, disk: map<PageId, Data>, fd: int, ids: set<PageId>, id: PageId)
    requires OnDisk(p, zero, disk, fd, ids) && id.fd != fd
    ensures OnDisk(p, zero, disk, fd, ids + {id})
  {
  }

  lemma NoneOnDisk(p: Pool, zero: Data, disk: map<PageId, Data>, fd: int)
    ensures OnDisk(p, zero, disk, fd, {})
  {
  }

  lemma AllOnDisk(p: Pool, zero: Data, disk: map<PageId, Data>, fd: int, ids: set<PageId>)
    requires OnDisk(p, zero, disk, fd, ids)
    ensures forall id <- ids :: id.fd == fd ==> id in disk && disk[id] == Content(p, zero, id)
  {
  }

  class BufferPoolManager {
    const zero: Data
    const frames: array<Frame>
    const replacer: LRUReplacer
    var table: map<PageId, int>
    var free: seq<int>
    var disk: map<PageId, Data>
    var next: map<int, int>
    /** Pages that a client has created or written, and not yet reported as dirty. */
    ghost var changed: set<PageId>

    function View(): Pool
      reads this, frames, replacer
    {
      Pool(frames[..], table, free, replacer.list, disk, next)
    }

    ghost predicate Sound()
      reads this, frames, replacer
    {
      && replacer.Valid() && replacer.maxSize == frames.Length
      && Allocated(table, next)
    }

    ghost predicate Valid()
      reads this, frames, replacer
    {
      Sound() && Conserved(View()) && Coherent(View(), zero, changed)
    }

    /** Every frame is pinned. */
    ghost predicate AllPinned()
      reads this, frames, replacer
    {
      forall f :: 0 <= f < frames.Length ==> Mapped(View(), f) && frames[f].pin > 0
    }

    constructor (poolSize: nat, zero: Data, disk: map<PageId, Data>, next: map<int, int>)
      requires forall fd :: fd in next ==> 0 <= next[fd]
      ensures Valid() && changed == {} && table == map[] && this.disk == disk && this.next == next
      ensures Idle(View()) == []
      ensures fresh(frames) && fresh(replacer)
      ensures frames.Length == poolSize && this.zero == zero
    {
      this.zero, this.disk, this.next := zero, disk, next;
      frames := new Frame[poolSize](_ => Frame(PageId(0, INVALID_PAGE), zero, false, 0));
      replacer := new LRUReplacer(poolSize);
      table, changed := map[], {};
      free := seq(poolSize, i => i);
      new;
      forall f | 0 <= f < poolSize
        ensures FrameOk(View(), f)
      {
        assert free[f] == f;
      }
    }

    lemma AllPinnedMeansNone()
      requires Valid()
      ensures AllPinned() <==> free == [] && replacer.list == []
    {
      NoVictimMeansAllPinned(View());
    }

    /** A frame for a page that is not cached: a free one, and only when there is none the one unpinned
        longest ago. */
    method FindVictimPage() returns (found: bool, f: int)
      requires replacer.Valid()
      modifies this`free, replacer
      ensures replacer.Valid()
      ensures found == (old(free) != [] || old(replacer.list) != [])
      ensures old(free) != [] ==> f in old(free) && replacer.list == old(replacer.list)
      ensures found && old(free) == [] ==> old(replacer.Oldest(f))
      ensures found ==> f == Victim(old(View())) && View() == WithoutVictim(old(View()))
      ensures !found ==> View() == old(View())
    {
      if free != [] {
        f := free[0];
        free := free[1..];
        return true, f;
      }
      found, f := replacer.Victim();
    }

    /** Writes the frame's page back if it is dirty, and empties the frame for another page. */
    method UpdatePage(f: int, id: PageId)
      requires 0 <= f < frames.Length
      modifies this`disk, this`table, frames
      ensures View() == old(View()).(disk := WrittenBack(old(View()), f),
                table := if id.pageNo != INVALID_PAGE then Forgotten(old(View()), f)[id := f]
                         else Forgotten(old(View()), f),
                frames := old(View()).frames[f := Frame(id, zero, false, 0)])
    {
      var page := frames[f];
      if page.id.pageNo != INVALID_PAGE {
        if page.dirty {
          disk := disk[page.id := page.data];
        }
        table := table - {page.id};
      }
      frames[f] := Frame(id, zero, false, 0);
      if id.pageNo != INVALID_PAGE {
        table := table[id := f];
      }
    }

    /** Puts a page into a frame, pinned once. */
    method InstallPage(f: int, id: PageId, data: Data)
      requires 0 <= f < frames.Length && id.pageNo != INVALID_PAGE
      modifies this`disk, this`table, frames
      ensures View() == old(View()).(disk := WrittenBack(old(View()), f), table := Forgotten(old(View()), f)[id := f],
                                     frames := old(View()).frames[f := Frame(id, data, false, 1)])
    {
      UpdatePage(f, id);
      frames[f] := Frame(id, data, false, 1);
    }

    /** Pins a page that is cached. */
    method PinCached(id: PageId) returns (f: int)
      requires Valid() && id in table
      modifies frames, replacer
      ensures Valid() && SameContent(old(View()), View(), zero)
      ensures f == table[id] && 0 <= f < frames.Length && View() == Repinned(old(View()), f)
      ensures PinsMove(old(View()), View(), id, 1) && Idle(View()) == Drop(Idle(old(View())), id)
    {
      ghost var p := View();
      f := table[id];
      PinStep(p, zero, changed, f);
      IdleWithout(p, Repinned(p, f), f);
      RetouchedPins(p, Repinned(p, f), f);
      hide Conserved, Coherent, PinsMove, Idle;
      frames[f] := frames[f].(pin := frames[f].pin + 1);
      replacer.Pin(f);
      assert View() == Repinned(p, f);
    }

    /** Reads a page of the disk into the frame that has just been found for it. */
    method PlaceOldPage(f: int, id: PageId, ghost p: Pool)
      requires Sound() && View() == WithoutVictim(p) && f == Victim(p) && Conserved(p) && Coherent(p, zero, changed)
      requires (p.free != [] || p.lru != []) && id !in p.table
      requires id.pageNo != INVALID_PAGE && id.fd in next && id.pageNo < next[id.fd]
      modifies this`disk, this`table, frames
      ensures Valid() && SameContent(p, View(), zero) && PinsMove(p, View(), id, 1) && Admits(p, View(), id)
      ensures 0 <= f < frames.Length && id in table && table[id] == f && frames[f].pin == 1
    {
      hide LRUReplacer.Valid, Conserved, Coherent, SameContent, Allocated, PinsMove, Admits;
      FetchStep(p, zero, changed, id);
      TakenPins(p, id, Content(p, zero, id));
      TakenAdmits(p, id, Content(p, zero, id));
      UpdatePage(f, id);
      var data := if id in disk then disk[id] else zero;
      assert disk == WrittenBack(p, f) && data == Content(p, zero, id);
      frames[f] := Frame(id, data, false, 1);
      TakenByHand(p, View(), f, id, data);
      StillAllocated(p.table, table, next, id);
    }

    /** Brings a page in, over the frame unpinned longest ago when no frame is free. */
    method BringIn(id: PageId) returns (r: Option<int>)
      requires Valid() && id !in table && id.pageNo != INVALID_PAGE && id.fd in next && id.pageNo < next[id.fd]
      modifies this`free, this`disk, this`table, frames, replacer
      ensures Valid() && SameContent(old(View()), View(), zero)
      ensures r.None? <==> old(free) == [] && old(replacer.list) == []
      ensures r.None? ==> View() == old(View())
      ensures r.Some? ==>
        && 0 <= r.value < frames.Length && id in table && table[id] == r.value && frames[r.value].pin == 1
        && PinsMove(old(View()), View(), id, 1) && Admits(old(View()), View(), id)
      ensures r.Some? && !HasRoom(old(View())) ==> old(replacer.Oldest(r.value))
    {
      RoomIsFree(View());
      hide LRUReplacer.Valid, LRUReplacer.Oldest, Conserved, Coherent, SameContent, Allocated, PinsMove, Admits;
      hide HasRoom, Victim, WithoutVictim;
      ghost var p := View();
      SameIsSame(p, zero);
      var found, f := FindVictimPage();
      if !found {
        return None;
      }
      PlaceOldPage(f, id, p);
      r := Some(f);
    }

    /** Pins a page, bringing it in if it is not cached. Fails only when it is not cached and every
        frame is pinned. */
    method FetchPage(id: PageId) returns (r: Option<int>)
      requires Valid() && id.pageNo != INVALID_PAGE && id.fd in next && id.pageNo < next[id.fd]
      modifies this`free, this`disk, this`table, frames, replacer
      ensures Valid() && SameContent(old(View()), View(), zero)
      ensures r.None? <==> id !in old(table) && old(AllPinned())
      ensures r.None? ==> View() == old(View())
      ensures r.Some? ==> id in table && table[id] == r.value && 0 <= r.value < frames.Length
      ensures r.Some? && id !in old(table) ==> Admits(old(View()), View(), id) && frames[r.value].pin == 1
      ensures r.Some? && id !in old(table) && !HasRoom(old(View())) ==> old(replacer.Oldest(r.value))
      ensures r.Some? && id in old(table) ==>
        View() == Repinned(old(View()), r.value) && Idle(View()) == Drop(Idle(old(View())), id)
      ensures r.Some? ==> PinsMove(old(View()), View(), id, 1)
    {
      AllPinnedMeansNone();
      hide AllPinned, Coherent, SameContent, Conserved, PinsMove, Admits, HasRoom, LRUReplacer.Oldest;
      if id in table {
        var f := PinCached(id);
        return Some(f);
      }
      r := BringIn(id);
    }

    /** One pin less; a frame without pins may be replaced. */
    method GiveBack(f: int, isDirty: bool)
      requires replacer.Valid() && 0 <= f < frames.Length && f !in replacer.list
      requires |replacer.list| < replacer.maxSize
      modifies frames, replacer
      ensures replacer.Valid() && View() == Unpinned(old(View()), f, isDirty)
    {
      hide LRUReplacer.Valid;
      frames[f] := frames[f].(dirty := frames[f].dirty || isDirty, pin := frames[f].pin - 1);
      if frames[f].pin == 0 {
        replacer.Unpin(f);
      }
    }

    /** Gives a page back. The client must say so when it has changed the page, at its last pin at
        the latest. */
    method UnpinPage(id: PageId, isDirty: bool) returns (ok: bool)
      requires Valid()
      requires id in changed && id in table && 0 <= table[id] < frames.Length && frames[table[id]].pin == 1 ==> isDirty
      modifies this`changed, frames, replacer
      ensures Valid() && SameContent(old(View()), View(), zero)
      ensures ok <==> id in table && 0 <= table[id] < frames.Length && old(frames[table[id]].pin) > 0
      ensures ok ==> View() == Unpinned(old(View()), table[id], isDirty)
      ensures ok ==> changed == if isDirty then old(changed) - {id} else old(changed)
      ensures ok ==> PinsMove(old(View()), View(), id, -1)
      ensures ok ==>
        Idle(View()) == if old(PinOf(View(), id)) == 1 then Idle(old(View())) + [id] else Idle(old(View()))
      ensures !ok ==> View() == old(View()) && changed == old(changed)
    {
      ghost var p := View();
      SameIsSame(p, zero);
      if id !in table {
        return false;
      }
      var f := table[id];
      if frames[f].pin <= 0 {
        return false;
      }
      UnpinStep(p, zero, changed, f, isDirty);
      IdleUnpinned(p, f, isDirty);
      RetouchedPins(p, Unpinned(p, f, isDirty), f);
      assert PinOf(p, id) == p.frames[f].pin;
      hide Conserved, Coherent, SameContent, PinsMove, Idle, PinOf, LRUReplacer.Valid, Allocated, Unpinned;
      GiveBack(f, isDirty);
      changed := if isDirty then changed - {id} else changed;
      ok := true;
    }

    /** Copies a page to the disk, whoever is using it. */
    method FlushPage(id: PageId) returns (ok: bool)
      requires Valid()
      modifies this`disk, this`changed, frames
      ensures Valid() && SameContent(old(View()), View(), zero)
      ensures ok <==> id in table
      ensures ok ==> disk == old(disk)[id := Content(old(View()), zero, id)] && changed == old(changed) - {id}
      ensures PinsMove(old(View()), View(), id, 0) && Idle(View()) == Idle(old(View()))
      ensures !ok ==> View() == old(View()) && changed == old(changed)
    {
      ghost var p := View();
      SameIsSame(p, zero);
      if id !in table {
        return false;
      }
      var f := table[id];
      IdleKept(p, Flushed(p, f));
      FlushStep(p, zero, changed, f);
      RetouchedPins(p, Flushed(p, f), f);
      hide Conserved, Coherent, SameContent, PinsMove, Idle;
      disk := disk[id := frames[f].data];
      frames[f] := frames[f].(dirty := false);
      changed := changed - {id};
      assert View() == Flushed(p, f);
      ok := true;
    }

    /** Gives the next page of a file the frame that has just been found for it. */
    method PlaceNewPage(f: int, fd: int, ghost p: Pool) returns (id: PageId)
      requires Sound() && fd in next && View() == WithoutVictim(p) && f == Victim(p) && (p.free != [] || p.lru != [])
      requires Conserved(p) && Coherent(p, zero, changed)
      modifies this`disk, this`table, this`next, this`changed, frames
      ensures Valid() && id == PageId(fd, old(next)[fd]) && id !in p.table && id in table
      ensures changed == old(changed) + {id} && Changes(p, View(), zero, id, zero) && PinsMove(p, View(), id, 1)
      ensures Admits(p, View(), id) && table[id] == f
      ensures next == old(next)[fd := old(next)[fd] + 1]
    {
      hide LRUReplacer.Valid, Conserved, Coherent, Allocated, Changes, Taken, WrittenBack, Forgotten, Victim, PinsMove;
      hide Admits;
      id := PageId(fd, next[fd]);
      NextIsNew(table, next, fd);
      CreateStep(p, zero, changed, id);
      TakenPins(p, id, zero);
      TakenAdmits(p, id, zero);
      InstallPage(f, id, zero);
      TakenByHand(p, View(), f, id, zero);
      next := next[fd := next[fd] + 1];
      changed := changed + {id};
      CreatedByHand(p, View(), f, id, zero, changed);
      StillAllocated(p.table, table, next, id);
    }

    /** Creates the next page of a file, empty, and pins it. Fails only when every frame is pinned. */
    method NewPage(fd: int) returns (r: Option<PageId>)
      requires Valid() && fd in next
      modifies this, frames, replacer
      ensures Valid()
      ensures r.None? <==> old(AllPinned())
      ensures r.None? ==> View() == old(View()) && changed == old(changed)
      ensures r.Some? ==>
        && r.value == PageId(fd, old(next)[fd]) && r.value !in old(table) && r.value in table
        && changed == old(changed) + {r.value} && Changes(old(View()), View(), zero, r.value, zero)
        && PinsMove(old(View()), View(), r.value, 1) && next == old(next)[fd := old(next)[fd] + 1]
        && Admits(old(View()), View(), r.value)
        && (!HasRoom(old(View())) ==> var f := table[r.value]; old(replacer.Oldest(f)))
    {
      AllPinnedMeansNone();
      RoomIsFree(View());
      hide AllPinned, LRUReplacer.Valid, Conserved, Coherent, Allocated, Changes, PinsMove, Admits, HasRoom;
      hide LRUReplacer.Oldest, Victim, WithoutVictim;
      ghost var p := View();
      var found, f := FindVictimPage();
      if !found {
        return None;
      }
      var id := PlaceNewPage(f, fd, p);
      r := Some(id);
    }

    /** Drops a page nobody has pinned from the pool, writing it back first if it is dirty. */
    method DeletePage(id: PageId) returns (ok: bool)
      requires Valid()
      modifies this`disk, this`table, this`free, frames, replacer
      ensures Valid() && SameContent(old(View()), View(), zero)
      ensures ok <==> id !in old(table) || (0 <= old(table)[id] < frames.Length && old(frames[table[id]].pin) == 0)
      ensures ok ==> id !in table && Idle(View()) == Drop(Idle(old(View())), id)
      ensures PinsMove(old(View()), View(), id, 0)
      ensures !ok ==> View() == old(View())
    {
      ghost var p := View();
      SameIsSame(p, zero);
      CachedIsHeldOrIdle(p, id);
      if id !in table {
        DropDrops(Idle(p), id);
        return true;
      }
      var f := table[id];
      if frames[f].pin != 0 {
        assert FrameOk(p, f);
        return false;
      }
      ReleasePage(f);
      ok := true;
    }

    /** Empties an unpinned frame and adds it to the free ones. */
    method ReleasePage(f: int)
      requires Valid() && 0 <= f < frames.Length && Mapped(View(), f) && frames[f].pin == 0
      modifies this`disk, this`table, this`free, frames, replacer
      ensures Valid() && SameContent(old(View()), View(), zero)
      ensures table == old(table) - {old(frames[f].id)} && PinsMove(old(View()), View(), old(frames[f].id), 0)
      ensures Idle(View()) == Drop(Idle(old(View())), old(frames[f].id))
    {
      hide Conserved, Coherent, SameContent, LRUReplacer.Valid, Allocated, PinsMove, Idle;
      ghost var p := View();
      ReleasedPins(p, f, zero, frames[f].id);
      IdleWithout(p, Released(p, f, zero), f);
      ReleasedConserved(p, f, zero);
      ReleasedContent(p, f, zero, changed);
      replacer.Pin(f);
      UpdatePage(f, PageId(frames[f].id.fd, INVALID_PAGE));
      free := free + [f];
      assert View() == Released(p, f, zero);
      FewerAllocated(p.table, table, next);
    }

    /** Flushes a cached page if it belongs to the file. */
    method FlushOne(id: PageId, fd: int, ghost start: Pool, ghost done: set<PageId>)
      requires Valid() && id in table && SameContent(start, View(), zero) && OnDisk(start, zero, disk, fd, done)
      modifies this`disk, this`changed, frames
      ensures Valid() && SameContent(start, View(), zero) && OnDisk(start, zero, disk, fd, done + {id})
      ensures changed == if id.fd == fd then old(changed) - {id} else old(changed)
      ensures PinsMove(old(View()), View(), id, 0) && Idle(View()) == Idle(old(View()))
    {
      hide Valid, SameContent, Content, OnDisk, Idle;
      CachedIsValid(id);
      if id.fd == fd && id.pageNo != INVALID_PAGE {
        ghost var p := View();
        SameIsEqual(start, p, zero);
        MoreOnDisk(start, zero, disk, fd, done, id);
        var _ := FlushPage(id);
        SameChains(start, p, View(), zero);
      } else {
        OtherOnDisk(start, zero, disk, fd, done, id);
      }
    }

    /** Copies every cached page of a file to the disk; nothing of it is left to report. */
    method FlushAllPages(fd: int)
      requires Valid()
      modifies this`disk, this`changed, frames
      ensures Valid() && SameContent(old(View()), View(), zero)
      ensures forall id :: id in table && id.fd == fd ==> id in disk && disk[id] == Content(View(), zero, id)
      ensures changed == set id | id in old(changed) && id.fd != fd
      ensures forall id :: PinOf(View(), id) == old(PinOf(View(), id))
      ensures Idle(View()) == Idle(old(View()))
    {
      hide Valid, SameContent, Content, OnDisk, PinOf, Idle;
      ChangedIsCached();
      ghost var start, was := View(), changed;
      SameIsSame(start, zero);
      var todo := table.Keys;
      NoneOnDisk(start, zero, disk, fd);
      assert table.Keys - todo == {};
      while todo != {}
        invariant Valid() && SameContent(start, View(), zero) && todo <= table.Keys
        invariant forall id :: PinOf(View(), id) == PinOf(start, id)
        invariant Idle(View()) == Idle(start)
        invariant OnDisk(start, zero, disk, fd, table.Keys - todo)
        invariant changed == Unreported(was, fd, todo)
        decreases todo
      {
        var id :| id in todo;
        FlushOne(id, fd, start, table.Keys - todo);
        assert table.Keys - (todo - {id}) == table.Keys - todo + {id};
        todo := todo - {id};
      }
      SameIsEqual(start, View(), zero);
      assert table.Keys - todo == table.Keys;
      AllOnDisk(start, zero, disk, fd, table.Keys);
    }

    lemma ChangedIsCached()
      requires Valid()
      ensures changed <= table.Keys
    {
    }

    lemma CachedIsValid(id: PageId)
      requires Valid() && id in table
      ensures id.pageNo != INVALID_PAGE
    {
    }

    /** A client writes to a page it has pinned. */
    method WritePage(id: PageId, data: Data)
      requires Valid() && id in table && 0 <= table[id] < frames.Length && frames[table[id]].pin > 0
      modifies this`changed, frames
      ensures Valid() && changed == old(changed) + {id}
      ensures Changes(old(View()), View(), zero, id, data) && PinsMove(old(View()), View(), id, 0)
      ensures Idle(View()) == Idle(old(View()))
    {
      ghost var p := View();
      var f := table[id];
      WriteStep(p, zero, changed, f, data);
      IdleKept(p, Written(p, f, data));
      RetouchedPins(p, Written(p, f, data), f);
      hide Conserved, Coherent, Changes, PinsMove, Idle;
      frames[f] := frames[f].(data := data);
      changed := changed + {id};
      assert View() == Written(p, f, data);
    }

    /** A client reads a page it has pinned. */
    method ReadPage(id: PageId) returns (data: Data)
      requires Valid() && id in table && 0 <= table[id] < frames.Length && frames[table[id]].pin > 0
      ensures data == Content(View(), zero, id)
    {
      data := frames[table[id]].data;
    }
  }
}
