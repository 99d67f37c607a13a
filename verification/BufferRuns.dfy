/**
 Every run of a client that reports its changes: the pool answers as a plain store would that keeps
 every page in memory, allows as many different pages to be pinned at a time as there are frames, and
 remembers the order in which the unpinned pages were given back. The store also knows which pages are
 cached: a page that comes in replaces the one given back longest ago, and only when as many pages are
 cached as there are frames. Which page is in which frame, and what has been written back, shows nowhere.
 */
module BufferRuns {
  import opened BufferPool
  import opened BufferManager

  datatype Op = Fetch(id: PageId) | Unpin(id: PageId, isDirty: bool) | Read(id: PageId)
    | Write(id: PageId, data: Data) | Flush(id: PageId) | FlushAll(fd: int) | New(fd: int) | Delete(id: PageId)

  /** `Refused`: not an operation the client may ask for now. `Flushed` tells whether the page was cached. */
  datatype Answer = Refused | Failed | Done | Made(id: PageId) | Saw(data: Data) | Flushed(done: bool)

  /** The plain store: what was written, how often each page is pinned, which changes have not been
      reported, the next page number of each file, and the cached pages that nobody has pinned, in the order
      in which they were given back. */
  datatype Store = Store(written: map<PageId, Data>, held: multiset<PageId>, unreported: set<PageId>,
                         next: map<int, int>, idle: seq<PageId>)

  function PageIn(s: Store, disk: map<PageId, Data>, zero: Data, id: PageId): Data {
    if id in s.written then s.written[id] else if id in disk then disk[id] else zero
  }

  ghost function Held(s: Store): set<PageId> {
    set id | id in s.held
  }

  ghost predicate Cached(s: Store, id: PageId) {
    id in s.held || id in s.idle
  }

  /** The pages that still wait when page `id` is pinned once more: a page that is not cached takes the place of
      the one given back longest ago, unless fewer pages are cached than fit. */
  ghost function StillIdle(s: Store, size: nat, id: PageId): seq<PageId> {
    if Cached(s, id) then Drop(s.idle, id)
    else if |Held(s)| + |s.idle| < size || s.idle == [] then s.idle
    else s.idle[1..]
  }

  /** What the plain store answers. Clients may use pages that have been given out, and pages they have pinned;
      the last to give a page back must have reported its changes. */
  ghost function AnswerOf(s: Store, size: nat, disk: map<PageId, Data>, zero: Data, op: Op): Answer {
    match op
    case Fetch(id) =>
      if id.pageNo == INVALID_PAGE || id.fd !in s.next || id.pageNo >= s.next[id.fd] then Refused
      else if id in s.held || |Held(s)| < size then Done else Failed
    case Unpin(id, isDirty) =>
      if id in s.unreported && !isDirty && s.held[id] == 1 then Refused else if id in s.held then Done else Failed
    case Read(id) => if id in s.held then Saw(PageIn(s, disk, zero, id)) else Refused
    case Write(id, _) => if id in s.held then Done else Refused
    case Flush(id) => Flushed(Cached(s, id))
    case FlushAll(_) => Done
    case New(fd) => if fd !in s.next then Refused else if |Held(s)| < size then Made(PageId(fd, s.next[fd])) else Failed
    case Delete(id) => if id in s.held then Failed else Done
  }

  /** What the plain store becomes. */
  ghost function After(s: Store, size: nat, disk: map<PageId, Data>, zero: Data, op: Op): Store {
    var a := AnswerOf(s, size, disk, zero, op);
    match op
    case Fetch(id) =>
      if a.Done? then s.(held := s.held + multiset{id}, idle := StillIdle(s, size, id)) else s
    case Unpin(id, isDirty) =>
      if !a.Done? then s
      else s.(held := s.held - multiset{id}, unreported := if isDirty then s.unreported - {id} else s.unreported,
              idle := if s.held[id] == 1 then s.idle + [id] else s.idle)
    case Read(_) => s
    case Write(id, data) =>
      if a.Done? then s.(written := s.written[id := data], unreported := s.unreported + {id}) else s
    case Flush(id) => s.(unreported := s.unreported - {id})
    case FlushAll(fd) => s.(unreported := set id | id in s.unreported && id.fd != fd)
    case New(fd) =>
      if !a.Made? then s
      else s.(written := s.written[a.id := zero], held := s.held + multiset{a.id},
              unreported := s.unreported + {a.id}, next := s.next[fd := s.next[fd] + 1],
              idle := StillIdle(s, size, a.id))
    case Delete(id) => if a.Done? then s.(idle := Drop(s.idle, id)) else s
  }

  ghost function AfterAll(s: Store, size: nat, disk: map<PageId, Data>, zero: Data, ops: seq<Op>): Store {
    if ops == [] then s
    else After(AfterAll(s, size, disk, zero, ops[..|ops| - 1]), size, disk, zero, ops[|ops| - 1])
  }

  // ---------------------------------------------------------------- the pool and the store

  /** The pool shows every page as the store has it, and pins as the store does. */
  ghost predicate Shows(p: Pool, s: Store, disk: map<PageId, Data>, zero: Data) {
    && (forall id :: Content(p, zero, id) == PageIn(s, disk, zero, id))
    && (forall id :: PinOf(p, id) == s.held[id])
  }

  lemma ShowsPins(p: Pool, q: Pool, s: Store, disk: map<PageId, Data>, zero: Data, id: PageId, times: int, t: Store)
    requires Shows(p, s, disk, zero) && SameContent(p, q, zero) && PinsMove(p, q, id, times)
    requires t.written == s.written && t.held[id] == s.held[id] + times
    requires forall x :: x != id ==> t.held[x] == s.held[x]
    ensures Shows(q, t, disk, zero)
  {
  }

  lemma ShowsChange(p: Pool, q: Pool, s: Store, disk: map<PageId, Data>, zero: Data, id: PageId, data: Data,
                    times: int, t: Store)
    requires Shows(p, s, disk, zero) && Changes(p, q, zero, id, data) && PinsMove(p, q, id, times)
    requires t.written == s.written[id := data] && t.held[id] == s.held[id] + times
    requires forall x :: x != id ==> t.held[x] == s.held[x]
    ensures Shows(q, t, disk, zero)
  {
  }

  /** Full of pins, for the pool and for the store. */
  lemma SameRoom(p: Pool, s: Store, disk: map<PageId, Data>, zero: Data)
    requires Conserved(p) && Shows(p, s, disk, zero)
    ensures (forall f :: 0 <= f < |p.frames| ==> Mapped(p, f) && p.frames[f].pin > 0) <==> |Held(s)| >= |p.frames|
  {
    FullOfPins(p, Held(s));
  }

  ghost predicate Refines(pool: BufferPoolManager, s: Store, size: nat, disk: map<PageId, Data>, zero: Data)
    reads pool, pool.frames, pool.replacer
  {
    && pool.Valid() && pool.zero == zero && pool.frames.Length == size
    && pool.changed == s.unreported && pool.next == s.next && Shows(pool.View(), s, disk, zero)
    && Idle(pool.View()) == s.idle
  }

  /** A page is pinned in the pool as often as in the store. */
  lemma PinnedAsHeld(pool: BufferPoolManager, s: Store, size: nat, disk: map<PageId, Data>, zero: Data, id: PageId)
    requires Refines(pool, s, size, disk, zero)
    ensures PinOf(pool.View(), id) == s.held[id] && Content(pool.View(), zero, id) == PageIn(s, disk, zero, id)
    ensures id in pool.table ==>
      0 <= pool.table[id] < pool.frames.Length && pool.frames[pool.table[id]].pin == s.held[id]
    ensures id !in pool.table ==> s.held[id] == 0 && id !in s.unreported
    ensures pool.AllPinned() <==> |Held(s)| >= size
    ensures id in pool.table && s.held[id] == 0 ==> |Held(s)| < size
    ensures id in pool.table <==> Cached(s, id)
    ensures HasRoom(pool.View()) <==> |Held(s)| + |s.idle| < size
    ensures NoRepeats(s.idle)
  {
    SameRoom(pool.View(), s, disk, zero);
    RoomForOne(pool.View(), Held(s));
    CachedIsHeldOrIdle(pool.View(), id);
  }

  /** The pages that wait after a page has come in are those of the store. */
  lemma AdmittedAsStore(p: Pool, q: Pool, s: Store, size: nat, id: PageId)
    requires !Cached(s, id) && Idle(p) == s.idle && Admits(p, q, id)
    requires HasRoom(p) <==> |Held(s)| + |s.idle| < size
    ensures Idle(q) == StillIdle(s, size, id)
  {
    hide Idle, HasRoom;
  }

  method PerformFetch(pool: BufferPoolManager, id: PageId, ghost s: Store, ghost size: nat,
                      ghost disk: map<PageId, Data>, ghost zero: Data)
      returns (a: Answer)
    requires Refines(pool, s, size, disk, zero)
    modifies pool, pool.frames, pool.replacer
    ensures a == AnswerOf(s, size, disk, zero, Fetch(id))
    ensures Refines(pool, After(s, size, disk, zero, Fetch(id)), size, disk, zero)
  {
    hide BufferPoolManager.Valid, BufferPoolManager.AllPinned, Shows, SameContent, PinsMove, Content, PinOf;
    hide Idle, Admits, HasRoom;
    PinnedAsHeld(pool, s, size, disk, zero, id);
    if !(id.pageNo != INVALID_PAGE && id.fd in pool.next && id.pageNo < pool.next[id.fd]) {
      return Refused;
    }
    ghost var p := pool.View();
    var r := pool.FetchPage(id);
    if r.None? {
      return Failed;
    }
    if !Cached(s, id) {
      AdmittedAsStore(p, pool.View(), s, size, id);
    }
    ShowsPins(p, pool.View(), s, disk, zero, id, 1, After(s, size, disk, zero, Fetch(id)));
    a := Done;
  }

  method PerformUnpin(pool: BufferPoolManager, id: PageId, isDirty: bool, unreported: set<PageId>,
                      ghost s: Store, ghost size: nat, ghost disk: map<PageId, Data>, ghost zero: Data)
      returns (a: Answer)
    requires Refines(pool, s, size, disk, zero) && unreported == pool.changed
    modifies pool, pool.frames, pool.replacer
    ensures a == AnswerOf(s, size, disk, zero, Unpin(id, isDirty))
    ensures Refines(pool, After(s, size, disk, zero, Unpin(id, isDirty)), size, disk, zero)
  {
    hide BufferPoolManager.Valid, BufferPoolManager.AllPinned, Shows, SameContent, PinsMove, Content, PinOf;
    hide Idle, Admits, HasRoom;
    PinnedAsHeld(pool, s, size, disk, zero, id);
    if id in unreported && !isDirty && PinOf(pool.View(), id) == 1 {
      return Refused;
    }
    ghost var p := pool.View();
    var ok := pool.UnpinPage(id, isDirty);
    if !ok {
      return Failed;
    }
    ShowsPins(p, pool.View(), s, disk, zero, id, -1, After(s, size, disk, zero, Unpin(id, isDirty)));
    a := Done;
  }

  method PerformNew(pool: BufferPoolManager, fd: int, ghost s: Store, ghost size: nat, ghost disk: map<PageId, Data>,
                    ghost zero: Data)
      returns (a: Answer)
    requires Refines(pool, s, size, disk, zero)
    modifies pool, pool.frames, pool.replacer
    ensures a == AnswerOf(s, size, disk, zero, New(fd))
    ensures Refines(pool, After(s, size, disk, zero, New(fd)), size, disk, zero)
  {
    hide BufferPoolManager.Valid, BufferPoolManager.AllPinned, Shows, SameContent, Changes, PinsMove, Content, PinOf;
    hide Idle, Admits, HasRoom;
    if fd !in pool.next {
      return Refused;
    }
    ghost var p, id := pool.View(), PageId(fd, pool.next[fd]);
    PinnedAsHeld(pool, s, size, disk, zero, id);
    var r := pool.NewPage(fd);
    if r.None? {
      return Failed;
    }
    AdmittedAsStore(p, pool.View(), s, size, id);
    ShowsChange(p, pool.View(), s, disk, zero, id, zero, 1, After(s, size, disk, zero, New(fd)));
    a := Made(r.value);
  }

  method PerformUse(pool: BufferPoolManager, id: PageId, data: Data, writes: bool,
                    ghost s: Store, ghost size: nat, ghost disk: map<PageId, Data>, ghost zero: Data)
      returns (a: Answer)
    requires Refines(pool, s, size, disk, zero)
    modifies pool, pool.frames
    ensures var op := if writes then Write(id, data) else Read(id);
            a == AnswerOf(s, size, disk, zero, op) && Refines(pool, After(s, size, disk, zero, op), size, disk, zero)
  {
    hide BufferPoolManager.Valid, BufferPoolManager.AllPinned, Shows, SameContent, Changes, PinsMove, Content;
    hide Idle, HasRoom;
    PinnedAsHeld(pool, s, size, disk, zero, id);
    if PinOf(pool.View(), id) <= 0 {
      return Refused;
    }
    if !writes {
      var seen := pool.ReadPage(id);
      return Saw(seen);
    }
    ghost var p := pool.View();
    pool.WritePage(id, data);
    ShowsChange(p, pool.View(), s, disk, zero, id, data, 0, After(s, size, disk, zero, Write(id, data)));
    a := Done;
  }

  /** Operations that move pages between frames and disk. */
  method PerformMove(pool: BufferPoolManager, op: Op, ghost s: Store, ghost size: nat, ghost disk: map<PageId, Data>,
                     ghost zero: Data)
      returns (a: Answer)
    requires Refines(pool, s, size, disk, zero) && (op.Flush? || op.FlushAll? || op.Delete?)
    modifies pool, pool.frames, pool.replacer
    ensures a == AnswerOf(s, size, disk, zero, op) && Refines(pool, After(s, size, disk, zero, op), size, disk, zero)
  {
    hide BufferPoolManager.Valid, BufferPoolManager.AllPinned, Shows, SameContent, Content, PinOf, Idle, HasRoom;
    ghost var p, t := pool.View(), After(s, size, disk, zero, op);
    a := Done;
    match op {
      case Flush(id) =>
        PinnedAsHeld(pool, s, size, disk, zero, id);
        var ok := pool.FlushPage(id);
        ShowsPins(p, pool.View(), s, disk, zero, id, 0, t);
        a := Flushed(ok);
      case FlushAll(fd) =>
        pool.FlushAllPages(fd);
        ShowsPins(p, pool.View(), s, disk, zero, PageId(fd, 0), 0, t);
      case Delete(id) =>
        PinnedAsHeld(pool, s, size, disk, zero, id);
        var ok := pool.DeletePage(id);
        ShowsPins(p, pool.View(), s, disk, zero, id, 0, t);
        a := if ok then Done else Failed;
    }
  }

  /** One operation of the client. */
  method Perform(pool: BufferPoolManager, op: Op, unreported: set<PageId>,
                 ghost s: Store, ghost size: nat, ghost disk: map<PageId, Data>, ghost zero: Data)
      returns (a: Answer, unreported': set<PageId>)
    requires Refines(pool, s, size, disk, zero) && unreported == pool.changed
    modifies pool, pool.frames, pool.replacer
    ensures a == AnswerOf(s, size, disk, zero, op) && Refines(pool, After(s, size, disk, zero, op), size, disk, zero)
    ensures unreported' == pool.changed
  {
    hide BufferPoolManager.Valid, Shows, Idle, StillIdle;
    unreported' := unreported;
    match op {
      case Fetch(id) => a := PerformFetch(pool, id, s, size, disk, zero);
      case Unpin(id, isDirty) =>
        a := PerformUnpin(pool, id, isDirty, unreported, s, size, disk, zero);
        unreported' := if a.Done? && isDirty then unreported - {id} else unreported;
      case Read(id) => a := PerformUse(pool, id, [], false, s, size, disk, zero);
      case Write(id, data) =>
        a := PerformUse(pool, id, data, true, s, size, disk, zero);
        unreported' := if a.Done? then unreported + {id} else unreported;
      case New(fd) =>
        a := PerformNew(pool, fd, s, size, disk, zero);
        unreported' := if a.Made? then unreported + {a.id} else unreported;
      case Flush(id) =>
        a := PerformMove(pool, op, s, size, disk, zero);
        unreported' := unreported - {id};
      case FlushAll(fd) =>
        a := PerformMove(pool, op, s, size, disk, zero);
        unreported' := set id | id in unreported && id.fd != fd;
      case Delete(_) => a := PerformMove(pool, op, s, size, disk, zero);
    }
  }

  lemma StartRefines(pool: BufferPoolManager, size: nat, disk: map<PageId, Data>, zero: Data)
    requires pool.Valid() && pool.zero == zero && pool.frames.Length == size && Idle(pool.View()) == []
    requires pool.table == map[] && pool.changed == {} && pool.disk == disk
    ensures Refines(pool, Store(map[], multiset{}, {}, pool.next, []), size, disk, zero)
  {
  }

  /** Over every run from an empty pool, the pool answers as the plain store does. */
  method Run(size: nat, zero: Data, disk: map<PageId, Data>, next: map<int, int>, ops: seq<Op>)
    returns (answers: seq<Answer>)
    requires forall fd :: fd in next ==> 0 <= next[fd]
    ensures |answers| == |ops|
    ensures
      var s := Store(map[], multiset{}, {}, next, []);
      forall i :: 0 <= i < |ops| ==>
        answers[i] == AnswerOf(AfterAll(s, size, disk, zero, ops[..i]), size, disk, zero, ops[i])
  {
    hide BufferPoolManager.Valid, After, AnswerOf, Refines, Idle;
    var pool := new BufferPoolManager(size, zero, disk, next);
    StartRefines(pool, size, disk, zero);
    ghost var start := Store(map[], multiset{}, {}, next, []);
    var unreported := {};
    answers := [];
    for i := 0 to |ops|
      invariant fresh(pool) && fresh(pool.frames) && fresh(pool.replacer)
      invariant Refines(pool, AfterAll(start, size, disk, zero, ops[..i]), size, disk, zero)
      invariant unreported == pool.changed
      invariant |answers| == i
      invariant forall k :: 0 <= k < i ==>
        answers[k] == AnswerOf(AfterAll(start, size, disk, zero, ops[..k]), size, disk, zero, ops[k])
    {
      assert ops[..i + 1][..i] == ops[..i];
      var a;
      a, unreported := Perform(pool, ops[i], unreported, AfterAll(start, size, disk, zero, ops[..i]), size, disk, zero);
      answers := answers + [a];
    }
  }
}
