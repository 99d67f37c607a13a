/**
 The buffer pool: a fixed number of frames that cache pages of files, with least-recently-unpinned
 replacement. A page's content, as a client sees it, is its frame's if it is cached and the disk's if
 it is not; only client writes and page creation change it.
 */
module BufferPool {

  const INVALID_PAGE := -1

  datatype PageId = PageId(fd: int, pageNo: int)

  type Data = seq<int>

  datatype Frame = Frame(id: PageId, data: Data, dirty: bool, pin: int)

  /** The state of the pool and the disk. `lru` lists the unpinned frames, the victim first. */
  datatype Pool = Pool(frames: seq<Frame>, table: map<PageId, int>, free: seq<int>, lru: seq<int>,
                       disk: map<PageId, Data>, next: map<int, int>)

  // ---------------------------------------------------------------- lists of frames

  ghost predicate NoRepeats<T>(s: seq<T>) {
    forall i, j :: 0 <= i < j < |s| ==> s[i] != s[j]
  }

  ghost function Upto(n: nat): (r: set<int>)
    ensures forall x :: x in r <==> 0 <= x < n
    ensures |r| == n
  {
    if n == 0 then {} else Upto(n - 1) + {n - 1}
  }

  ghost function Elements(s: seq<int>): (r: set<int>)
    requires NoRepeats(s)
    ensures forall x :: x in r <==> x in s
    ensures |r| == |s|
  {
    if s == [] then {}
    else
      var front, last := s[..|s| - 1], s[|s| - 1];
      assert s == front + [last] && last !in front;
      Elements(front) + {last}
  }

  lemma SubsetIsSmaller<T>(a: set<T>, b: set<T>)
    requires a <= b
    ensures |a| <= |b|
  {
    assert b == a + (b - a);
  }

  /** A list of distinct numbers below `n` that leaves one of them out is shorter than `n`. */
  lemma ListIsShort(s: seq<int>, n: nat, left: int)
    requires NoRepeats(s) && (forall x :: x in s ==> 0 <= x < n) && 0 <= left < n && left !in s
    ensures |s| < n
  {
    SubsetIsSmaller(Elements(s), Upto(n) - {left});
  }

  function Drop<T(==)>(s: seq<T>, f: T): seq<T> {
    if s == [] then [] else if s[0] == f then s[1..] else [s[0]] + Drop(s[1..], f)
  }

  lemma {:induction false} DropDrops<T>(s: seq<T>, f: T)
    requires NoRepeats(s)
    ensures NoRepeats(Drop(s, f))
    ensures forall x :: x in Drop(s, f) <==> x in s && x != f
    ensures f !in s ==> Drop(s, f) == s
  {
    if s != [] {
      assert s == [s[0]] + s[1..] && s[0] !in s[1..];
      if s[0] != f {
        var rest := Drop(s[1..], f);
        DropDrops(s[1..], f);
        assert s[0] !in rest;
        assert NoRepeats([s[0]] + rest);
      }
    }
  }

  lemma {:induction false} DropIsRemoval<T>(list: seq<T>, f: T, k: nat)
    requires NoRepeats(list) && k < |list| && list[k] == f
    ensures Drop(list, f) == list[..k] + list[k + 1..]
  {
    if k > 0 {
      var tail := list[1..];
      DropIsRemoval(tail, f, k - 1);
      assert list[..k] == [list[0]] + tail[..k - 1] && list[k + 1..] == tail[k..];
    }
  }

  // ---------------------------------------------------------------- every frame is accounted for

  predicate Mapped(p: Pool, f: int)
    requires 0 <= f < |p.frames|
  {
    p.frames[f].id.pageNo != INVALID_PAGE
  }

  /** A frame is free, or waiting to be replaced, or pinned; the page table says which page it holds. */
  ghost predicate FrameOk(p: Pool, f: int)
    requires 0 <= f < |p.frames|
  {
    && (f in p.free <==> !Mapped(p, f))
    && (Mapped(p, f) ==> p.frames[f].id in p.table && p.table[p.frames[f].id] == f)
    && (f in p.lru <==> Mapped(p, f) && p.frames[f].pin == 0)
    && 0 <= p.frames[f].pin
  }

  ghost predicate Conserved(p: Pool) {
    && NoRepeats(p.free) && NoRepeats(p.lru)
    && (forall f :: f in p.free ==> 0 <= f < |p.frames|)
    && (forall f :: f in p.lru ==> 0 <= f < |p.frames|)
    && (forall f {:trigger FrameOk(p, f)} :: 0 <= f < |p.frames| ==> FrameOk(p, f))
    && (forall id :: id in p.table ==>
          0 <= p.table[id] < |p.frames| && p.frames[p.table[id]].id == id && id.pageNo != INVALID_PAGE)
  }

  /** A cached page that is neither dirty nor being changed is what the disk has. */
  ghost predicate Coherent(p: Pool, zero: Data, changed: set<PageId>) {
    && (forall id :: id in p.table && 0 <= p.table[id] < |p.frames| ==>
          p.frames[p.table[id]].dirty || id in changed || p.frames[p.table[id]].data == DiskPage(p, zero, id))
    && (forall id :: id in changed ==>
          id in p.table && 0 <= p.table[id] < |p.frames| && p.frames[p.table[id]].pin > 0)
  }

  function DiskPage(p: Pool, zero: Data, id: PageId): Data {
    if id in p.disk then p.disk[id] else zero
  }

  /** What a client sees in a page. */
  function Content(p: Pool, zero: Data, id: PageId): Data {
    if id in p.table && 0 <= p.table[id] < |p.frames| then p.frames[p.table[id]].data else DiskPage(p, zero, id)
  }

  ghost predicate SameContent(p: Pool, q: Pool, zero: Data) {
    forall id :: Content(q, zero, id) == Content(p, zero, id)
  }

  /** Only page `id` has changed, to `data`. */
  ghost predicate Changes(p: Pool, q: Pool, zero: Data, id: PageId, data: Data) {
    forall x :: Content(q, zero, x) == if x == id then data else Content(p, zero, x)
  }

  lemma SameIsSame(p: Pool, zero: Data)
    ensures SameContent(p, p, zero)
  {
  }

  lemma SameIsEqual(p: Pool, q: Pool, zero: Data)
    requires SameContent(p, q, zero)
    ensures forall id :: Content(q, zero, id) == Content(p, zero, id)
  {
  }

  lemma SameChains(p: Pool, q: Pool, r: Pool, zero: Data)
    requires SameContent(p, q, zero) && SameContent(q, r, zero)
    ensures SameContent(p, r, zero)
    ensures forall id :: Content(q, zero, id) == Content(p, zero, id)
  {
  }

  // ---------------------------------------------------------------- taking a frame for a page

  /** The frame to use for a page that is not cached: a free one, or the one unpinned longest ago. */
  function Victim(p: Pool): int {
    if p.free != [] then p.free[0] else if p.lru != [] then p.lru[0] else -1
  }

  function WithoutVictim(p: Pool): Pool {
    if p.free != [] then p.(free := p.free[1..]) else if p.lru != [] then p.(lru := p.lru[1..]) else p
  }

  /** The disk after a frame's page has been written back, if it needs it. */
  function WrittenBack(p: Pool, f: int): map<PageId, Data>
    requires 0 <= f < |p.frames|
  {
    if Mapped(p, f) && p.frames[f].dirty then p.disk[p.frames[f].id := p.frames[f].data] else p.disk
  }

  function Forgotten(p: Pool, f: int): map<PageId, int>
    requires 0 <= f < |p.frames|
  {
    if Mapped(p, f) then p.table - {p.frames[f].id} else p.table
  }

  /** The victim holds page `id` with the given content, pinned once. */
  function Taken(p: Pool, id: PageId, data: Data): Pool
    requires 0 <= Victim(p) < |p.frames|
  {
    var f, q := Victim(p), WithoutVictim(p);
    q.(disk := WrittenBack(p, f), table := Forgotten(p, f)[id := f],
       frames := p.frames[f := Frame(id, data, false, 1)])
  }

  lemma TakenByHand(p: Pool, q: Pool, f: int, id: PageId, data: Data)
    requires f == Victim(p) && 0 <= f < |p.frames|
    requires
      var w := WithoutVictim(p);
      q == w.(disk := WrittenBack(w, f), table := Forgotten(w, f)[id := f],
              frames := w.frames[f := Frame(id, data, false, 1)])
    ensures q == Taken(p, id, data)
  {
  }

  /** Some frame holds no page. */
  ghost predicate HasRoom(p: Pool) {
    exists f :: 0 <= f < |p.frames| && !Mapped(p, f)
  }

  ghost function PageAt(frames: seq<Frame>, f: int): PageId {
    if 0 <= f < |frames| then frames[f].id else PageId(0, INVALID_PAGE)
  }

  /** The pages in the listed frames. */
  ghost function PagesIn(frames: seq<Frame>, list: seq<int>): (r: seq<PageId>)
    ensures |r| == |list| && forall i :: 0 <= i < |list| ==> r[i] == PageAt(frames, list[i])
  {
    if list == [] then [] else [PageAt(frames, list[0])] + PagesIn(frames, list[1..])
  }

  /** The cached pages that nobody has pinned, the one unpinned longest ago first. */
  ghost function Idle(p: Pool): seq<PageId> {
    PagesIn(p.frames, p.lru)
  }

  /** Page `id` comes in: to an empty frame, with every cached page kept, if there is such a frame, and
      otherwise in place of the page unpinned longest ago. */
  ghost predicate Admits(p: Pool, q: Pool, id: PageId) {
    && id in q.table && 0 <= q.table[id] < |p.frames|
    && (HasRoom(p) ==>
          && !Mapped(p, q.table[id]) && q.table == p.table[id := q.table[id]] && Idle(q) == Idle(p))
    && (!HasRoom(p) ==>
          && Idle(p) != [] && p.frames[q.table[id]].id == Idle(p)[0]
          && q.table == (p.table - {Idle(p)[0]})[id := q.table[id]] && Idle(q) == Idle(p)[1..])
  }

  lemma RoomIsFree(p: Pool)
    requires Conserved(p)
    ensures HasRoom(p) <==> p.free != []
  {
    if p.free != [] {
      assert p.free[0] in p.free && FrameOk(p, p.free[0]);
    }
    if f :| 0 <= f < |p.frames| && !Mapped(p, f) {
      assert FrameOk(p, f);
    }
  }

  lemma TakenAdmits(p: Pool, id: PageId, data: Data)
    requires CanTake(p, id) && 0 <= Victim(p) < |p.frames|
    ensures Admits(p, Taken(p, id, data), id)
  {
    RoomIsFree(p);
    VictimIsUnpinned(p);
    var q := Taken(p, id, data);
    forall i | 0 <= i < |q.lru|
      ensures PageAt(q.frames, q.lru[i]) == PageAt(p.frames, q.lru[i])
    {
      assert q.lru[i] in p.lru && q.lru[i] != Victim(p) by {
        assert FrameOk(p, Victim(p));
      }
    }
    hide Conserved, PagesIn, Drop;
    SamePages(p.frames, q.frames, q.lru);
    if p.free == [] {
      assert PagesIn(p.frames, p.lru[1..]) == Idle(p)[1..];
    }
  }

  /** Handing out the next page number touches neither frames nor contents. */
  lemma CreatedByHand(p: Pool, q: Pool, f: int, id: PageId, zero: Data, changed: set<PageId>)
    requires f == Victim(p) && 0 <= f < |p.frames|
    requires q == Taken(p, id, zero).(next := q.next)
    requires Conserved(Taken(p, id, zero)) && Coherent(Taken(p, id, zero), zero, changed)
    requires Changes(p, Taken(p, id, zero), zero, id, zero) && PinsMove(p, Taken(p, id, zero), id, 1)
    requires Admits(p, Taken(p, id, zero), id)
    ensures Conserved(q) && Coherent(q, zero, changed) && Changes(p, q, zero, id, zero) && PinsMove(p, q, id, 1)
    ensures Admits(p, q, id)
  {
    var t := Taken(p, id, zero);
    forall g | 0 <= g < |q.frames|
      ensures FrameOk(q, g)
    {
      assert FrameOk(t, g);
    }
    assert forall x :: Content(q, zero, x) == Content(t, zero, x);
    assert forall x :: PinOf(q, x) == PinOf(t, x);
    assert Idle(q) == Idle(t);
  }

  ghost predicate CanTake(p: Pool, id: PageId) {
    Conserved(p) && (p.free != [] || p.lru != []) && id !in p.table && id.pageNo != INVALID_PAGE
  }

  lemma VictimIsUnpinned(p: Pool)
    requires Conserved(p) && (p.free != [] || p.lru != [])
    ensures 0 <= Victim(p) < |p.frames| && FrameOk(p, Victim(p))
    ensures Mapped(p, Victim(p)) ==> p.frames[Victim(p)].pin == 0
    ensures WithoutVictim(p).free == Drop(p.free, Victim(p)) && WithoutVictim(p).lru == Drop(p.lru, Victim(p))
  {
    var f := Victim(p);
    assert f in p.free || f in p.lru;
    assert FrameOk(p, f);
    DropDrops(p.free, f);
    DropDrops(p.lru, f);
  }

  lemma TakenConserved(p: Pool, id: PageId, data: Data)
    requires CanTake(p, id) && 0 <= Victim(p) < |p.frames|
    ensures Conserved(Taken(p, id, data))
  {
    var f, q := Victim(p), Taken(p, id, data);
    VictimIsUnpinned(p);
    DropDrops(p.free, f);
    DropDrops(p.lru, f);
    forall g | 0 <= g < |q.frames|
      ensures FrameOk(q, g)
    {
      assert FrameOk(p, g);
    }
  }

  lemma TakenContent(p: Pool, zero: Data, changed: set<PageId>, id: PageId, data: Data)
    requires CanTake(p, id) && 0 <= Victim(p) < |p.frames| && Coherent(p, zero, changed)
    ensures forall x :: Content(Taken(p, id, data), zero, x) == if x == id then data else Content(p, zero, x)
    ensures DiskPage(Taken(p, id, data), zero, id) == Content(p, zero, id)
    ensures forall x :: x != id && x in Taken(p, id, data).table ==>
      DiskPage(Taken(p, id, data), zero, x) == DiskPage(p, zero, x)
  {
    VictimIsUnpinned(p);
    assert FrameOk(p, Victim(p));
  }

  lemma TakenCoherent(p: Pool, zero: Data, changed: set<PageId>, id: PageId, data: Data, changed': set<PageId>)
    requires CanTake(p, id) && 0 <= Victim(p) < |p.frames| && Coherent(p, zero, changed)
    requires changed' == changed || changed' == changed + {id}
    requires id in changed' || data == Content(p, zero, id)
    ensures Coherent(Taken(p, id, data), zero, changed')
  {
    VictimIsUnpinned(p);
    TakenContent(p, zero, changed, id, data);
    var q := Taken(p, id, data);
    forall x | x in changed'
      ensures x in q.table && q.frames[q.table[x]].pin > 0
    {
      if x != id {
        assert FrameOk(p, p.table[x]);
      }
    }
  }

  /** Bringing a page in from the disk changes no page's content. */
  lemma FetchStep(p: Pool, zero: Data, changed: set<PageId>, id: PageId)
    requires CanTake(p, id) && Coherent(p, zero, changed)
    ensures 0 <= Victim(p) < |p.frames|
    ensures
      var data := Content(p, zero, id);
      var q := Taken(p, id, data);
      && Conserved(q) && Coherent(q, zero, changed) && SameContent(p, q, zero)
      && DiskPage(q, zero, id) == data
      && q.table.Keys <= p.table.Keys + {id} && id in q.table && q.table[id] == Victim(p)
  {
    VictimIsUnpinned(p);
    var data := Content(p, zero, id);
    TakenConserved(p, id, data);
    TakenContent(p, zero, changed, id, data);
    TakenCoherent(p, zero, changed, id, data, changed);
  }

  /** Creating a page changes its own content only. */
  lemma CreateStep(p: Pool, zero: Data, changed: set<PageId>, id: PageId)
    requires CanTake(p, id) && Coherent(p, zero, changed)
    ensures 0 <= Victim(p) < |p.frames|
    ensures
      var q := Taken(p, id, zero);
      && Conserved(q) && Coherent(q, zero, changed + {id}) && Changes(p, q, zero, id, zero)
      && q.table.Keys <= p.table.Keys + {id} && id in q.table
  {
    VictimIsUnpinned(p);
    TakenConserved(p, id, zero);
    TakenContent(p, zero, changed, id, zero);
    TakenCoherent(p, zero, changed, id, zero, changed + {id});
  }

  /** A page can be brought in unless every frame is pinned. */
  lemma NoVictimMeansAllPinned(p: Pool)
    requires Conserved(p)
    ensures p.free == [] && p.lru == [] <==> forall f :: 0 <= f < |p.frames| ==> Mapped(p, f) && p.frames[f].pin > 0
  {
    forall f | 0 <= f < |p.frames|
      ensures f !in p.free && f !in p.lru <==> Mapped(p, f) && p.frames[f].pin > 0
    {
      assert FrameOk(p, f);
    }
    if p.free != [] || p.lru != [] {
      VictimIsUnpinned(p);
      assert !(Mapped(p, Victim(p)) && p.frames[Victim(p)].pin > 0);
    }
  }

  // ---------------------------------------------------------------- the other steps

  /** One frame's header or content changes; it keeps its page. */
  ghost predicate Retouched(p: Pool, q: Pool, f: int) {
    && |q.frames| == |p.frames| && 0 <= f < |p.frames| && q.frames[f].id == p.frames[f].id
    && q.frames == p.frames[f := q.frames[f]]
    && q.table == p.table && q.free == p.free && q.next == p.next
  }

  lemma RetouchedConserved(p: Pool, q: Pool, f: int)
    requires Conserved(p) && Retouched(p, q, f) && Mapped(p, f) && 0 <= q.frames[f].pin
    requires q.lru == (if q.frames[f].pin > 0 then Drop(p.lru, f) else if f in p.lru then p.lru else p.lru + [f])
    ensures Conserved(q)
  {
    DropDrops(p.lru, f);
    assert forall x :: x in q.lru <==> (x in p.lru && x != f) || (x == f && q.frames[f].pin == 0);
    forall g | 0 <= g < |q.frames|
      ensures FrameOk(q, g)
    {
      assert FrameOk(p, g);
    }
  }

  lemma RetouchedCoherent(p: Pool, q: Pool, f: int, zero: Data, changed: set<PageId>, changed': set<PageId>)
    requires Conserved(p) && Retouched(p, q, f) && Mapped(p, f) && Coherent(p, zero, changed)
    requires forall x :: x != p.frames[f].id ==> DiskPage(q, zero, x) == DiskPage(p, zero, x)
    requires forall x :: x != p.frames[f].id ==> (x in changed' <==> x in changed)
    requires p.frames[f].id in changed' ==> q.frames[f].pin > 0
    requires q.frames[f].dirty || p.frames[f].id in changed' || q.frames[f].data == DiskPage(q, zero, p.frames[f].id)
    ensures Coherent(q, zero, changed')
    ensures forall x :: Content(q, zero, x) == if x == p.frames[f].id then q.frames[f].data else Content(p, zero, x)
  {
    assert FrameOk(p, f);
  }

  /** An unpinned page leaves the pool and its frame becomes free. */
  function Released(p: Pool, f: int, zero: Data): Pool
    requires 0 <= f < |p.frames|
  {
    p.(disk := WrittenBack(p, f), table := Forgotten(p, f), lru := Drop(p.lru, f), free := p.free + [f],
       frames := p.frames[f := Frame(PageId(p.frames[f].id.fd, INVALID_PAGE), zero, false, 0)])
  }

  lemma ReleasedConserved(p: Pool, f: int, zero: Data)
    requires Conserved(p) && 0 <= f < |p.frames| && Mapped(p, f) && p.frames[f].pin == 0
    ensures Conserved(Released(p, f, zero))
  {
    var q := Released(p, f, zero);
    DropDrops(p.lru, f);
    assert FrameOk(p, f);
    forall g | 0 <= g < |q.frames|
      ensures FrameOk(q, g)
    {
      assert FrameOk(p, g);
    }
  }

  lemma ReleasedContent(p: Pool, f: int, zero: Data, changed: set<PageId>)
    requires Conserved(p) && 0 <= f < |p.frames| && Mapped(p, f) && p.frames[f].pin == 0
    requires Coherent(p, zero, changed)
    ensures SameContent(p, Released(p, f, zero), zero)
    ensures Coherent(Released(p, f, zero), zero, changed)
  {
    assert FrameOk(p, f);
  }

  /** A cached page is pinned once more. */
  function Repinned(p: Pool, f: int): Pool
    requires 0 <= f < |p.frames|
  {
    p.(frames := p.frames[f := p.frames[f].(pin := p.frames[f].pin + 1)], lru := Drop(p.lru, f))
  }

  lemma PinStep(p: Pool, zero: Data, changed: set<PageId>, f: int)
    requires Conserved(p) && Coherent(p, zero, changed) && 0 <= f < |p.frames| && Mapped(p, f)
    ensures Conserved(Repinned(p, f)) && Coherent(Repinned(p, f), zero, changed)
    ensures SameContent(p, Repinned(p, f), zero)
  {
    assert FrameOk(p, f);
    var q := Repinned(p, f);
    RetouchedConserved(p, q, f);
    hide Conserved;
    RetouchedCoherent(p, q, f, zero, changed, changed);
  }

  /** A page is given back once; at the last pin its frame may be replaced. */
  function Unpinned(p: Pool, f: int, isDirty: bool): Pool
    requires 0 <= f < |p.frames|
  {
    var page := p.frames[f];
    p.(frames := p.frames[f := page.(dirty := page.dirty || isDirty, pin := page.pin - 1)],
       lru := if page.pin == 1 then p.lru + [f] else p.lru)
  }

  lemma UnpinStep(p: Pool, zero: Data, changed: set<PageId>, f: int, isDirty: bool)
    requires Conserved(p) && Coherent(p, zero, changed) && 0 <= f < |p.frames| && Mapped(p, f)
    requires p.frames[f].pin > 0
    requires p.frames[f].id in changed && p.frames[f].pin == 1 ==> isDirty
    ensures
      var q, id := Unpinned(p, f, isDirty), p.frames[f].id;
      && Conserved(q) && SameContent(p, q, zero)
      && Coherent(q, zero, if isDirty then changed - {id} else changed)
    ensures f !in p.lru && |p.lru| < |p.frames|
  {
    var q, id := Unpinned(p, f, isDirty), p.frames[f].id;
    assert FrameOk(p, f);
    DropDrops(p.lru, f);
    ListIsShort(p.lru, |p.frames|, f);
    RetouchedConserved(p, q, f);
    RetouchedCoherent(p, q, f, zero, changed, if isDirty then changed - {id} else changed);
  }

  /** A cached page is copied to the disk. */
  function Flushed(p: Pool, f: int): Pool
    requires 0 <= f < |p.frames|
  {
    p.(disk := p.disk[p.frames[f].id := p.frames[f].data], frames := p.frames[f := p.frames[f].(dirty := false)])
  }

  lemma FlushStep(p: Pool, zero: Data, changed: set<PageId>, f: int)
    requires Conserved(p) && Coherent(p, zero, changed) && 0 <= f < |p.frames| && Mapped(p, f)
    ensures Conserved(Flushed(p, f)) && SameContent(p, Flushed(p, f), zero)
    ensures Coherent(Flushed(p, f), zero, changed - {p.frames[f].id})
  {
    assert FrameOk(p, f);
    DropDrops(p.lru, f);
    RetouchedConserved(p, Flushed(p, f), f);
    RetouchedCoherent(p, Flushed(p, f), f, zero, changed, changed - {p.frames[f].id});
  }

  /** A client writes to a page it has pinned. */
  function Written(p: Pool, f: int, data: Data): Pool
    requires 0 <= f < |p.frames|
  {
    p.(frames := p.frames[f := p.frames[f].(data := data)])
  }

  lemma WriteStep(p: Pool, zero: Data, changed: set<PageId>, f: int, data: Data)
    requires Conserved(p) && Coherent(p, zero, changed) && 0 <= f < |p.frames| && Mapped(p, f)
    requires p.frames[f].pin > 0
    ensures Conserved(Written(p, f, data)) && Coherent(Written(p, f, data), zero, changed + {p.frames[f].id})
    ensures Changes(p, Written(p, f, data), zero, p.frames[f].id, data)
  {
    assert FrameOk(p, f);
    DropDrops(p.lru, f);
    RetouchedConserved(p, Written(p, f, data), f);
    RetouchedCoherent(p, Written(p, f, data), f, zero, changed, changed + {p.frames[f].id});
  }

  // ---------------------------------------------------------------- pins

  /** How often a page is pinned. */
  function PinOf(p: Pool, id: PageId): int {
    if id in p.table && 0 <= p.table[id] < |p.frames| then p.frames[p.table[id]].pin else 0
  }

  /** Only page `id` is pinned differently: `times` times more. */
  ghost predicate PinsMove(p: Pool, q: Pool, id: PageId, times: int) {
    forall x :: PinOf(q, x) == PinOf(p, x) + if x == id then times else 0
  }

  lemma RetouchedPins(p: Pool, q: Pool, f: int)
    requires Conserved(p) && Retouched(p, q, f) && Mapped(p, f)
    ensures PinsMove(p, q, p.frames[f].id, q.frames[f].pin - p.frames[f].pin)
  {
    assert FrameOk(p, f);
  }

  lemma TakenPins(p: Pool, id: PageId, data: Data)
    requires CanTake(p, id) && 0 <= Victim(p) < |p.frames|
    ensures PinsMove(p, Taken(p, id, data), id, 1)
  {
    VictimIsUnpinned(p);
    assert FrameOk(p, Victim(p));
  }

  lemma ReleasedPins(p: Pool, f: int, zero: Data, id: PageId)
    requires Conserved(p) && 0 <= f < |p.frames| && Mapped(p, f) && p.frames[f].pin == 0
    ensures PinsMove(p, Released(p, f, zero), id, 0)
  {
    assert FrameOk(p, f);
  }

  ghost function PinnedFrames(p: Pool): set<int> {
    set f | 0 <= f < |p.frames| && Mapped(p, f) && p.frames[f].pin > 0
  }

  /** Sets that a map pairs off have the same size. */
  lemma {:induction false} PairedOff(a: set<PageId>, b: set<int>, m: map<PageId, int>)
    requires a <= m.Keys && (forall x <- a :: m[x] in b) && (forall y <- b :: exists x <- a :: m[x] == y)
    requires forall x, y :: x in a && y in a && m[x] == m[y] ==> x == y
    ensures |a| == |b|
  {
    if a != {} {
      var x :| x in a;
      forall y <- b - {m[x]}
        ensures exists z <- a - {x} :: m[z] == y
      {
        var z :| z in a && m[z] == y;
      }
      PairedOff(a - {x}, b - {m[x]}, m);
    } else {
      assert forall y :: y !in b;
    }
  }

  lemma HeldInFrames(p: Pool, held: set<PageId>)
    requires Conserved(p) && forall id :: id in held <==> PinOf(p, id) > 0
    ensures |held| == |PinnedFrames(p)|
  {
    forall f | f in PinnedFrames(p)
      ensures exists id <- held :: p.table[id] == f
    {
      assert FrameOk(p, f);
      assert p.frames[f].id in held;
    }
    forall id | id in held
      ensures id in p.table && p.table[id] in PinnedFrames(p) && p.frames[p.table[id]].id == id
    {
      assert FrameOk(p, p.table[id]);
    }
    PairedOff(held, PinnedFrames(p), p.table);
  }

  /** Every frame is pinned iff as many pages are pinned as there are frames. */
  lemma FullOfPins(p: Pool, held: set<PageId>)
    requires Conserved(p) && forall id :: id in held <==> PinOf(p, id) > 0
    ensures |held| <= |p.frames|
    ensures (forall f :: 0 <= f < |p.frames| ==> Mapped(p, f) && p.frames[f].pin > 0) <==> |held| == |p.frames|
  {
    HeldInFrames(p, held);
    hide Conserved, PinOf;
    var pinned, all := PinnedFrames(p), Upto(|p.frames|);
    SubsetIsSmaller(pinned, all);
    SameSizeIsSame(pinned, all);
    forall f | 0 <= f < |p.frames|
      ensures f in pinned <==> Mapped(p, f) && p.frames[f].pin > 0
    {
    }
    assert pinned == all <==> forall f :: 0 <= f < |p.frames| ==> f in pinned;
  }

  lemma SameSizeIsSame<T>(a: set<T>, b: set<T>)
    requires a <= b
    ensures a == b <==> |a| == |b|
  {
    assert b == a + (b - a);
  }

  // ---------------------------------------------------------------- pages waiting to be replaced

  /** A page is cached iff it is pinned or waits to be replaced. */
  lemma CachedIsHeldOrIdle(p: Pool, id: PageId)
    requires Conserved(p)
    ensures id in p.table <==> PinOf(p, id) > 0 || id in Idle(p)
    ensures id in Idle(p) ==> PinOf(p, id) == 0
    ensures NoRepeats(Idle(p))
  {
    forall i | 0 <= i < |p.lru|
      ensures Idle(p)[i] in p.table && p.table[Idle(p)[i]] == p.lru[i] && PinOf(p, Idle(p)[i]) == 0
    {
      assert p.lru[i] in p.lru && FrameOk(p, p.lru[i]);
    }
    if id in p.table && PinOf(p, id) <= 0 {
      assert FrameOk(p, p.table[id]);
      var i :| 0 <= i < |p.lru| && p.lru[i] == p.table[id];
      assert Idle(p)[i] == id;
    }
  }

  lemma CountTwo(a: set<int>, b: set<int>, n: nat)
    requires a !! b && a + b <= Upto(n)
    ensures a + b == Upto(n) <==> |a| + |b| >= n
  {
    SameSizeIsSame(a + b, Upto(n));
    SubsetIsSmaller(a + b, Upto(n));
    assert |a + b| == |a| + |b|;
  }

  lemma RoomIsUnmapped(p: Pool, mapped: set<int>)
    requires mapped <= Upto(|p.frames|)
    requires forall f :: 0 <= f < |p.frames| ==> (Mapped(p, f) <==> f in mapped)
    ensures HasRoom(p) <==> mapped != Upto(|p.frames|)
  {
    if !HasRoom(p) {
      assert forall f :: 0 <= f < |p.frames| ==> Mapped(p, f);
    }
  }

  /** The frames with a page are those that are pinned and those that are listed, and none is both. */
  lemma MappedFrames(p: Pool)
    requires Conserved(p)
    ensures NoRepeats(p.lru) && PinnedFrames(p) !! Elements(p.lru)
    ensures forall f :: 0 <= f < |p.frames| ==> (Mapped(p, f) <==> f in PinnedFrames(p) + Elements(p.lru))
    ensures PinnedFrames(p) + Elements(p.lru) <= Upto(|p.frames|)
  {
    forall f | 0 <= f < |p.frames|
      ensures f in p.lru <==> Mapped(p, f) && p.frames[f].pin == 0
      ensures 0 <= p.frames[f].pin
    {
      assert FrameOk(p, f);
    }
    hide Conserved, NoRepeats;
  }

  /** There is an empty frame iff fewer pages are cached than there are frames. */
  lemma RoomForOne(p: Pool, held: set<PageId>)
    requires Conserved(p) && forall id :: id in held <==> PinOf(p, id) > 0
    ensures HasRoom(p) <==> |held| + |Idle(p)| < |p.frames|
  {
    HeldInFrames(p, held);
    MappedFrames(p);
    hide Conserved, PinOf, Mapped, HasRoom, PinnedFrames, Elements, Upto, PagesIn, NoRepeats;
    var pinned, idle := PinnedFrames(p), Elements(p.lru);
    CountTwo(pinned, idle, |p.frames|);
    RoomIsUnmapped(p, pinned + idle);
  }

  lemma {:induction false} PagesWithout(frames: seq<Frame>, list: seq<int>, f: int)
    requires forall i :: 0 <= i < |list| ==> (list[i] == f <==> PageAt(frames, list[i]) == PageAt(frames, f))
    ensures PagesIn(frames, Drop(list, f)) == Drop(PagesIn(frames, list), PageAt(frames, f))
  {
    if list != [] && list[0] != f {
      PagesWithout(frames, list[1..], f);
    }
  }

  lemma SamePages(frames: seq<Frame>, frames': seq<Frame>, list: seq<int>)
    requires forall i :: 0 <= i < |list| ==> PageAt(frames', list[i]) == PageAt(frames, list[i])
    ensures PagesIn(frames', list) == PagesIn(frames, list)
  {
  }

  /** A frame leaves the list: its page leaves the pages that wait. */
  lemma IdleWithout(p: Pool, q: Pool, f: int)
    requires Conserved(p) && 0 <= f < |p.frames| && Mapped(p, f) && q.lru == Drop(p.lru, f)
    requires |q.frames| == |p.frames|
    requires forall g :: 0 <= g < |p.frames| && g != f ==> q.frames[g].id == p.frames[g].id
    ensures Idle(q) == Drop(Idle(p), p.frames[f].id)
  {
    forall i | 0 <= i < |p.lru|
      ensures p.lru[i] == f <==> PageAt(p.frames, p.lru[i]) == PageAt(p.frames, f)
    {
      assert p.lru[i] in p.lru;
      assert FrameOk(p, p.lru[i]) && FrameOk(p, f);
    }
    PagesWithout(p.frames, p.lru, f);
    DropDrops(p.lru, f);
    hide Conserved, Drop, PagesIn;
    forall i | 0 <= i < |q.lru|
      ensures PageAt(q.frames, q.lru[i]) == PageAt(p.frames, q.lru[i])
    {
      assert q.lru[i] in q.lru;
    }
    SamePages(p.frames, q.frames, q.lru);
  }

  /** The frames of the listed pages keep them: the same pages wait. */
  lemma IdleKept(p: Pool, q: Pool)
    requires q.lru == p.lru && |q.frames| == |p.frames|
    requires forall g :: 0 <= g < |p.frames| ==> q.frames[g].id == p.frames[g].id
    ensures Idle(q) == Idle(p)
  {
  }

  /** A page given back for the last time waits behind all others. */
  lemma IdleUnpinned(p: Pool, f: int, isDirty: bool)
    requires Conserved(p) && 0 <= f < |p.frames| && Mapped(p, f) && p.frames[f].pin > 0
    ensures Idle(Unpinned(p, f, isDirty)) ==
            if p.frames[f].pin == 1 then Idle(p) + [p.frames[f].id] else Idle(p)
  {
  }
}
