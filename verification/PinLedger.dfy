/**
 What a client of the buffer pool owes it: every page fetched or created is unpinned again, and a
 page that was written is unpinned as dirty.
 */
module PinLedger {

  class Ledger {
    /** Pages pinned now, once per pin. */
    var pins: multiset<int>
    /** Pages unpinned as dirty, one after the other. */
    var dirty: seq<int>

    constructor ()
      ensures pins == multiset{} && dirty == []
    {
      pins, dirty := multiset{}, [];
    }

    method Pin(p: int)
      modifies this`pins
      ensures pins == old(pins) + multiset{p}
    {
      pins := pins + multiset{p};
    }

    /** Gives back one pin of page `p`, leaving the pins in `rest`. */
    method Unpin(p: int, isDirty: bool, ghost rest: multiset<int>)
      requires pins == rest + multiset{p}
      modifies this
      ensures pins == rest
      ensures dirty == if isDirty then old(dirty) + [p] else old(dirty)
    {
      pins := pins - multiset{p};
      if isDirty {
        dirty := dirty + [p];
      }
    }
  }

  /** Since the log was `before`, page `p` has been reported as dirty. */
  ghost predicate Reported(before: seq<int>, now: seq<int>, p: int) {
    exists i :: |before| <= i < |now| && now[i] == p
  }

  /** Every page that differs between `pages` and `pages'` has been reported as dirty since, or is among
      those still `owed`. */
  ghost predicate Owes<N>(pages: map<int, N>, log: seq<int>, pages': map<int, N>, log': seq<int>, owed: set<int>) {
    && pages.Keys <= pages'.Keys && log <= log'
    && forall p :: p in pages' && (p !in pages || pages[p] != pages'[p]) ==> p in owed || Reported(log, log', p)
  }

  lemma OwesNothing<N>(pages: map<int, N>, log: seq<int>, owed: set<int>)
    ensures Owes(pages, log, pages, log, owed)
  {
  }

  /** Writing a page that is owed. */
  lemma OwesWrite<N>(a: map<int, N>, la: seq<int>, b: map<int, N>, lb: seq<int>, owed: set<int>, p: int, node: N)
    requires Owes(a, la, b, lb, owed) && p in owed
    ensures Owes(a, la, b[p := node], lb, owed)
  {
  }

  /** Reporting a page. */
  lemma OwesPaid<N>(a: map<int, N>, la: seq<int>, b: map<int, N>, lb: seq<int>, owed: set<int>, p: int, rest: set<int>)
    requires Owes(a, la, b, lb, owed) && owed <= rest + {p}
    ensures Owes(a, la, b, lb + [p], rest)
  {
    assert (lb + [p])[|lb|] == p;
    forall q | Reported(la, lb, q)
      ensures Reported(la, lb + [p], q)
    {
      var i :| |la| <= i < |lb| && lb[i] == q;
      assert (lb + [p])[i] == q;
    }
  }

  /** Writing a page and reporting it. */
  lemma OwesPage<N>(a: map<int, N>, la: seq<int>, b: map<int, N>, lb: seq<int>, owed: set<int>, p: int, node: N)
    requires Owes(a, la, b, lb, owed)
    ensures Owes(a, la, b[p := node], lb + [p], owed)
  {
    assert Owes(a, la, b[p := node], lb, owed + {p});
    OwesPaid(a, la, b[p := node], lb, owed + {p}, p, owed);
  }

  /** One stretch after the other. */
  lemma OwesTogether<N>(a: map<int, N>, la: seq<int>, b: map<int, N>, lb: seq<int>, c: map<int, N>, lc: seq<int>,
                        ab: set<int>, bc: set<int>, all: set<int>)
    requires Owes(a, la, b, lb, ab) && Owes(b, lb, c, lc, bc) && ab <= all && bc <= all
    ensures Owes(a, la, c, lc, all)
  {
    forall q | Reported(la, lb, q)
      ensures Reported(la, lc, q)
    {
      var i :| |la| <= i < |lb| && lb[i] == q;
      assert lc[i] == q;
    }
  }
}
