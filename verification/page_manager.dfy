/**
 Ownership of page ids. Every id below `nextPageID` is in exactly one place: the live
 tree, the reusable list, the retired list, the pending list or the pages that store
 the free list itself. Ids that can still be handed out form the supply.
 */
module PageManagers {

  /** The largest id whose file offset does not overflow 63 bits. */
  const MAX_PAGE_ID: nat := (0x7fff_ffff_ffff_ffff - 2 * 4096) / 4096 + 1

  datatype PageManagerState = PageManagerState(
    nextPageID: nat,
    committedPageCount: nat,
    rootPageID: nat,
    generation: nat,
    freePageIDs: seq<nat>,
    retiredPageIDs: seq<nat>,
    pendingFreePageIDs: seq<nat>,
    freeListPageIDs: seq<nat>)

  ghost predicate InSupply(s: PageManagerState, x: nat) {
    x in s.freePageIDs || x >= s.nextPageID
  }

  ghost predicate Distinct(s: seq<nat>) {
    forall x :: multiset(s)[x] <= 1
  }

  /** The reusable list is what it claims to be: distinct allocated pages. */
  ghost predicate WellSupplied(s: PageManagerState) {
    && s.nextPageID >= 1
    && Distinct(s.freePageIDs)
    && forall x :: x in s.freePageIDs ==> 1 <= x < s.nextPageID
  }

  /** A page id is too large exactly if the offset of its page does not fit into 63 bits. */
  lemma {:induction false} LargestPage(id: nat)
    requires id >= 1
    ensures id <= MAX_PAGE_ID <==> 2 * 4096 + (id - 1) * 4096 <= 0x7fff_ffff_ffff_ffff
  {
  }

  /** Ids above all those handed out so far. */
  function FreshFrom(next: nat): nat {
    if next <= MAX_PAGE_ID then MAX_PAGE_ID + 1 - next else 0
  }

  function Fresh(s: PageManagerState): nat {
    FreshFrom(s.nextPageID)
  }

  /** How many pages can still be reserved. */
  function Available(s: PageManagerState): nat {
    |s.freePageIDs| + Fresh(s)
  }

  /** How many owners each page id has. */
  ghost function OwnerBag(s: PageManagerState, live: multiset<nat>): multiset<nat> {
    live + multiset(s.freePageIDs) + multiset(s.retiredPageIDs)
    + multiset(s.pendingFreePageIDs) + multiset(s.freeListPageIDs)
  }

  /** Conservation: each allocated page has exactly one owner, and nothing else has one. */
  ghost predicate Owned(s: PageManagerState, live: set<nat>) {
    && s.nextPageID >= 1
    && forall x: nat :: OwnerBag(s, multiset(live))[x] == if 1 <= x < s.nextPageID then 1 else 0
  }

  lemma {:induction false} TakeLast(s: seq<nat>)
    requires s != [] && Distinct(s)
    ensures var rest, last := s[..|s| - 1], s[|s| - 1];
            && (forall x :: x in rest <==> x in s && x != last)
            && multiset(rest) <= multiset(s)
            && Distinct(rest)
  {
    var rest, last := s[..|s| - 1], s[|s| - 1];
    assert s == rest + [last];
    var bag: multiset<nat> := multiset(s);
    assert bag == multiset(rest) + multiset{last};
    assert bag[last] <= 1;
    forall x ensures x in rest <==> x in s && x != last {
      assert x in rest <==> multiset(rest)[x] > 0;
      assert x in s <==> bag[x] > 0;
    }
    forall x ensures multiset(rest)[x] <= 1 {
      assert bag[x] <= 1;
    }
  }

  class PageManager {
    var nextPageID: nat
    var committedPageCount: nat
    var rootPageID: nat
    var generation: nat
    var freePageIDs: seq<nat>
    var retiredPageIDs: seq<nat>
    var pendingFreePageIDs: seq<nat>
    var freeListPageIDs: seq<nat>
    var freePageSet: set<nat>

    /** The value that can later be restored. */
    function Snapshot(): PageManagerState
      reads this
    {
      PageManagerState(nextPageID, committedPageCount, rootPageID, generation,
                       freePageIDs, retiredPageIDs, pendingFreePageIDs, freeListPageIDs)
    }

    ghost predicate Valid()
      reads this
    {
      freePageSet == (set x | x in freePageIDs)
    }

    constructor (state: PageManagerState)
      ensures Valid() && Snapshot() == state
    {
      nextPageID := state.nextPageID;
      committedPageCount := state.committedPageCount;
      rootPageID := state.rootPageID;
      generation := state.generation;
      freePageIDs := state.freePageIDs;
      retiredPageIDs := state.retiredPageIDs;
      pendingFreePageIDs := state.pendingFreePageIDs;
      freeListPageIDs := state.freeListPageIDs;
      freePageSet := set x | x in state.freePageIDs;
    }

    method Restore(state: PageManagerState)
      modifies this
      ensures Valid() && Snapshot() == state
    {
      nextPageID := state.nextPageID;
      committedPageCount := state.committedPageCount;
      rootPageID := state.rootPageID;
      generation := state.generation;
      freePageIDs := state.freePageIDs;
      retiredPageIDs := state.retiredPageIDs;
      pendingFreePageIDs := state.pendingFreePageIDs;
      freeListPageIDs := state.freeListPageIDs;
      freePageSet := set x | x in freePageIDs;
    }

    /** Takes the newest reusable page, or else extends the file by one page. */
    method ReservePage() returns (ok: bool, pageID: nat)
      requires Valid() && WellSupplied(Snapshot())
      modifies this
      ensures Valid()
      ensures ok <==> Available(old(Snapshot())) > 0
      ensures !ok ==> Snapshot() == old(Snapshot())
      ensures ok ==> Reserved(old(Snapshot()), Snapshot(), pageID)
      ensures ok ==>
                pageID == if old(freePageIDs) != [] then old(freePageIDs)[|old(freePageIDs)| - 1] else old(nextPageID)
      ensures WellSupplied(Snapshot())
    {
      if |freePageIDs| > 0 {
        pageID := freePageIDs[|freePageIDs| - 1];
        TakeLast(freePageIDs);
        freePageIDs := freePageIDs[..|freePageIDs| - 1];
        freePageSet := freePageSet - {pageID};
        return true, pageID;
      }
      pageID := nextPageID;
      if pageID > MAX_PAGE_ID {
        return false, 0;
      }
      nextPageID := nextPageID + 1;
      return true, pageID;
    }

    predicate ExistingPage(pageID: nat)
      reads this
    {
      pageID != 0 && pageID < nextPageID && pageID !in freePageSet
    }

    /** Queues a page that the tree has let go; a page with another owner is refused. */
    method FreePage(pageID: nat) returns (ok: bool)
      requires Valid()
      modifies this
      ensures Valid()
      ensures ok <==> && 1 <= pageID < old(nextPageID)
                      && pageID !in old(freePageIDs) + old(freeListPageIDs)
                      && pageID !in old(retiredPageIDs) + old(pendingFreePageIDs)
      ensures Snapshot() == if ok
                            then old(Snapshot()).(pendingFreePageIDs := old(pendingFreePageIDs) + [pageID])
                            else old(Snapshot())
    {
      if !ExistingPage(pageID) {
        return false;
      }
      if pageID in freeListPageIDs {
        return false;
      }
      if pageID in retiredPageIDs || pageID in pendingFreePageIDs {
        return false;
      }
      pendingFreePageIDs := pendingFreePageIDs + [pageID];
      ok := true;
    }
  }

  /** One id has left the supply, and nothing else has changed. */
  ghost predicate Reserved(s: PageManagerState, s': PageManagerState, id: nat) {
    && InSupply(s, id)
    && Available(s) == Available(s') + 1
    && s' == s.(freePageIDs := s'.freePageIDs, nextPageID := s'.nextPageID)
    && s.nextPageID <= s'.nextPageID
    && multiset(s'.freePageIDs) <= multiset(s.freePageIDs)
    && (forall x: nat :: InSupply(s', x) <==> InSupply(s, x) && x != id)
  }
}
