/**
 The durable key-value store. An update runs a batch on a working copy, then writes it out
 in the order of the commit protocol; every step it takes is a step of that protocol.
 */
module KvStore {
  import opened Entries
  import opened PageNodes
  import opened PageTrees
  import opened PageManagers
  import opened PageUpdates
  import opened PageTreeOps
  import opened PageLoading
  import opened FreeLists
  import opened Recovery
  import opened PageFiles
  import opened CommitProtocol
  import opened KvUpdates

  /** How a slot write can fail: before it, in the middle of it, or after it. */
  datatype SlotFault = Fine | Untouched | Torn | Stored

  /** What goes wrong during one update; a failed page write may leave some content behind. */
  datatype Faults = Faults(
    page: map<nat, Option<Content>>, dataSync: bool,
    list: map<nat, Option<Content>>, listSync: bool,
    slot: SlotFault, metaSync: bool, cut: bool)

  predicate Quiet(f: Faults) {
    f.page == map[] && !f.dataSync && f.list == map[] && !f.listSync && f.slot.Fine? && !f.metaSync
  }

  datatype Cause = BadMutation(index: nat) | NoPagesLeft | Fault | NoRepair

  datatype Result = Success | Unchanged | Failed(cause: Cause)

  // ----- Traces of the protocol

  /** A piece of a run from `first` to `s`. */
  ghost predicate Traced(run: seq<State>, first: State, s: State) {
    && run != [] && run[0] == first && run[|run| - 1] == s && Inv(s)
    && forall i :: 0 <= i < |run| - 1 ==> Next(run[i], run[i + 1])
  }

  lemma {:induction false} SomeStep(s: State, s': State)
    ensures Start(s, s') || SyncData(s, s') || GiveUp(s, s') ==> Next(s, s')
    ensures Rollback(s, s', true) || Rollback(s, s', false) ==> Next(s, s')
  {
    hide Start, SyncData, GiveUp, Rollback, PutPage, TearPage, PlanList, PutList, TearList, SyncList, PutSlot;
    hide TearSlot, SyncMeta, Reopen, PowerLoss;
  }

  lemma {:induction false} Reopened(s: State, s': State, g: Gen)
    requires Recovers(false, CacheView(s.disk), g) && Reloaded(s'.mem, s.disk.size, g)
    requires s' == s.(phase := Idle, mem := s'.mem)
    ensures Next(s, s')
  {
    hide Recovers, Reloaded;
    assert Reopen(s, s', g);
  }

  lemma {:induction false} TracedStep(run: seq<State>, first: State, s: State, s': State)
    requires Traced(run, first, s) && Next(s, s')
    ensures Traced(run + [s'], first, s')
  {
    hide Inv, Next;
    NextKeeps(s, s');
    var r := run + [s'];
    forall i | 0 <= i < |r| - 1 ensures Next(r[i], r[i + 1]) {
      if i < |run| - 1 {
        assert Next(run[i], run[i + 1]);
      }
    }
  }

  /** A run goes on with any piece that starts where it ends. */
  lemma {:induction false} RunGoesOn(t: seq<State>, run: seq<State>, s: State)
    requires Run(t) && Traced(run, t[|t| - 1], s)
    ensures Run(t + run[1..]) && (t + run[1..])[|t + run[1..]| - 1] == s
  {
    hide Inv, Next, Init;
    var r := t + run[1..];
    forall i | 0 <= i < |r| - 1 ensures Next(r[i], r[i + 1]) {
      if i < |t| - 1 {
        assert Next(t[i], t[i + 1]);
      } else {
        assert Next(run[i - (|t| - 1)], run[i - (|t| - 1) + 1]);
      }
    }
  }

  // ----- Loading and supplying

  lemma {:induction false} CutNothing(d: Disk)
    requires DiskOk(d)
    ensures CutTo(d, d.size) == d
  {
    assert CutTo(d, d.size).pages == d.pages;
  }

  /** Between updates no page in use is in the supply. */
  lemma {:induction false} MemSupplied(pm: PageManagerState, live: set<nat>, pages: Store, born: seq<nat>)
    requires Owned(pm, live) && pages.Keys == live
    ensures Supplied(Snap(pages, born, pm))
  {
    hide Owned;
    OwnerNext(pm, live);
    forall x ensures multiset(pm.freePageIDs)[x] <= 1 {
      if x >= 0 {
        OwnerCount(pm, live, x);
      }
    }
    forall x | x in pm.freePageIDs ensures 1 <= x < pm.nextPageID {
      OwnerCount(pm, live, x);
    }
    forall x | x in pages ensures x != 0 && !InSupply(pm, x) {
      OwnerCount(pm, live, x);
    }
  }

  lemma {:induction false} OwnerNext(pm: PageManagerState, live: set<nat>)
    requires Owned(pm, live)
    ensures pm.nextPageID >= 1
  {
  }

  /** The pages with ids in `ids`. */
  ghost function Picked(pages: Store, ids: multiset<nat>): Store {
    map x | x in pages && x in ids :: pages[x]
  }

  lemma {:induction false} PickedBoth(reached: Store, pages: Store, a: multiset<nat>, b: multiset<nat>)
    ensures reached + Picked(pages, a) + Picked(pages, b) == reached + Picked(pages, a + b)
  {
    assert reached + Picked(pages, a) + Picked(pages, b) == reached + Picked(pages, a + b);
  }

  /** Collects the pages below `id`: the tree's pages and no others. */
  method ReachablePages(pages: Store, id: nat, reached: Store, ghost t: Tree) returns (reached': Store)
    requires Matches(pages, t) && t.id == id
    ensures reached' == reached + Picked(pages, Bag(t))
    decreases t, 1
  {
    hide Links, BagAll, Picked;
    assert t.id in Bag(t);
    MatchesHas(pages, t, t.id);
    var node := pages[id];
    PickedOne(reached, pages, id);
    reached' := reached[id := node];
    if !node.leaf {
      InnerNode(t);
      reached' := ReachableKids(pages, node, reached', t);
      PickedBoth(reached, pages, multiset{t.id}, BagAll(t.kids));
      assert Bag(t) == multiset{t.id} + BagAll(t.kids);
    } else {
      assert t.TLeaf?;
      assert Bag(t) == multiset{t.id};
    }
  }

  lemma {:induction false} PickedOne(reached: Store, pages: Store, id: nat)
    requires id in pages
    ensures reached[id := pages[id]] == reached + Picked(pages, multiset{id})
  {
  }

  method ReachableKids(pages: Store, node: Node, reached: Store, ghost t: Tree) returns (reached': Store)
    requires t.TInner? && MatchesKids(pages, t) && node.entries == Links(t.kids)
    ensures reached' == reached + Picked(pages, BagAll(t.kids))
    decreases t, 0
  {
    hide Picked, Bag, BagAll, Matches;
    reached' := reached;
    NoTrees();
    var i := 0;
    assert t.kids[..0] == [];
    assert Picked(pages, multiset{}) == map[] by {
      NonePicked(pages);
    }
    assert reached == reached + map[];
    while i < |node.entries|
      invariant 0 <= i <= |node.entries| == |t.kids|
      invariant reached' == reached + Picked(pages, BagAll(t.kids[..i]))
    {
      assert node.entries[i].ptr == t.kids[i].id;
      KidMatches(pages, t, i);
      reached' := ReachablePages(pages, node.entries[i].ptr, reached', t.kids[i]);
      PickedBoth(reached, pages, BagAll(t.kids[..i]), Bag(t.kids[i]));
      TakeStep(t.kids, i);
      BagAllAppend(t.kids[..i], [t.kids[i]]);
      Singletons(t.kids[i]);
      i := i + 1;
    }
    TakeAll(t.kids);
  }

  lemma {:induction false} NonePicked(pages: Store)
    ensures Picked(pages, multiset{}) == map[]
  {
  }

  // ----- The slots

  /** Some generation in the file passes all checks. */
  ghost predicate Repairable(d: Disk) {
    exists g :: Recovers(true, CacheView(d), g)
  }

  /** The slot of generation `gen` is as it was, and both slots are durable. */
  ghost predicate KeptSlot(d: Disk, d': Disk, gen: nat) {
    && |d.slots| == |d'.slots| == 2 && d'.slots[gen % 2] == d.slots[gen % 2]
    && d'.maybe == [{d'.slots[0]}, {d'.slots[1]}]
  }

  lemma {:induction false} SlotKept(d: Disk, m: RootMetadata)
    requires DiskOk(d) && m.generation >= 1
    ensures KeptSlot(d, Synced(WriteSlot(d, m.generation % 2, Record(m))), m.generation - 1)
  {
  }

  lemma {:induction false} SlotsSame(d: Disk, mid: Disk, d': Disk, gen: nat)
    requires mid.slots == d.slots && KeptSlot(mid, d', gen)
    ensures KeptSlot(d, d', gen)
  {
  }

  // ----- The store

  class KV {
    var file: Disk
    var pm: PageManager
    var root: nat
    var pages: Store
    var uncertain: bool
    ghost var v: Version
    ghost var commits: seq<Gen>
    ghost var log: seq<Batch>
    ghost var flight: Flight

    ghost function Now(): State
      reads this, pm
    {
      State(file, Mem(pm.Snapshot(), v, pages, uncertain), Idle, commits, log, flight)
    }

    ghost predicate Valid()
      reads this, pm
    {
      pm.Valid() && root == RootId(v) && Inv(Now())
    }

    /** Creates a new file: generation 0 in the first slot, no pages. */
    constructor Create()
      ensures Valid() && Now() == Init() && fresh(pm)
    {
      var first := Record(RootMetadata(0, 0, 0, 0, 0, 0, 0, 0));
      file := Disk([first, Blank], [{first}, {Blank}], map[], 0, {}, 0);
      pm := new PageManager(PageManagerState(1, 0, 0, 0, [], [], [], []));
      root, pages, uncertain := 0, map[], false;
      v, commits, log, flight := Empty, [NoGen()], [], Grounded;
      new;
      InitInv();
    }

    /** Writes the pages of the plan in ascending order, up to the first failure. */
    method WritePages(writes: Store, next: nat, faults: map<nat, Option<Content>>, ghost run: seq<State>,
        ghost first: State, ghost s: State)
      returns (ok: bool, ghost run': seq<State>, ghost s': State)
      requires Traced(run, first, s) && s.disk == file && s.phase.Writing? && s.phase.done == {}
      requires writes == s.phase.plan.writes && forall x :: x in writes ==> 1 <= x < next
      modifies this`file
      ensures Traced(run', first, s') && s'.disk == file && s'.phase.Writing?
      ensures s' == s.(disk := file, phase := s.phase.(done := s'.phase.done))
      ensures ok ==> s'.phase.done == writes.Keys
      ensures !ok ==> faults != map[]
      ensures file.slots == old(file.slots)
    {
      hide Traced;
      run', s' := run, s;
      var pageID := 1;
      while pageID < next
        invariant 1 <= pageID && (pageID <= next || pageID == 1)
        invariant Traced(run', first, s') && s'.disk == file && s'.phase.Writing?
        invariant s' == s.(disk := file, phase := s.phase.(done := s'.phase.done))
        invariant forall x :: x in s'.phase.done <==> x in writes && x < pageID
        invariant file.slots == old(file.slots)
      {
        if pageID in writes {
          if pageID in faults {
            if faults[pageID].Some? {
              ghost var t := s'.(disk := WriteTo(file, pageID, faults[pageID].value));
              assert TearPage(s', t, pageID, faults[pageID].value);
              TracedStep(run', first, s', t);
              run', s' := run' + [t], t;
              file := WriteTo(file, pageID, faults[pageID].value);
            }
            return false, run', s';
          }
          ghost var t := s'.(disk := WriteTo(file, pageID, TreePage(writes[pageID])),
                             phase := s'.phase.(done := s'.phase.done + {pageID}));
          assert PutPage(s', t, pageID);
          TracedStep(run', first, s', t);
          run', s' := run' + [t], t;
          file := WriteTo(file, pageID, TreePage(writes[pageID]));
        }
        pageID := pageID + 1;
      }
      ok := true;
    }

    /** Writes the pages of the new free list in order, up to the first failure. */
    method WriteList(l: Lists, faults: map<nat, Option<Content>>, ghost run: seq<State>, ghost first: State,
        ghost s: State)
      returns (ok: bool, ghost run': seq<State>, ghost s': State)
      requires Traced(run, first, s) && s.disk == file && s.phase.Listing? && s.phase.count == 0 && s.phase.l == l
      modifies this`file
      ensures Traced(run', first, s') && s'.disk == file && s'.phase.Listing?
      ensures s' == s.(disk := file, phase := s.phase.(count := s'.phase.count))
      ensures ok ==> s'.phase.count == |l.pages|
      ensures !ok ==> faults != map[]
      ensures file.slots == old(file.slots)
    {
      hide Traced, ChainNode;
      run', s' := run, s;
      var i := 0;
      while i < |l.pages|
        invariant 0 <= i <= |l.pages|
        invariant Traced(run', first, s') && s'.disk == file && s'.phase.Listing?
        invariant s' == s.(disk := file, phase := s.phase.(count := i))
        invariant file.slots == old(file.slots)
      {
        if l.pages[i] in faults {
          if faults[l.pages[i]].Some? {
            ghost var t := s'.(disk := WriteTo(file, l.pages[i], faults[l.pages[i]].value));
            assert TearList(s', t, faults[l.pages[i]].value);
            TracedStep(run', first, s', t);
            run', s' := run' + [t], t;
            file := WriteTo(file, l.pages[i], faults[l.pages[i]].value);
          }
          return false, run', s';
        }
        var page := ListPage(ChainNode(l.pages, l.free + l.retired, i));
        ghost var t := s'.(disk := WriteTo(file, l.pages[i], page), phase := s'.phase.(count := i + 1));
        assert PutList(s', t);
        TracedStep(run', first, s', t);
        run', s' := run' + [t], t;
        file := WriteTo(file, l.pages[i], page);
        i := i + 1;
      }
      ok := true;
    }

    /** Writes the record of the new generation into the slot of the older one, and syncs. */
    method WriteMetadata(m: RootMetadata, slot: nat, faults: Faults, ghost run: seq<State>, ghost first: State,
        ghost s: State)
      returns (ok: bool, ghost run': seq<State>, ghost s': State)
      requires Traced(run, first, s) && s.disk == file && s.phase.Listed? && s.phase.pm'.nextPageID >= 1
      requires m == NewGen(s, s.phase.plan, s.phase.pm', s.phase.l).m && slot == m.generation % 2
      modifies this`file
      ensures Traced(run', first, s') && s'.disk == file
      ensures ok ==> s' == s.(disk := file, phase := Idle, mem := Committed(s.mem, s.phase.plan, s.phase.pm'),
                              commits := s'.commits, log := s.log + [s.phase.plan.batch], flight := Grounded)
      ensures !ok ==> (s'.phase.Listed? || s'.phase.Published?) && s'.mem == s.mem && !Quiet(faults)
      ensures ok ==> KeptSlot(s.disk, file, s.mem.pm.generation)
    {
      hide Traced, Inv, NewGen, Committed, KeptSlot;
      run', s' := run, s;
      TracedSlots(run, first, s);
      if faults.slot.Untouched? {
        return false, run', s';
      }
      if faults.slot.Torn? {
        ghost var t := s.(disk := WriteSlot(file, slot, Blank));
        NewGenNumber(s);
        assert TearSlot(s, t);
        TracedStep(run', first, s, t);
        run', s' := run' + [t], t;
        file := WriteSlot(file, slot, Blank);
        return false, run', s';
      }
      ghost var g := NewGen(s, s.phase.plan, s.phase.pm', s.phase.l);
      ghost var t := s.(disk := WriteSlot(file, slot, Record(m)),
                        phase := Published(s.phase.plan, s.phase.pm', s.phase.l), flight := Flying(g,
                                           s.phase.plan.batch));
      assert PutSlot(s, t);
      TracedStep(run', first, s, t);
      run', s' := run' + [t], t;
      file := WriteSlot(file, slot, Record(m));
      if faults.slot.Stored? || faults.metaSync {
        return false, run', s';
      }
      t := Confirmed(s').(disk := Synced(file), phase := Idle, mem := Committed(s.mem, s.phase.plan, s.phase.pm'));
      assert SyncMeta(s', t);
      TracedStep(run', first, s', t);
      run', s' := run' + [t], t;
      file := Synced(file);
      NewGenNumber(s);
      SlotKept(s.disk, m);
      ok := true;
    }

    /**
     Publishes the written tree: stores the free list, syncs, writes the other slot, syncs.
     The checks on the new root always pass, since it has no owner but the tree.
     */
    method PublishRoot(newRoot: nat, faults: Faults, ghost run: seq<State>, ghost first: State, ghost s: State)
      returns (cause: Option<Cause>, ghost run': seq<State>, ghost s': State, ghost pm': PageManagerState)
      requires Traced(run, first, s) && s.disk == file && s.phase.Written? && newRoot == RootId(s.phase.plan.v)
      requires pm.Valid() && pm.Snapshot() == s.phase.plan.pm
      modifies this`file, pm
      ensures Traced(run', first, s') && s'.disk == file
      ensures cause.None? ==> && pm'.nextPageID >= 1 && pm.Valid() && pm.Snapshot() == s'.mem.pm
                              && s' == s.(disk := file, phase := Idle, mem := Committed(s.mem, s.phase.plan, pm'),
                                          commits := s'.commits, log := s.log + [s.phase.plan.batch],
                                          flight := Grounded)
      ensures cause.Some? ==>
                (s'.phase.Written? || s'.phase.Listing? || s'.phase.Listed? || s'.phase.Published?) && s'.mem == s.mem
      ensures cause == Some(Fault) ==> !Quiet(faults)
      ensures cause == Some(NoPagesLeft) <==> SnapshotNeeds(s.phase.plan.pm, s.disk.pages) > Fresh(s.phase.plan.pm)
      ensures cause.Some? ==> cause.value.Fault? || cause.value.NoPagesLeft?
      ensures cause.None? ==> KeptSlot(s.disk, file, s.mem.pm.generation)
    {
      hide Traced, Snapshotted, Inv, Committed, Quiet, SnapshotNeeds;
      ghost var plan := s.phase.plan;
      run', s', pm' := run, s, plan.pm;
      WrittenFacts(run, first, s);
      assert newRoot == 0 || (pm.ExistingPage(newRoot) && newRoot !in pm.retiredPageIDs + pm.pendingFreePageIDs);
      assert newRoot !in pm.freeListPageIDs;
      var nextGeneration := pm.generation + 1;
      var ok, m, l := WriteFreeListSnapshot(pm, file.pages, nextGeneration, newRoot);
      if !ok {
        return Some(NoPagesLeft), run', s', pm';
      }
      pm' := pm.Snapshot();
      ok, run', s' := StoreList(l, faults, run', first, s', pm');
      if !ok {
        return Some(Fault), run', s', pm';
      }
      ok, run', s' := WriteMetadata(m, nextGeneration % 2, faults, run', first, s');
      if !ok {
        return Some(Fault), run', s', pm';
      }
      pm.rootPageID := newRoot;
      pm.generation := nextGeneration;
      pm.committedPageCount := m.pageCount;
      pm.pendingFreePageIDs := [];
      pm.freePageSet := set x | x in pm.freePageIDs;
      CommittedPm(s.mem, plan, pm', pm.Snapshot());
      cause := None;
    }

    /** Stores the new free list durably. */
    method StoreList(l: Lists, faults: Faults, ghost run: seq<State>, ghost first: State, ghost s: State,
        ghost pm': PageManagerState)
      returns (ok: bool, ghost run': seq<State>, ghost s': State)
      requires Traced(run, first, s) && s.disk == file && s.phase.Written?
      requires Snapshotted(s.phase.plan.pm, pm', file.pages, l)
      modifies this`file
      ensures Traced(run', first, s') && s'.disk == file
      ensures ok ==> s' == s.(disk := file, phase := Listed(s.phase.plan, pm', l))
      ensures !ok ==> s'.phase.Listing? && s'.mem == s.mem && !Quiet(faults)
      ensures file.slots == old(file.slots)
    {
      hide Traced, Snapshotted, Inv;
      ghost var t := s.(phase := Listing(s.phase.plan, pm', l, 0));
      assert PlanList(s, t);
      TracedStep(run, first, s, t);
      ok, run', s' := WriteList(l, faults.list, run + [t], first, t);
      if !ok || faults.listSync {
        return false, run', s';
      }
      TracedSlots(run', first, s');
      t := s'.(disk := Synced(file), phase := Listed(s.phase.plan, pm', l));
      assert SyncList(s', t);
      TracedStep(run', first, s', t);
      run', s' := run' + [t], t;
      file := Synced(file);
    }

    lemma {:induction false} ValidFacts()
      requires Valid()
      ensures DiskOk(file) && commits != [] && Owned(pm.Snapshot(), Live(v)) && Holds(v, root, pages)
              && pages.Keys == Live(v)
    {
      hide Safe, Contents, Replay, Owned, Holds, Prepared, SlotsOk, Succeeds, DiskOk;
    }

    /** Takes back what an update has done in memory and shortens the file again, unless that fails. */
    method TakeBack(state: PageManagerState, original: nat, faults: Faults)
      requires original <= file.size
      modifies this`file, pm
      ensures pm.Valid() && pm.Snapshot() == state
      ensures file == if faults.cut then old(file) else CutTo(old(file), original)
    {
      pm.Restore(state);
      if !faults.cut {
        file := CutTo(file, original);
      }
    }

    /** Takes an update back whose pages could not all be written. */
    method Undo(state: PageManagerState, original: nat, faults: Faults, ghost run: seq<State>, ghost first: State,
        ghost s: State)
      returns (ghost run': seq<State>)
      requires Traced(run, first, s) && s == Now().(mem := s.mem, phase := s.phase)
      requires s.phase.Writing? && s.phase.orig == original <= file.size
      requires s.mem == Mem(state, v, pages, uncertain) && root == RootId(v)
      modifies this`file, pm
      ensures Valid() && pm.Snapshot() == state && Traced(run', first, Now())
    {
      hide Traced, Inv, Next;
      ghost var t := s.(disk := if faults.cut then file else CutTo(file, original), phase := Idle);
      assert Rollback(s, t, !faults.cut);
      SomeStep(s, t);
      TracedStep(run, first, s, t);
      run' := run + [t];
      TakeBack(state, original, faults);
      TracedInv(run', first, t);
      assert Now() == t;
    }

    /**
     Runs the batch and commits it. On success all of it is durable. On failure memory is as
     it was, and the file is on a path of the protocol; only if publishing failed is it
     uncertain which of the two generations the file holds.
     */
    method Commit(batch: Batch, faults: Faults) returns (r: Result, ghost run: seq<State>)
      requires Valid() && !uncertain
      modifies this, pm
      ensures Valid() && pm == old(pm) && Traced(run, old(Now()), Now())
      ensures r.Success? ==> !uncertain && flight.Grounded? && Contents(v) == ApplyAll(old(Contents(v)), batch)
      ensures r.Success? ==>
                exists before :: old(log) <= before && log == before + [batch] && Replay(before) == old(Contents(v))
      ensures !r.Success? ==> v == old(v) && pages == old(pages) && pm.Snapshot() == old(pm.Snapshot())
      ensures r.Unchanged? ==> ApplyAll(Contents(v), batch) == Contents(v) && !uncertain
      ensures r.Unchanged? ==> forall i :: 0 <= i < |batch| ==> batch[i].Delete? && batch[i].key !in Contents(v)
      ensures r.Success? ==>
                exists i :: 0 <= i < |batch|
                            && (batch[i].Set? || batch[i].key in ApplyAll(old(Contents(v)), batch[..i]))
      ensures r.Success? ==> pm.generation == old(pm.generation) + 1
      ensures r.Success? || r.Unchanged? ==> Accepted(old(v), batch, v)
      ensures r.Failed? && r.cause.BadMutation? ==>
                !uncertain && r.cause.index < |batch| && RefusedAt(v, batch, r.cause.index)
      ensures r == Failed(Fault) ==> !Quiet(faults)
      ensures r == Failed(NoPagesLeft) ==> NearlyFull(old(pm.nextPageID), HeightOf(v), |batch|)
      ensures r != Failed(NoRepair)
      ensures r.Success? ==> KeptSlot(old(file), file, old(pm.generation))
      ensures r.Success? && old(flight).Grounded? ==> log == old(log) + [batch]
    {
      hide Traced, Inv, Prepared, Holds, Contents, ApplyAll, Advanced, Supplied, Replay, Committed, KeptSlot;
      hide Within, SnapshotNeeds, NearlyFull, RefusedAt, Accepted, BatchPages, AltersAt, Next;
      var state := pm.Snapshot();
      var original := file.size;
      ghost var first := Now();
      run := [first];
      ValidFacts();
      TracedStart(first);
      CutNothing(file);
      var tree := new PageTree(root, pages, pm);
      MemSupplied(pm.Snapshot(), Live(v), pages, tree.born);
      ghost var a := tree.Now();
      var change, v' := ApplyMutations(tree, batch, v);
      if !change.Done? || !change.changed {
        TakeBack(state, original, faults);
        if change.OutOfPages? {
          BatchShort(state, HeightOf(v), |batch|);
        }
        if change.Rejected? {
          RefusedAtMeans(v, batch, change.index);
        }
        if change.Done? {
          IdleMeans(batch, Contents(v), |batch|);
        }
        r := if change.Rejected? then Failed(BadMutation(change.index))
             else if change.OutOfPages? then Failed(NoPagesLeft)
             else Unchanged;
        return;
      }
      AltersMeans(batch, Contents(v));
      var writes := NewPages(pages, tree.pages);
      ghost var plan := Plan(batch, pm.Snapshot(), v', writes);
      HeldRoot(v', tree.root, tree.pages);
      AdvancedPages(a, tree.Now(), v, v');
      AdvancedPrepares(first.mem, a, tree.Now(), v', batch);
      ghost var s := first.(phase := Writing(plan, {}, original));
      assert Start(first, s);
      SomeStep(first, s);
      TracedStep(run, first, first, s);
      run := run + [s];
      PreparedWrites(first.mem, plan);
      var ok;
      ok, run, s := WritePages(writes, pm.nextPageID, faults.page, run, first, s);
      TracedSize(run, first, s);
      if !ok || faults.dataSync {
        run := Undo(state, original, faults, run, first, s);
        return Failed(Fault), run;
      }
      ghost var t := Confirmed(s).(disk := Synced(file), phase := Written(plan));
      assert SyncData(s, t);
      SomeStep(s, t);
      TracedStep(run, first, s, t);
      run := run + [t];
      file := Synced(file);
      TracedInv(run, first, t);
      ConfirmedLog(first, t, plan);
      if SnapshotNeeds(pm.Snapshot(), file.pages) > Fresh(pm.Snapshot()) {
        ListShort(a, tree.Now(), v, v', |batch|, file.pages);
      }
      r, run := Finish(state, tree.root, tree.pages, faults, run, first, t);
      if r.Success? {
        SlotsSame(first.disk, t.disk, file, state.generation);
      }
    }

    /** Gives publishing up: memory is as before the update, and it is unknown what the file holds. */
    method Abandon(state: PageManagerState, ghost run: seq<State>, ghost first: State, ghost s: State)
      returns (ghost run': seq<State>)
      requires Traced(run, first, s) && s == Now().(mem := s.mem, phase := s.phase)
      requires s.phase.Written? || s.phase.Listing? || s.phase.Listed? || s.phase.Published?
      requires s.mem == Mem(state, v, pages, uncertain) && root == RootId(v)
      modifies this`uncertain, pm
      ensures Valid() && uncertain && pm.Snapshot() == state && Traced(run', first, Now())
    {
      hide Traced, Inv, Next;
      ghost var t := s.(phase := Idle, mem := s.mem.(uncertain := true));
      assert GiveUp(s, t);
      SomeStep(s, t);
      TracedStep(run, first, s, t);
      run' := run + [t];
      pm.Restore(state);
      uncertain := true;
      TracedInv(run', first, t);
      assert Now() == t;
    }

    /** Publishes the written tree and moves memory on to it, or leaves memory as it was. */
    method Finish(state: PageManagerState, newRoot: nat, working: Store, faults: Faults, ghost run: seq<State>,
        ghost first: State, ghost s: State)
      returns (r: Result, ghost run': seq<State>)
      requires Traced(run, first, s) && s.disk == file && s.phase.Written? && newRoot == RootId(s.phase.plan.v)
      requires pm.Valid() && pm.Snapshot() == s.phase.plan.pm && state == s.mem.pm && root == RootId(s.mem.v)
      requires pages == s.mem.pages && v == s.mem.v && working == pages + s.phase.plan.writes && !uncertain
      modifies this, pm
      ensures Valid() && pm == old(pm) && Traced(run', first, Now())
      ensures r.Success? ==>
                !uncertain && flight.Grounded? && v == s.phase.plan.v && log == s.log + [s.phase.plan.batch]
                && pm.generation == s.mem.pm.generation + 1
      ensures !r.Success? ==>
                v == old(v) && pages == old(pages) && pm.Snapshot() == state && r.Failed?
                && (r.cause.Fault? || r.cause.NoPagesLeft?)
      ensures r == Failed(Fault) ==> !Quiet(faults)
      ensures r == Failed(NoPagesLeft) <==> SnapshotNeeds(s.phase.plan.pm, s.disk.pages) > Fresh(s.phase.plan.pm)
      ensures r.Success? ==> KeptSlot(s.disk, file, s.mem.pm.generation)
    {
      hide Traced, Inv, Prepared, Holds, Contents, ApplyAll, Quiet, Committed, Live, SnapshotNeeds, KeptSlot, Next;
      ghost var plan := s.phase.plan;
      WrittenHeld(run, first, s);
      var cause;
      ghost var s', pm';
      cause, run', s', pm' := PublishRoot(newRoot, faults, run, first, s);
      commits, log, flight := s'.commits, s'.log, s'.flight;
      if cause.Some? {
        run' := Abandon(state, run', first, s');
        return Failed(cause.value), run';
      }
      pages := ReachablePageMap(working, newRoot, plan.v);
      root, v := newRoot, plan.v;
      CommittedMem(s.mem, plan, pm', pages);
      TracedInv(run', first, s');
      assert Now() == s';
      r := Success;
    }

    /** The newest generation that is whole in the file. */
    ghost function Newest(): Gen
      requires DiskOk(file) && commits != []
      reads this
    {
      Pick(commits[|commits| - 1], flight, CacheView(file))
    }

    /**
     Reads the state back from the file: it succeeds exactly when some generation passes all
     checks, and loads the newest that does. If the newest whole generation is tidy, that is
     the one, and loading it is a step of the protocol. If it is not, it is passed over for
     an older one: the base, where that is tidy and the newest was in flight.
     */
    method Repair() returns (ok: bool, ghost found: Gen)
      requires Valid() && DiskOk(file) && commits != []
      modifies this
      ensures ok <==> Repairable(file)
      ensures ok ==> Recovers(true, CacheView(file), found) && fresh(pm) && pm.Valid() && root == RootId(v)
                     && Reloaded(Mem(pm.Snapshot(), v, pages, uncertain), file.size, found)
      ensures ok ==> pm.nextPageID == file.size + 1
      ensures TidyVersion(old(Newest()).v) ==>
                && ok && Valid() && !uncertain && found == old(Newest()) && v == found.v
                && Next(old(Now()), Now())
      ensures !TidyVersion(old(Newest()).v) && ok ==> found.m.generation < old(Newest()).m.generation
      ensures !TidyVersion(old(Newest()).v) && old(Newest()) != old(Base(Now())) && TidyVersion(old(Base(Now())).v) ==>
                ok && found == old(Base(Now()))
      ensures !ok ==> unchanged(this)
      ensures file == old(file)
    {
      hide Inv, Holds, Loads, Reconciled, TidyVersion, Recovers, Core, Next, Pick, Reloaded, Replay, Contents;
      ghost var s, g, w := Now(), Newest(), CacheView(file);
      InvCore(s);
      var pm' := new PageManager(PageManagerState(file.size + 1, 0, 0, 0, [], [], [], []));
      var loaded;
      loaded, found := RecoverCommittedPages(View(file.slots, file.pages, file.size), pm');
      RepairFinds(s, loaded.Some?, found);
      if loaded.None? {
        return false, found;
      }
      pm, pages, root, uncertain, v := pm', loaded.value, pm'.rootPageID, false, found.v;
      ok := true;
      assert Recovers(true, CacheView(file), found);
      LoadedFacts(w, pm.Snapshot(), pages, found);
      if TidyVersion(g.v) {
        Reopened(s, Now(), g);
        NextKeeps(s, Now());
      }
    }

    /**
     One update of the store: repairs first if the last one left it uncertain which
     generation the file holds, then commits the batch on top of what was found. Without
     anything to repair from it changes nothing.
     */
    method Update(batch: Batch, faults: Faults) returns (r: Result, ghost run: seq<State>)
      requires Valid() && DiskOk(file) && commits != []
      requires uncertain && !TidyVersion(Newest().v) ==> !Repairable(file)
      modifies this, pm
      ensures Valid() && Traced(run, old(Now()), Now())
      ensures r.Success? ==> !uncertain && flight.Grounded? && Replay(log) == Contents(v)
      ensures r.Success? ==>
                Contents(v) == ApplyAll(Contents(if old(uncertain) then old(Newest()).v else old(v)), batch)
      ensures r.Success? ==> old(log) < log && log[|log| - 1] == batch
      ensures !r.Success? && !uncertain ==> v == if old(uncertain) then old(Newest()).v else old(v)
      ensures Quiet(faults) ==> r != Failed(Fault)
      ensures r == Failed(NoPagesLeft) ==>
                if old(uncertain) then NearlyFull(old(file).size + 1, HeightOf(old(Newest()).v), |batch|)
                else NearlyFull(old(pm.nextPageID), HeightOf(old(v)), |batch|)
      ensures r.Failed? && r.cause.BadMutation? ==>
                r.cause.index < |batch|
                && RefusedAt(if old(uncertain) then old(Newest()).v else old(v), batch, r.cause.index)
      ensures r == Failed(NoRepair) <==> old(uncertain && !Repairable(file))
      ensures r == Failed(NoRepair) ==> Now() == old(Now())
      ensures r.Success? || r.Unchanged? ==> Accepted(if old(uncertain) then old(Newest()).v else old(v), batch, v)
    {
      hide Traced, Inv, TidyVersion, Contents, ApplyAll, Replay, Quiet, Recovers, NearlyFull, RefusedAt, Reloaded, Next;
      hide CacheView, Pick, Accepted, KeptSlot, Repairable;
      ghost var first := Now();
      TracedStart(first);
      ghost var head := [first];
      if uncertain {
        var ok, found := Repair();
        if !ok {
          return Failed(NoRepair), head;
        }
        TracedStep(head, first, first, Now());
        NextLog(first, Now());
        head := head + [Now()];
      }
      ghost var tail;
      r, tail := Commit(batch, faults);
      TracedJoin(head, tail, first, head[|head| - 1], Now());
      run := head + tail[1..];
      ReplayIs(Now());
    }
  }

  /** The pages of the tree below `root`. */
  method ReachablePageMap(pages: Store, root: nat, ghost v: Version) returns (reached: Store)
    requires Holds(v, root, pages)
    ensures reached == map x | x in pages && x in Live(v) :: pages[x]
  {
    hide Matches, Bag;
    reached := map[];
    if root != 0 {
      reached := ReachablePages(pages, root, map[], v.tree);
    }
    assert reached == map x | x in pages && x in Live(v) :: pages[x];
  }

  lemma {:induction false} CommittedMem(mem: Mem, plan: Plan, pm': PageManagerState, reached: Store)
    requires pm'.nextPageID >= 1
    requires reached == map x | x in mem.pages + plan.writes && x in Live(plan.v) :: (mem.pages + plan.writes)[x]
    ensures var mem' := Committed(mem, plan, pm');
            mem'.v == plan.v && mem'.pages == reached && mem'.uncertain == mem.uncertain
            && mem'.pm.generation == mem.pm.generation + 1
  {
  }

  lemma {:induction false} WrittenHeld(run: seq<State>, first: State, s: State)
    requires Traced(run, first, s) && s.phase.Written?
    ensures Holds(s.phase.plan.v, RootId(s.phase.plan.v), s.mem.pages + s.phase.plan.writes) && !s.mem.uncertain
  {
    hide Next, Core, Contents, ApplyAll, Holds, MemAt, Owned;
  }

  lemma {:induction false} LoadedFacts(w: View, pm: PageManagerState, pages: Store, g: Gen)
    requires Loads(w, pm, pages, g)
    ensures Reloaded(Mem(pm, g.v, pages, false), w.size, g)
    ensures pm.rootPageID == RootId(g.v) && pm.generation == g.m.generation && pm.nextPageID == w.size + 1
  {
    hide Owned, Matches, Sound, Unclaimed;
  }

  /** What the newest generation in the file and the checks on it say about a repair. */
  lemma {:induction false} RepairFinds(s: State, ok: bool, found: Gen)
    requires Core(s.disk, s.commits, s.log, s.flight) && DiskOk(s.disk) && s.commits != []
    requires ok <==> exists u :: Recovers(true, CacheView(s.disk), u)
    requires ok ==> Recovers(true, CacheView(s.disk), found)
    ensures var g := Pick(Base(s), s.flight, CacheView(s.disk));
            && Recovers(false, CacheView(s.disk), g)
            && (TidyVersion(g.v) ==> ok && found == g)
            && (!TidyVersion(g.v) && ok ==> found.m.generation < g.m.generation)
            && (!TidyVersion(g.v) && g != Base(s) && TidyVersion(Base(s).v) ==> ok && found == Base(s))
  {
    hide Recovers, TidyVersion, Core, CrashView;
    var w := CacheView(s.disk);
    var g := Pick(Base(s), s.flight, w);
    CacheIsCrashView(s.disk);
    CrashPicks(s.disk, s.commits, s.log, s.flight, w);
    StrictIffTidy(w, g);
    SlotsApart(s, w);
    if TidyVersion(g.v) {
      RecoversOnce(true, w, g, found);
    } else {
      if ok {
        PassedOver(w, g, found);
      }
      if g != Base(s) && TidyVersion(Base(s).v) {
        BaseNext(s);
        RecoversOnce(true, w, Base(s), found);
      }
    }
  }

  /** With an untidy generation in flight, what is left to recover is the base. */
  lemma {:induction false} BaseNext(s: State)
    requires Core(s.disk, s.commits, s.log, s.flight) && DiskOk(s.disk)
    requires Pick(Base(s), s.flight, CacheView(s.disk)) != Base(s)
    requires !TidyVersion(Pick(Base(s), s.flight, CacheView(s.disk)).v) && TidyVersion(Base(s).v)
    ensures Recovers(true, CacheView(s.disk), Base(s))
  {
    hide Intact, TidyVersion, Replay, Contents, Succeeds;
    var w, i := CacheView(s.disk), Base(s).m.generation % 2;
    CacheIsCrashView(s.disk);
    SafeCrash(s.disk, w, Base(s));
    SafeCrash(s.disk, w, s.flight.gen);
    assert w.slots[i] in s.disk.maybe[i];
    forall u: Gen | u.m == s.flight.gen.m
      ensures !Opens(true, w.pages, w.size, u)
    {
      UntidyShut(w, s.flight.gen, u);
    }
    assert Chosen(true, w, i, Base(s));
  }

  lemma {:induction false} TracedStart(s: State)
    requires Inv(s)
    ensures Traced([s], s, s)
  {
  }

  lemma {:induction false} TracedJoin(head: seq<State>, tail: seq<State>, first: State, mid: State, last: State)
    requires Traced(head, first, mid) && Traced(tail, mid, last)
    ensures tail != [] && Traced(head + tail[1..], first, last)
  {
    hide Next, Inv;
    var r := head + tail[1..];
    forall i | 0 <= i < |r| - 1 ensures Next(r[i], r[i + 1]) {
      if i < |head| - 1 {
        assert Next(head[i], head[i + 1]);
      } else {
        assert Next(tail[i - (|head| - 1)], tail[i - (|head| - 1) + 1]);
      }
    }
  }

  /** Once nothing is in flight, memory holds the map of the confirmed batches. */
  lemma {:induction false} ReplayIs(s: State)
    requires Inv(s)
    ensures s.flight.Grounded? ==> Replay(s.log) == Contents(s.mem.v)
  {
    hide Safe, Contents, Replay, Owned, Holds, Prepared, SlotsOk, Succeeds, DiskOk;
  }

  lemma {:induction false} TracedInv(run: seq<State>, first: State, s: State)
    requires Traced(run, first, s)
    ensures Inv(s)
  {
  }

  lemma {:induction false} HeldRoot(v: Version, root: nat, pages: Store)
    requires Holds(v, root, pages)
    ensures root == RootId(v)
  {
  }

  lemma {:induction false} PreparedWrites(mem: Mem, plan: Plan)
    requires Prepared(mem, plan)
    ensures forall x :: x in plan.writes ==> 1 <= x < plan.pm.nextPageID
  {
  }

  lemma {:induction false} TracedSize(run: seq<State>, first: State, s: State)
    requires Traced(run, first, s) && s.phase.Writing?
    ensures DiskOk(s.disk) && s.phase.orig <= s.disk.size
  {
    hide Next, Safe, Contents, Replay, Owned, Holds, Prepared, ListOk;
  }

  /** The batches confirmed once the tree pages are synced are those that memory reflects. */
  lemma {:induction false} ConfirmedLog(first: State, t: State, plan: Plan)
    requires Inv(first) && Inv(t) && first.phase.Idle? && t.phase.Written? && t.mem == first.mem && !first.mem.uncertain
    requires t.log == Confirmed(first).log
    ensures first.log <= t.log && Replay(t.log) == Contents(first.mem.v)
  {
    hide Safe, Contents, Replay, Owned, Holds, Prepared, SlotsOk, Succeeds, DiskOk;
  }

  lemma {:induction false} TracedSlots(run: seq<State>, first: State, s: State)
    requires Traced(run, first, s)
    ensures DiskOk(s.disk) && s.commits != [] && (s.phase.Listed? ==> s.flight.Grounded?)
  {
    hide Next, Safe, Contents, Replay, Owned, Holds, Prepared, ListOk;
  }

  lemma {:induction false} NewGenNumber(s: State)
    requires s.phase.Listed? && s.phase.pm'.nextPageID >= 1
    ensures NewGen(s, s.phase.plan, s.phase.pm', s.phase.l).m.generation == s.mem.pm.generation + 1
  {
  }

  /** The new root has no owner but the tree. */
  lemma {:induction false} WrittenFacts(run: seq<State>, first: State, s: State)
    requires Traced(run, first, s) && s.phase.Written?
    ensures var pm, root := s.phase.plan.pm, RootId(s.phase.plan.v);
            && pm.nextPageID >= 1 && pm.generation == s.mem.pm.generation && root !in pm.freeListPageIDs
            && (root != 0 ==> && 1 <= root < pm.nextPageID && root !in pm.freePageIDs
                              && root !in pm.retiredPageIDs && root !in pm.pendingFreePageIDs)
  {
    hide Next, Core, Contents, ApplyAll, Holds, MemAt, Owned;
    var plan := s.phase.plan;
    PlanPages(s.mem, plan);
    OwnerCount(plan.pm, Live(plan.v), RootId(plan.v));
  }

  lemma {:induction false} CommittedPm(mem: Mem, plan: Plan, pm': PageManagerState, now: PageManagerState)
    requires pm'.nextPageID >= 1
    requires now == pm'.(rootPageID := RootId(plan.v), generation := mem.pm.generation + 1,
                         committedPageCount := pm'.nextPageID - 1, pendingFreePageIDs := [])
    ensures Committed(mem, plan, pm').pm == now
  {
  }
}
