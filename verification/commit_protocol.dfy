/**
 The commit protocol as a state machine. An update is prepared in memory, its tree pages
 are written and synced, then the pages of the new free list, then the metadata slot. The
 process may fail, restart or lose power between any two steps and within any write.
 */
module CommitProtocol {
  import opened ByteStrings
  import opened Entries
  import opened PageTrees
  import opened PageManagers
  import opened PageUpdates
  import opened PageLoading
  import opened PageLoaders
  import opened FreeLists
  import opened Recovery
  import opened PageFiles

  // ----- What clients ask for

  datatype Mutation = Set(key: Bytes, value: Bytes) | Delete(key: Bytes)

  type Batch = seq<Mutation>

  function Apply(m: map<Bytes, Bytes>, op: Mutation): map<Bytes, Bytes> {
    match op
    case Set(key, value) => m[key := value]
    case Delete(key) => m - {key}
  }

  function ApplyAll(m: map<Bytes, Bytes>, batch: Batch): map<Bytes, Bytes> {
    if batch == [] then m else Apply(ApplyAll(m, batch[..|batch| - 1]), batch[|batch| - 1])
  }

  /** The map after all batches of a log. */
  function Replay(log: seq<Batch>): map<Bytes, Bytes> {
    if log == [] then map[] else ApplyAll(Replay(log[..|log| - 1]), log[|log| - 1])
  }

  // ----- The states

  /** What the process holds in memory between updates. */
  datatype Mem = Mem(pm: PageManagerState, v: Version, pages: Store, uncertain: bool)

  /** A prepared update: the new version, the pages to write, and who owns which page then. */
  datatype Plan = Plan(batch: Batch, pm: PageManagerState, v: Version, writes: Store)

  datatype Phase =
    | Idle
    | Writing(plan: Plan, done: set<nat>, orig: nat)
    | Written(plan: Plan)
    | Listing(plan: Plan, pm': PageManagerState, l: Lists, count: nat)
    | Listed(plan: Plan, pm': PageManagerState, l: Lists)
    | Published(plan: Plan, pm': PageManagerState, l: Lists)

  /** A generation whose record may be in a slot although no sync has confirmed it. */
  datatype Flight = Grounded | Flying(gen: Gen, batch: Batch)

  /**
   `commits` are the generations confirmed so far, the last of which is the base that any
   crash leaves whole; `log` the batches between them. Both are history: no step reads them.
   */
  datatype State = State(disk: Disk, mem: Mem, phase: Phase, commits: seq<Gen>, log: seq<Batch>, flight: Flight)

  function RootId(v: Version): nat {
    if v.Empty? then 0 else v.tree.id
  }

  function Base(s: State): Gen
    requires s.commits != []
  {
    s.commits[|s.commits| - 1]
  }

  /** The generation that a published plan stands for. */
  function NewGen(s: State, plan: Plan, pm': PageManagerState, l: Lists): Gen
    requires pm'.nextPageID >= 1
  {
    Gen(SnapshotMetadata(s.mem.pm.generation + 1, RootId(plan.v), pm'.nextPageID - 1, l), l, plan.v)
  }

  // ----- The steps

  /** An update that leaves every page in use alone and accounts for all pages. */
  ghost predicate Prepared(mem: Mem, plan: Plan) {
    && Holds(plan.v, RootId(plan.v), mem.pages + plan.writes)
    && Owned(plan.pm, Live(plan.v))
    && plan.pm == mem.pm.(nextPageID := plan.pm.nextPageID, freePageIDs := plan.pm.freePageIDs,
                          pendingFreePageIDs := plan.pm.pendingFreePageIDs)
    && mem.pm.nextPageID <= plan.pm.nextPageID
    && multiset(plan.pm.freePageIDs) <= multiset(mem.pm.freePageIDs)
    && (forall x :: x in plan.writes ==> 1 <= x < plan.pm.nextPageID && InSupply(mem.pm, x))
    && (forall x :: mem.pm.nextPageID <= x < plan.pm.nextPageID ==> x in plan.writes)
    && (forall x :: x in Live(plan.v) ==> x in plan.writes || x in Live(mem.v))
    && Contents(plan.v) == ApplyAll(Contents(mem.v), plan.batch)
  }

  ghost predicate Start(s: State, s': State) {
    && s.phase.Idle? && !s.mem.uncertain && s'.phase.Writing?
    && Prepared(s.mem, s'.phase.plan)
    && s' == s.(phase := Writing(s'.phase.plan, {}, s.disk.size))
  }

  ghost predicate PutPage(s: State, s': State, id: nat) {
    && s.phase.Writing? && id in s.phase.plan.writes && id !in s.phase.done
    && s' == s.(disk := WriteTo(s.disk, id, TreePage(s.phase.plan.writes[id])),
                phase := s.phase.(done := s.phase.done + {id}))
  }

  /** A write that fails may leave anything in the page. */
  ghost predicate TearPage(s: State, s': State, id: nat, c: Content) {
    && s.phase.Writing? && id in s.phase.plan.writes && id !in s.phase.done
    && s' == s.(disk := WriteTo(s.disk, id, c))
  }

  /** Gives an update up before anything is published; shortening the file may fail. */
  ghost predicate Rollback(s: State, s': State, cut: bool) {
    && s.phase.Writing?
    && s' == s.(disk := if cut then CutTo(s.disk, s.phase.orig) else s.disk, phase := Idle)
  }

  ghost predicate SyncData(s: State, s': State) {
    && s.phase.Writing? && s.phase.done == s.phase.plan.writes.Keys && |s.disk.slots| == 2
    && s' == Confirmed(s).(disk := Synced(s.disk), phase := Written(s.phase.plan))
  }

  /** A sync settles what may have been in flight. */
  function Confirmed(s: State): State {
    if s.flight.Grounded? then s
    else s.(commits := s.commits + [s.flight.gen], log := s.log + [s.flight.batch], flight := Grounded)
  }

  ghost predicate PlanList(s: State, s': State) {
    && s.phase.Written? && s'.phase.Listing?
    && Snapshotted(s.phase.plan.pm, s'.phase.pm', s.disk.pages, s'.phase.l)
    && s' == s.(phase := Listing(s.phase.plan, s'.phase.pm', s'.phase.l, 0))
  }

  ghost predicate PutList(s: State, s': State) {
    && s.phase.Listing? && s.phase.count < |s.phase.l.pages|
    && var l, i := s.phase.l, s.phase.count;
       s' == s.(disk := WriteTo(s.disk, l.pages[i], ListPage(ChainNode(l.pages, l.free + l.retired, i))),
                phase := s.phase.(count := i + 1))
  }

  ghost predicate TearList(s: State, s': State, c: Content) {
    && s.phase.Listing? && s.phase.count < |s.phase.l.pages|
    && s' == s.(disk := WriteTo(s.disk, s.phase.l.pages[s.phase.count], c))
  }

  ghost predicate SyncList(s: State, s': State) {
    && s.phase.Listing? && s.phase.count == |s.phase.l.pages| && |s.disk.slots| == 2
    && s' == s.(disk := Synced(s.disk), phase := Listed(s.phase.plan, s.phase.pm', s.phase.l))
  }

  ghost predicate PutSlot(s: State, s': State) {
    && s.phase.Listed? && s.phase.pm'.nextPageID >= 1 && |s.disk.slots| == 2 && |s.disk.maybe| == 2
    && var g := NewGen(s, s.phase.plan, s.phase.pm', s.phase.l);
       s' == s.(disk := WriteSlot(s.disk, g.m.generation % 2, Record(g.m)),
                phase := Published(s.phase.plan, s.phase.pm', s.phase.l), flight := Flying(g, s.phase.plan.batch))
  }

  /** A slot write that fails half way leaves no readable record. */
  ghost predicate TearSlot(s: State, s': State) {
    && s.phase.Listed? && |s.disk.slots| == 2 && |s.disk.maybe| == 2
    && s' == s.(disk := WriteSlot(s.disk, (s.mem.pm.generation + 1) % 2, Blank))
  }

  /** The last sync: the update is acknowledged. */
  ghost predicate SyncMeta(s: State, s': State) {
    && s.phase.Published? && |s.disk.slots| == 2 && s.phase.pm'.nextPageID >= 1
    && s' == Confirmed(s).(disk := Synced(s.disk), phase := Idle,
                           mem := Committed(s.mem, s.phase.plan, s.phase.pm'))
  }

  ghost function Committed(mem: Mem, plan: Plan, pm': PageManagerState): Mem
    requires pm'.nextPageID >= 1
  {
    var all := mem.pages + plan.writes;
    Mem(pm'.(rootPageID := RootId(plan.v), generation := mem.pm.generation + 1,
             committedPageCount := pm'.nextPageID - 1, pendingFreePageIDs := []),
        plan.v, map x | x in all && x in Live(plan.v) :: all[x], mem.uncertain)
  }

  /** An error after the tree pages were synced: what the file says is not known. */
  ghost predicate GiveUp(s: State, s': State) {
    && (s.phase.Written? || s.phase.Listing? || s.phase.Listed? || s.phase.Published?)
    && s' == s.(phase := Idle, mem := s.mem.(uncertain := true))
  }

  /** Memory as opening fills it. */
  ghost predicate Reloaded(mem: Mem, size: nat, g: Gen) {
    && mem.pm == Reconciled(size, g) && mem.v == g.v && !mem.uncertain
    && Holds(g.v, g.m.rootPageID, mem.pages) && mem.pages.Keys == Live(g.v)
  }

  /** A repair, or a restart of the process, reads the file as it has been written. */
  ghost predicate Reopen(s: State, s': State, g: Gen) {
    && Recovers(false, CacheView(s.disk), g) && Reloaded(s'.mem, s.disk.size, g)
    && s' == s.(phase := Idle, mem := s'.mem)
  }

  /** A loss of power, after which the file is opened again. */
  ghost predicate PowerLoss(s: State, s': State, w: View, g: Gen) {
    && s.commits != [] && CrashView(s.disk, w) && |w.slots| == 2
    && Recovers(false, w, g) && Reloaded(s'.mem, w.size, g)
    && s' == (if g == Base(s) then s.(flight := Grounded) else Confirmed(s))
             .(disk := AfterCrash(w), phase := Idle, mem := s'.mem)
  }

  ghost predicate Next(s: State, s': State) {
    || Start(s, s')
    || (exists id :: PutPage(s, s', id))
    || (exists id, c :: TearPage(s, s', id, c))
    || Rollback(s, s', true) || Rollback(s, s', false)
    || SyncData(s, s')
    || PlanList(s, s') || PutList(s, s')
    || (exists c :: TearList(s, s', c))
    || SyncList(s, s')
    || PutSlot(s, s') || TearSlot(s, s')
    || SyncMeta(s, s') || GiveUp(s, s')
    || (exists g :: Reopen(s, s', g))
    || (exists w, g :: PowerLoss(s, s', w, g))
  }

  /** A new file: generation 0, no pages. */
  function NoGen(): Gen {
    Gen(RootMetadata(0, 0, 0, 0, 0, 0, 0, 0), Lists([], [], []), Empty)
  }

  /** The empty generation is whole in every file. */
  lemma {:induction false} NoGenIntact(pages: Pages, size: nat)
    ensures Intact(pages, size, NoGen()) && TidyVersion(NoGen().v)
  {
  }

  function Init(): State {
    var slots := [Record(NoGen().m), Blank];
    State(Disk(slots, [{slots[0]}, {slots[1]}], map[], 0, {}, 0),
          Mem(PageManagerState(1, 0, 0, 0, [], [], [], []), Empty, map[], false),
          Idle, [NoGen()], [], Grounded)
  }

  ghost predicate Run(t: seq<State>) {
    && t != [] && t[0] == Init()
    && forall i :: 0 <= i < |t| - 1 ==> Next(t[i], t[i + 1])
  }

  // ----- The invariant

  /** `b` may follow `a`: what `b` hands out for reuse is no page of `a`. */
  ghost predicate Succeeds(a: Gen, b: Gen) {
    && Footprint(a) !! IdSet(b.l.free)
    && (forall x :: x in Footprint(a) ==> x <= b.m.pageCount)
  }

  ghost predicate SlotsOk(d: Disk, base: Gen, flight: Flight) {
    var i := base.m.generation % 2;
    && |d.slots| == 2 && |d.maybe| == 2
    && d.maybe[i] == {Record(base.m)}
    && (forall r :: r in d.maybe[1 - i] ==>
          || r.Blank? || r.m.generation < base.m.generation
          || (flight.Flying? && r == Record(flight.gen.m)))
    && (flight.Flying? ==> d.slots[1 - i] == Record(flight.gen.m) && flight.gen.m.generation == base.m.generation + 1)
  }

  /** What holds of the file and its history at every moment. */
  ghost predicate Core(d: Disk, commits: seq<Gen>, log: seq<Batch>, flight: Flight) {
    && DiskOk(d) && commits != []
    && var base := commits[|commits| - 1];
       && SlotsOk(d, base, flight) && Safe(d, base)
       && Contents(base.v) == Replay(log)
       && (|commits| > 1 ==> Succeeds(commits[|commits| - 2], base))
       && (flight.Flying? ==>
             && Safe(d, flight.gen) && Succeeds(base, flight.gen)
             && Contents(flight.gen.v) == Replay(log + [flight.batch]))
  }

  ghost predicate MemAt(mem: Mem, g: Gen, size: nat) {
    && mem.pm.generation == g.m.generation && mem.pm.freePageIDs == g.l.free
    && mem.pm.retiredPageIDs == g.l.retired && mem.pm.freeListPageIDs == g.l.pages
    && mem.v == g.v && Holds(mem.v, RootId(mem.v), mem.pages) && mem.pages.Keys == Live(mem.v)
    && Owned(mem.pm, Live(mem.v)) && mem.pm.nextPageID <= size + 1
    && g.m.pageCount < mem.pm.nextPageID
  }

  /** The generation memory is at: the one in flight after a repair has found it, else the base. */
  function At(s: State): Gen
    requires s.commits != []
  {
    if s.flight.Flying? && !s.mem.uncertain && !s.phase.Published? then s.flight.gen else Base(s)
  }

  ghost predicate PlanOk(s: State, plan: Plan) {
    s.flight.Grounded? && !s.mem.uncertain && Prepared(s.mem, plan) && plan.pm.nextPageID <= s.disk.size + 1
    && Holds(plan.v, RootId(plan.v), TreeStore(s.disk.pages))
  }

  ghost predicate ListOk(plan: Plan, pm': PageManagerState, l: Lists) {
    && exists disk :: Snapshotted(plan.pm, pm', disk, l)
  }

  ghost predicate ListWritten(d: Disk, l: Lists, count: nat) {
    forall i: nat :: i < count && i < |l.pages| ==>
      l.pages[i] in d.pages && d.pages[l.pages[i]] == ListPage(ChainNode(l.pages, l.free + l.retired, i))
  }

  ghost predicate PhaseOk(s: State)
    requires s.commits != []
  {
    match s.phase
    case Idle => true
    case Writing(plan, done, orig) =>
      && !s.mem.uncertain && Prepared(s.mem, plan) && done <= plan.writes.Keys
      && (forall x :: x in done ==> x in s.disk.pages && s.disk.pages[x] == TreePage(plan.writes[x]))
      && orig <= s.disk.size && s.mem.pm.nextPageID <= orig + 1
    case Written(plan) => PlanOk(s, plan)
    case Listing(plan, pm', l, count) => PlanOk(s, plan) && ListOk(plan, pm', l) && count <= |l.pages|
    && ListWritten(s.disk, l, count)
    case Listed(plan, pm', l) =>
      && PlanOk(s, plan) && ListOk(plan, pm', l) && 1 <= pm'.nextPageID <= s.disk.size + 1
      && Safe(s.disk, NewGen(s, plan, pm', l))
    case Published(plan, pm', l) =>
      && !s.mem.uncertain && Prepared(s.mem, plan) && ListOk(plan, pm', l) && 1 <= pm'.nextPageID <= s.disk.size + 1
      && s.flight == Flying(NewGen(s, plan, pm', l), plan.batch)
  }

  /** Memory, the file and the history agree. */
  ghost predicate Inv(s: State) {
    && Core(s.disk, s.commits, s.log, s.flight)
    && MemAt(s.mem, At(s), s.disk.size)
    && Base(s).m.pageCount < s.mem.pm.nextPageID
    && PhaseOk(s)
  }

  // ----- What a crash leaves

  /** The generation that the slots of a crashed file lead to. */
  function Pick(base: Gen, flight: Flight, w: View): Gen
    requires |w.slots| == 2
  {
    if flight.Flying? && w.slots[1 - base.m.generation % 2] == Record(flight.gen.m) then flight.gen else base
  }

  /** Whatever a crash leaves, the newest record found is the base or the one in flight, and it is whole. */
  lemma {:induction false} CrashPicks(d: Disk, commits: seq<Gen>, log: seq<Batch>, flight: Flight, w: View)
    requires Core(d, commits, log, flight) && CrashView(d, w)
    ensures Recovers(false, w, Pick(commits[|commits| - 1], flight, w))
    ensures forall g :: Recovers(false, w, g) ==> g == Pick(commits[|commits| - 1], flight, w)
  {
    hide Intact, Safe, Replay, Contents, Succeeds;
    var base := commits[|commits| - 1];
    var i := base.m.generation % 2;
    var g := Pick(base, flight, w);
    SafeCrash(d, w, g);
    var k := if g == base then i else 1 - i;
    assert w.slots[i] == Record(base.m);
    assert Chosen(false, w, k, g);
    forall u | Recovers(false, w, u) ensures u == g {
      RecoversOnce(false, w, g, u);
    }
  }

  /** The two slots never name the same generation. */
  lemma {:induction false} SlotsApart(s: State, w: View)
    requires Core(s.disk, s.commits, s.log, s.flight) && CrashView(s.disk, w)
    ensures |w.slots| == 2
    ensures w.slots[0].Record? && w.slots[1].Record? ==> w.slots[0].m.generation != w.slots[1].m.generation
  {
    hide Safe, Contents, Replay, Succeeds;
    var i := Base(s).m.generation % 2;
    assert w.slots[i] in s.disk.maybe[i] && w.slots[1 - i] in s.disk.maybe[1 - i];
  }

  // ----- Core facts about the file

  lemma {:induction false} CoreWrite(d: Disk, commits: seq<Gen>, log: seq<Batch>, flight: Flight, id: nat, c: Content)
    requires Core(d, commits, log, flight) && id >= 1
    requires id !in Footprint(commits[|commits| - 1]) && (flight.Flying? ==> id !in Footprint(flight.gen))
    ensures Core(WriteTo(d, id, c), commits, log, flight)
  {
    hide Safe, Replay, Contents, Succeeds, Footprint;
    OperationsKeep(d, id, c, d.size, 0, Blank);
    SafeWrite(d, id, c, commits[|commits| - 1]);
    if flight.Flying? {
      SafeWrite(d, id, c, flight.gen);
    }
  }

  lemma {:induction false} CoreCut(d: Disk, commits: seq<Gen>, log: seq<Batch>, flight: Flight, n: nat)
    requires Core(d, commits, log, flight) && n <= d.size
    requires commits[|commits| - 1].m.pageCount <= n && (flight.Flying? ==> flight.gen.m.pageCount <= n)
    ensures Core(CutTo(d, n), commits, log, flight)
  {
    hide Safe, Replay, Contents, Succeeds, Footprint;
    OperationsKeep(d, 1, Junk, n, 0, Blank);
    SafeCut(d, n, commits[|commits| - 1]);
    if flight.Flying? {
      SafeCut(d, n, flight.gen);
    }
  }

  /** A sync makes what was in flight the base. */
  lemma {:induction false} CoreSync(s: State)
    requires Core(s.disk, s.commits, s.log, s.flight)
    ensures Core(Synced(s.disk), Confirmed(s).commits, Confirmed(s).log, Grounded)
    ensures Confirmed(s).flight == Grounded
  {
    hide Intact, Replay, Contents, Succeeds, Footprint;
    OperationsKeep(s.disk, 1, Junk, s.disk.size, 0, Blank);
    SafeSync(s.disk, Base(s));
    if s.flight.Flying? {
      SafeSync(s.disk, s.flight.gen);
    }
  }

  lemma {:induction false} CoreSlot(d: Disk, commits: seq<Gen>, log: seq<Batch>, r: Slot, flight: Flight)
    requires Core(d, commits, log, Grounded)
    requires flight.Grounded? ==> r.Blank?
    requires flight.Flying? ==>
      && r == Record(flight.gen.m) && flight.gen.m.generation == commits[|commits| - 1].m.generation + 1
      && Safe(d, flight.gen) && Succeeds(commits[|commits| - 1], flight.gen)
      && Contents(flight.gen.v) == Replay(log + [flight.batch])
    ensures Core(WriteSlot(d, (commits[|commits| - 1].m.generation + 1) % 2, r), commits, log, flight)
  {
    hide Safe, Replay, Contents, Succeeds, Footprint;
    var base := commits[|commits| - 1];
    var i := (base.m.generation + 1) % 2;
    assert i == 1 - base.m.generation % 2;
    OperationsKeep(d, 1, Junk, d.size, i, r);
    SafeSlot(d, i, r, base);
    if flight.Flying? {
      SafeSlot(d, i, r, flight.gen);
    }
  }

  lemma {:induction false} CoreCrash(s: State, w: View)
    requires Core(s.disk, s.commits, s.log, s.flight) && CrashView(s.disk, w)
    ensures var g := Pick(Base(s), s.flight, w);
            var s1 := if g == Base(s) then s.(flight := Grounded) else Confirmed(s);
            Core(AfterCrash(w), s1.commits, s1.log, Grounded) && s1.flight == Grounded
  {
    hide Safe, Replay, Contents, Succeeds, Footprint;
    var g := Pick(Base(s), s.flight, w);
    SafeAfterCrash(s.disk, w, g);
    if s.flight.Flying? {
      assert s.flight.gen != Base(s);
    }
  }

  // ----- Pages that may be written

  lemma {:induction false} SupplyUnowned(s: PageManagerState, live: set<nat>, x: nat)
    requires Owned(s, live) && InSupply(s, x)
    ensures x >= 1 && x !in live && x !in s.retiredPageIDs && x !in s.freeListPageIDs && x !in s.pendingFreePageIDs
  {
    OwnerCount(s, live, x);
  }

  /** The owners of a page, one by one. */
  lemma {:induction false} OwnerCount(s: PageManagerState, live: set<nat>, x: nat)
    requires Owned(s, live)
    ensures var n := (if x in live then 1 else 0) + multiset(s.freePageIDs)[x] + multiset(s.retiredPageIDs)[x]
                     + multiset(s.pendingFreePageIDs)[x] + multiset(s.freeListPageIDs)[x];
            n == if 1 <= x < s.nextPageID then 1 else 0
    ensures x in s.freePageIDs <==> multiset(s.freePageIDs)[x] > 0
    ensures x in s.retiredPageIDs <==> multiset(s.retiredPageIDs)[x] > 0
    ensures x in s.pendingFreePageIDs <==> multiset(s.pendingFreePageIDs)[x] > 0
    ensures x in s.freeListPageIDs <==> multiset(s.freeListPageIDs)[x] > 0
  {
    assert OwnerBag(s, multiset(live))[x] == if 1 <= x < s.nextPageID then 1 else 0;
    assert multiset(live)[x] == if x in live then 1 else 0;
  }

  /** What an update may write is no page of the generation it starts from, nor of the one before. */
  lemma {:induction false} SupplyApart(s: State, x: nat)
    requires Inv(s) && !s.phase.Published? && !s.mem.uncertain && InSupply(s.mem.pm, x)
    ensures x >= 1 && x !in Footprint(Base(s)) && (s.flight.Flying? ==> x !in Footprint(s.flight.gen))
    ensures s.flight.Grounded? && |s.commits| > 1 ==> x !in Footprint(s.commits[|s.commits| - 2])
  {
    hide Owned, Safe, Replay, Contents, Holds, SlotsOk, PhaseOk, DiskOk, VersionBag;
    SupplyUnowned(s.mem.pm, Live(s.mem.v), x);
    assert x !in Footprint(At(s));
    if x in s.mem.pm.freePageIDs {
      assert x in IdSet(At(s).l.free);
    }
  }

  // ----- Every step keeps the invariant

  lemma {:induction false} InitInv()
    ensures Inv(Init())
  {
    var s, g := Init(), NoGen();
    assert ToMap([]) == map[];
    assert VersionBag(Empty) == multiset{};
    assert Intact(s.disk.pages, 0, g);
    assert Owned(s.mem.pm, Live(Empty));
  }

  lemma {:induction false} StartKeeps(s: State, s': State)
    requires Inv(s) && Start(s, s')
    ensures Inv(s')
  {
    hide Core, Prepared, Holds, Owned;
  }

  lemma {:induction false} WriteKeeps(s: State, s': State, id: nat, c: Content)
    requires Inv(s) && (TearPage(s, s', id, c) || (PutPage(s, s', id) && c == TreePage(s.phase.plan.writes[id])))
    ensures Inv(s')
  {
    hide Core, Holds, Owned, ApplyAll, Contents, Footprint;
    assert InSupply(s.mem.pm, id);
    SupplyApart(s, id);
    CoreOk(s);
    CoreWrite(s.disk, s.commits, s.log, s.flight, id, c);
  }

  lemma {:induction false} CoreOk(s: State)
    requires Core(s.disk, s.commits, s.log, s.flight)
    ensures DiskOk(s.disk) && s.commits != [] && Base(s).m.pageCount <= s.disk.low
    ensures s.flight.Flying? ==> s.flight.gen.m.pageCount <= s.disk.low
  {
  }

  lemma {:induction false} RollbackKeeps(s: State, s': State, cut: bool)
    requires Inv(s) && Rollback(s, s', cut)
    ensures Inv(s')
  {
    hide Core, Holds, Owned, Prepared;
    CoreOk(s);
    if cut {
      CoreCut(s.disk, s.commits, s.log, s.flight, s.phase.orig);
    }
  }

  lemma {:induction false} GiveUpKeeps(s: State, s': State)
    requires Inv(s) && GiveUp(s, s')
    ensures Inv(s')
  {
    hide Core, Holds, Owned, Prepared;
  }

  /** Two stores that hold the same tree hold the same pages of it. */
  lemma {:induction false} MatchesAgree(a: Store, b: Store, t: Tree, x: nat)
    requires Matches(a, t) && Matches(b, t) && x in Bag(t)
    ensures x in a && x in b && a[x] == b[x]
    decreases t
  {
    if x != t.id {
      assert x in BagAll(t.kids);
      InSomeKid(t.kids, x);
      var i :| 0 <= i < |t.kids| && x in Bag(t.kids[i]);
      KidMatches(a, t, i);
      KidMatches(b, t, i);
      MatchesAgree(a, b, t.kids[i], x);
    }
  }

  /** Once all its pages are written, the file holds the prepared version. */
  lemma {:induction false} PlanHeld(mem: Mem, plan: Plan, pages: Pages)
    requires Prepared(mem, plan) && Holds(mem.v, RootId(mem.v), mem.pages) && mem.pages.Keys == Live(mem.v)
    requires Holds(mem.v, RootId(mem.v), TreeStore(pages))
    requires Owned(mem.pm, Live(mem.v))
    requires forall x :: x in plan.writes ==> x in pages && pages[x] == TreePage(plan.writes[x])
    ensures Holds(plan.v, RootId(plan.v), TreeStore(pages))
  {
    hide Owned, Matches, Bag, Sound, Contents, ApplyAll;
    if plan.v.Rooted? {
      var all, store := mem.pages + plan.writes, TreeStore(pages);
      forall x | x in Bag(plan.v.tree) ensures x in all && x in store && store[x] == all[x] {
        assert x in Live(plan.v);
        if x !in plan.writes {
          assert x in Live(mem.v);
          MatchesAgree(mem.pages, store, mem.v.tree, x);
        }
      }
      MatchesOn(all, store, plan.v.tree);
    }
  }

  /** The file holds the version memory is at. */
  lemma {:induction false} AtHeld(s: State)
    requires Inv(s)
    ensures Holds(s.mem.v, RootId(s.mem.v), TreeStore(s.disk.pages))
  {
    hide Matches, Bag, Sound, ListStands, Owned, Contents, Replay, PhaseOk, Succeeds, Readable, Footprint, TreeStore;
    assert Safe(s.disk, At(s));
    assert Holds(At(s).v, At(s).m.rootPageID, TreeStore(s.disk.pages));
  }

  lemma {:induction false} SyncDataKeeps(s: State, s': State)
    requires Inv(s) && SyncData(s, s')
    ensures Inv(s')
  {
    hide Core, Holds, Owned, TreeStore, Contents, ApplyAll;
    var plan := s.phase.plan;
    CoreOk(s);
    CoreSync(s);
    AtHeld(s);
    PlanHeld(s.mem, plan, s.disk.pages);
    if plan.pm.nextPageID > s.mem.pm.nextPageID {
      assert plan.pm.nextPageID - 1 in plan.writes;
    }
    assert At(s') == At(s);
  }

  lemma {:induction false} PlanListKeeps(s: State, s': State)
    requires Inv(s) && PlanList(s, s')
    ensures Inv(s')
  {
    hide Core, Holds, Owned, Prepared, Snapshotted;
  }

  /** Pages chosen for the list: none is in use, now or in the new version. */
  lemma {:induction false} ListApart(s: State, plan: Plan, pm': PageManagerState, l: Lists, x: nat)
    requires Inv(s) && s.flight.Grounded? && Prepared(s.mem, plan) && ListOk(plan, pm', l) && x in l.pages + l.free
    ensures 1 <= x < pm'.nextPageID && x !in Footprint(Base(s)) && x !in Live(plan.v)
  {
    hide Owned, Core, PhaseOk, Holds, Contents, ApplyAll, Fitting, Snapshotted, VersionBag;
    var disk :| Snapshotted(plan.pm, pm', disk, l);
    SnapshotOwned(plan.pm, pm', disk, l, Live(plan.v));
    assert x in l.pages + (l.free + l.retired);
    ListFrom(plan.pm, pm', disk, l, Live(plan.v), x);
    CoreOk(s);
    OwnerCount(s.mem.pm, Live(s.mem.v), x);
    if x in plan.pm.freePageIDs {
      assert multiset(plan.pm.freePageIDs)[x] > 0;
    }
    BaseWithin(s);
  }

  lemma {:induction false} BaseWithin(s: State)
    requires Core(s.disk, s.commits, s.log, s.flight)
    ensures forall x :: x in Footprint(Base(s)) ==> 1 <= x <= Base(s).m.pageCount
  {
    hide Intact, Replay, Contents, Footprint, Succeeds;
    forall x | x in Footprint(Base(s)) ensures 1 <= x <= Base(s).m.pageCount {
      FootprintWithin(s.disk.pages, s.disk.size, Base(s), x);
    }
  }

  /** Where the pages of a snapshot come from. */
  lemma {:induction false} ListFrom(s: PageManagerState, s': PageManagerState, disk: Pages, l: Lists, live: set<nat>,
      x: nat)
    requires Snapshotted(s, s', disk, l) && Owned(s, live) && x in l.pages + l.free
    ensures x in s.freePageIDs || x in s.retiredPageIDs || (x >= s.nextPageID && x in l.pages)
  {
    hide FreshIds, Fitting;
    if x in s.freePageIDs + s.retiredPageIDs {
      assert x in s.freePageIDs || x in s.retiredPageIDs;
    }
  }

  lemma {:induction false} HeldAfterWrite(v: Version, d: Disk, id: nat, c: Content)
    requires DiskOk(d) && Holds(v, RootId(v), TreeStore(d.pages)) && id !in Live(v) && id >= 1
    ensures Holds(v, RootId(v), TreeStore(WriteTo(d, id, c).pages))
  {
    hide Matches, Bag, Sound;
    if v.Rooted? {
      var a, b := TreeStore(d.pages), TreeStore(WriteTo(d, id, c).pages);
      forall x | x in Bag(v.tree) ensures x in b && x in a && b[x] == a[x] {
        MatchesHas(a, v.tree, x);
        assert x in Live(v);
      }
      MatchesOn(a, b, v.tree);
    }
  }

  lemma {:induction false} ListStep(d: Disk, l: Lists, i: nat, c: Content)
    requires DiskOk(d) && i < |l.pages| && ListWritten(d, l, i) && Distinct(l.pages) && l.pages[i] >= 1
    ensures ListWritten(WriteTo(d, l.pages[i], c), l, i)
    ensures c == ListPage(ChainNode(l.pages, l.free + l.retired, i)) ==>
              ListWritten(WriteTo(d, l.pages[i], c), l, i + 1)
  {
    hide ChainNode;
    forall k: nat | k < i ensures l.pages[k] != l.pages[i] {
      DistinctAt(l.pages, k, i);
    }
  }

  lemma {:induction false} DistinctAt(s: seq<nat>, i: nat, j: nat)
    requires Distinct(s) && i < j < |s|
    ensures s[i] != s[j]
  {
    var a: multiset<nat>, b: multiset<nat> := multiset(s[..j]), multiset(s[j..]);
    assert s == s[..j] + s[j..];
    assert multiset(s) == a + b;
    assert s[..j][i] == s[i] && s[j..][0] == s[j];
    assert a[s[i]] >= 1 && b[s[j]] >= 1;
    assert multiset(s)[s[i]] <= 1;
  }

  /** What a snapshot for a prepared plan guarantees. */
  lemma {:induction false} ListFacts(s: State, plan: Plan, pm': PageManagerState, l: Lists)
    requires Prepared(s.mem, plan) && ListOk(plan, pm', l)
    ensures Owned(pm'.(pendingFreePageIDs := []), Live(plan.v)) && Fitting(l) && plan.pm.nextPageID <= pm'.nextPageID
    ensures Distinct(l.pages + (l.free + l.retired)) && Distinct(l.pages)
    ensures forall x :: x in l.pages + (l.free + l.retired) ==> 1 <= x < pm'.nextPageID && x !in Live(plan.v)
    ensures forall x :: plan.pm.nextPageID <= x < pm'.nextPageID ==> x in l.pages
    ensures pm'.generation == s.mem.pm.generation
            && l == Lists(pm'.freePageIDs, pm'.retiredPageIDs, pm'.freeListPageIDs)
  {
    hide Owned, Holds, Contents, ApplyAll, Fitting, VersionBag, FreshIds;
    var disk :| Snapshotted(plan.pm, pm', disk, l);
    SnapshotOwned(plan.pm, pm', disk, l, Live(plan.v));
    DistinctPrefix(l.pages, l.free + l.retired);
    forall x | plan.pm.nextPageID <= x < pm'.nextPageID ensures x in l.pages {
      FreshCount(plan.pm.nextPageID, pm'.nextPageID, x);
      assert (multiset(l.free) + multiset(l.pages))[x] >= 1;
      OwnerCount(plan.pm, Live(plan.v), x);
      assert x !in plan.pm.freePageIDs + plan.pm.retiredPageIDs;
      assert x in l.free <==> multiset(l.free)[x] > 0;
      assert x in l.pages <==> multiset(l.pages)[x] > 0;
    }
  }

  lemma {:induction false} ListWriteKeeps(s: State, s': State, c: Content)
    requires Inv(s) && (TearList(s, s', c) || PutList(s, s'))
    requires PutList(s, s') ==>
              c == ListPage(ChainNode(s.phase.l.pages, s.phase.l.free + s.phase.l.retired, s.phase.count))
    ensures Inv(s')
  {
    hide Core, Holds, Owned, Prepared, ListOk, Fitting, ChainNode, Distinct, ListWritten, TreeStore;
    var plan, l, i := s.phase.plan, s.phase.l, s.phase.count;
    ListFacts(s, plan, s.phase.pm', l);
    ListApart(s, plan, s.phase.pm', l, l.pages[i]);
    CoreOk(s);
    CoreWrite(s.disk, s.commits, s.log, s.flight, l.pages[i], c);
    HeldAfterWrite(plan.v, s.disk, l.pages[i], c);
    ListStep(s.disk, l, i, c);
  }

  /** Once its list is written, the new generation is whole in the file. */
  lemma {:induction false} NewGenIntact(s: State, plan: Plan, pm': PageManagerState, l: Lists)
    requires Prepared(s.mem, plan) && ListOk(plan, pm', l) && DiskOk(s.disk)
    requires Holds(plan.v, RootId(plan.v), TreeStore(s.disk.pages)) && plan.pm.nextPageID <= s.disk.size + 1
    requires ListWritten(s.disk, l, |l.pages|)
    ensures 1 <= pm'.nextPageID <= s.disk.size + 1
    ensures Intact(s.disk.pages, s.disk.size, NewGen(s, plan, pm', l))
  {
    hide Prepared, Holds, ListOk, Fitting, Distinct, TreeStore, ListStands, Owned, VersionBag, ChainNode;
    ListFacts(s, plan, pm', l);
    PlanPages(s.mem, plan);
    if pm'.nextPageID > plan.pm.nextPageID {
      assert pm'.nextPageID - 1 in l.pages;
      var i :| 0 <= i < |l.pages| && l.pages[i] == pm'.nextPageID - 1;
    }
    assert ChainWritten(s.disk.pages, l);
    SnapshotRoundTrip(s.disk.pages, l, s.mem.pm.generation + 1, RootId(plan.v), pm'.nextPageID - 1);
    forall x | x in Live(plan.v) ensures 1 <= x < pm'.nextPageID && x !in l.free && x !in l.retired && x !in l.pages {
      OwnerCount(pm'.(pendingFreePageIDs := []), Live(plan.v), x);
    }
    assert RootId(plan.v) <= pm'.nextPageID - 1;
    assert Readable(VersionBag(plan.v), pm'.nextPageID - 1, IdSet(l.free)) by {
      forall x | x in VersionBag(plan.v) ensures 1 <= x <= pm'.nextPageID - 1 && x !in IdSet(l.free) {
        assert x in Live(plan.v);
      }
    }
  }

  /** The root of a prepared version is one of its pages. */
  lemma {:induction false} PlanPages(mem: Mem, plan: Plan)
    requires Prepared(mem, plan)
    ensures plan.pm.nextPageID >= 1
    ensures RootId(plan.v) == 0 || RootId(plan.v) in Live(plan.v)
  {
    hide Matches, Sound, Contents, ApplyAll;
    if plan.v.Rooted? {
      assert plan.v.tree.id in Bag(plan.v.tree);
    }
  }

  /**
   Pages come back: what a commit takes out of the tree it retires, with the old list pages;
   what was retired before it is reusable after it, or holds the new list.
   */
  lemma {:induction false} PagesComeBack(s: State, s': State, x: nat)
    requires Inv(s) && SyncMeta(s, s')
    ensures x in Live(s.mem.v) && x !in Live(s'.mem.v) ==> x in s'.mem.pm.retiredPageIDs
    ensures x in s.mem.pm.freeListPageIDs ==> x in s'.mem.pm.retiredPageIDs
    ensures x in s.mem.pm.retiredPageIDs ==> x in s'.mem.pm.freePageIDs || x in s'.mem.pm.freeListPageIDs
    ensures x in s'.mem.pm.retiredPageIDs ==> x !in s'.mem.pm.freePageIDs && x !in s'.mem.pm.freeListPageIDs
  {
    hide Core, Contents, ApplyAll, Owned, Live, FreshIds, Fitting, Replay, RootId;
    hide Holds;
    var plan, pm' := s.phase.plan, s.phase.pm';
    var disk :| Snapshotted(plan.pm, pm', disk, s.phase.l);
    OwnerCount(s.mem.pm, Live(s.mem.v), x);
    OwnerCount(plan.pm, Live(plan.v), x);
    SnapshotOwned(plan.pm, pm', disk, s.phase.l, Live(plan.v));
    OwnerCount(pm'.(pendingFreePageIDs := []), Live(plan.v), x);
    if x in s.mem.pm.retiredPageIDs {
      ReusableBag(plan.pm, pm', disk, s.phase.l, x);
    }
  }

  lemma {:induction false} ReusableBag(s: PageManagerState, s': PageManagerState, disk: Pages, l: Lists, x: nat)
    requires Snapshotted(s, s', disk, l) && x in s.retiredPageIDs
    ensures x in l.free || x in l.pages
  {
    hide FreshIds, Fitting;
    var all := s.freePageIDs + s.retiredPageIDs;
    assert x in all;
    var kept, were := multiset(l.free) + multiset(l.pages), multiset(all);
    assert were[x] > 0;
    assert kept[x] >= were[x];
    assert kept[x] == multiset(l.free)[x] + multiset(l.pages)[x];
  }

  lemma {:induction false} SyncListKeeps(s: State, s': State)
    requires Inv(s) && SyncList(s, s')
    ensures Inv(s')
  {
    hide Core, Holds, Owned, Prepared, ListOk, Intact, TreeStore, ListWritten;
    CoreOk(s);
    CoreSync(s);
    NewGenIntact(s, s.phase.plan, s.phase.pm', s.phase.l);
    SafeSync(s.disk, NewGen(s, s.phase.plan, s.phase.pm', s.phase.l));
  }

  /** The new generation may follow the base. */
  lemma {:induction false} NewGenSucceeds(s: State, plan: Plan, pm': PageManagerState, l: Lists)
    requires Inv(s) && s.flight.Grounded? && Prepared(s.mem, plan) && ListOk(plan, pm', l) && pm'.nextPageID >= 1
    ensures Succeeds(Base(s), NewGen(s, plan, pm', l))
    ensures Contents(plan.v) == Replay(s.log + [plan.batch])
    ensures NewGen(s, plan, pm', l).m.generation == Base(s).m.generation + 1
  {
    hide Holds, Owned, ListOk, Footprint, Fitting, Contents, ApplyAll, Distinct, PhaseOk, Safe, SlotsOk, DiskOk;
    hide SnapshotMetadata;
    ListFacts(s, plan, pm', l);
    BaseWithin(s);
    forall x | x in Footprint(Base(s)) ensures x !in IdSet(l.free) {
      if x in l.free {
        assert x in l.pages + l.free;
        ListApart(s, plan, pm', l, x);
      }
    }
    SnapshotNames(s, plan, pm', l);
    ReplayStep(s.log, plan.batch);
  }

  lemma {:induction false} ReplayStep(log: seq<Batch>, batch: Batch)
    ensures Replay(log + [batch]) == ApplyAll(Replay(log), batch)
  {
    hide ApplyAll;
    assert (log + [batch])[..|log|] == log;
  }

  lemma {:induction false} SnapshotNames(s: State, plan: Plan, pm': PageManagerState, l: Lists)
    requires pm'.nextPageID >= 1
    ensures var m := NewGen(s, plan, pm', l).m;
            m.generation == s.mem.pm.generation + 1 && m.pageCount == pm'.nextPageID - 1
            && m.rootPageID == RootId(plan.v)
  {
  }

  lemma {:induction false} PutSlotKeeps(s: State, s': State)
    requires Inv(s) && PutSlot(s, s')
    ensures Inv(s')
  {
    hide Core, Holds, Owned, Prepared, ListOk, Safe, TreeStore, Succeeds, Contents, Replay;
    var plan, pm', l := s.phase.plan, s.phase.pm', s.phase.l;
    CoreOk(s);
    NewGenSucceeds(s, plan, pm', l);
    CoreSlot(s.disk, s.commits, s.log, Record(NewGen(s, plan, pm', l).m), s'.flight);
  }

  lemma {:induction false} TearSlotKeeps(s: State, s': State)
    requires Inv(s) && TearSlot(s, s')
    ensures Inv(s')
  {
    hide Core, Holds, Owned, Prepared, ListOk, Intact, TreeStore, Succeeds, Contents, Replay, Footprint;
    CoreOk(s);
    CoreSlot(s.disk, s.commits, s.log, Blank, Grounded);
    SafeSlot(s.disk, (s.mem.pm.generation + 1) % 2, Blank, NewGen(s, s.phase.plan, s.phase.pm', s.phase.l));
  }

  lemma {:induction false} CommittedHeld(mem: Mem, plan: Plan, pm': PageManagerState)
    requires Holds(plan.v, RootId(plan.v), mem.pages + plan.writes) && pm'.nextPageID >= 1
    ensures var mem' := Committed(mem, plan, pm');
            Holds(plan.v, RootId(plan.v), mem'.pages) && mem'.pages.Keys == Live(plan.v)
  {
    hide Matches, Sound, Bag;
    var mem' := Committed(mem, plan, pm');
    var all := mem.pages + plan.writes;
    if plan.v.Rooted? {
      forall x | x in Bag(plan.v.tree) ensures x in all && x in mem'.pages && mem'.pages[x] == all[x] {
        MatchesHas(all, plan.v.tree, x);
        assert x in Live(plan.v);
      }
      MatchesOn(all, mem'.pages, plan.v.tree);
    }
  }

  /** After the last sync memory is at the generation just published. */
  lemma {:induction false} CommittedAt(s: State, plan: Plan, pm': PageManagerState, l: Lists)
    requires Prepared(s.mem, plan) && ListOk(plan, pm', l) && 1 <= pm'.nextPageID <= s.disk.size + 1
    ensures MemAt(Committed(s.mem, plan, pm'), NewGen(s, plan, pm', l), s.disk.size)
  {
    hide ListOk, Bag, Contents, ApplyAll, Fitting, Distinct, Holds, Live;
    ListFacts(s, plan, pm', l);
    var mem' := Committed(s.mem, plan, pm');
    CommittedHeld(s.mem, plan, pm');
    forall x: nat ensures OwnerBag(mem'.pm, multiset(Live(plan.v)))[x] == if 1 <= x < mem'.pm.nextPageID then 1 else 0 {
      assert OwnerBag(pm'.(pendingFreePageIDs := []), multiset(Live(plan.v)))[x] ==
             if 1 <= x < pm'.nextPageID then 1 else 0;
    }
  }

  lemma {:induction false} SyncMetaKeeps(s: State, s': State)
    requires Inv(s) && SyncMeta(s, s')
    ensures Inv(s')
  {
    hide Core, Holds, Owned, Prepared, ListOk, Safe, TreeStore, Succeeds, Contents, Replay, MemAt;
    CoreOk(s);
    CoreSync(s);
    CommittedAt(s, s.phase.plan, s.phase.pm', s.phase.l);
    SnapshotNames(s, s.phase.plan, s.phase.pm', s.phase.l);
  }

  /** Memory that was loaded from a whole generation is at that generation. */
  lemma {:induction false} ReloadedAt(mem: Mem, pages: Pages, size: nat, g: Gen)
    requires Intact(pages, size, g) && Reloaded(mem, size, g)
    ensures MemAt(mem, g, size)
  {
    hide Owned, Matches, Sound, Bag, ListStands, Unclaimed, Readable;
    RecoveredOwned(pages, size, g);
  }

  lemma {:induction false} ReopenKeeps(s: State, s': State, g: Gen)
    requires Inv(s) && Reopen(s, s', g)
    ensures Inv(s')
  {
    hide Holds, Owned, Intact, TreeStore, Succeeds, Contents, Replay, Prepared, MemAt, Recovers, Unclaimed;
    CacheIsCrashView(s.disk);
    CrashPicks(s.disk, s.commits, s.log, s.flight, CacheView(s.disk));
    assert g == At(s');
    ReloadedAt(s'.mem, s.disk.pages, s.disk.size, g);
  }

  lemma {:induction false} PowerLossKeeps(s: State, s': State, w: View, g: Gen)
    requires Inv(s) && PowerLoss(s, s', w, g)
    ensures Inv(s')
  {
    hide Holds, Owned, Intact, TreeStore, Succeeds, Contents, Replay, MemAt, Recovers, Unclaimed, Core, Footprint;
    CoreOk(s);
    CrashPicks(s.disk, s.commits, s.log, s.flight, w);
    CoreCrash(s, w);
    PickSafe(s, w);
    SafeCrash(s.disk, w, g);
    ReloadedAt(s'.mem, w.pages, w.size, g);
    assert At(s') == g == Base(s');
  }

  lemma {:induction false} PickSafe(s: State, w: View)
    requires Core(s.disk, s.commits, s.log, s.flight) && |w.slots| == 2
    ensures Safe(s.disk, Pick(Base(s), s.flight, w))
    ensures Pick(Base(s), s.flight, w) == Base(s) || (s.flight.Flying? && Pick(Base(s), s.flight, w) == s.flight.gen)
  {
  }

  lemma {:induction false} PutListKeeps(s: State, s': State)
    requires Inv(s) && PutList(s, s')
    ensures Inv(s')
  {
    hide Inv;
    ListWriteKeeps(s, s', ListPage(ChainNode(s.phase.l.pages, s.phase.l.free + s.phase.l.retired, s.phase.count)));
  }

  lemma {:induction false} TearListKeeps(s: State, s': State, c: Content)
    requires Inv(s) && TearList(s, s', c)
    ensures Inv(s')
  {
    hide Core, Prepared, Owned, ListOk, MemAt;
    if PutList(s, s') {
      PutListKeeps(s, s');
    } else {
      ListWriteKeeps(s, s', c);
    }
  }

  lemma {:induction false} PutPageKeeps(s: State, s': State, id: nat)
    requires Inv(s) && PutPage(s, s', id)
    ensures Inv(s')
  {
    hide Inv;
    WriteKeeps(s, s', id, TreePage(s.phase.plan.writes[id]));
  }

  lemma {:induction false} NextKeeps(s: State, s': State)
    requires Inv(s) && Next(s, s')
    ensures Inv(s')
  {
    hide Inv, Start, PutPage, TearPage, Rollback, SyncData, PlanList, PutList, TearList, SyncList, PutSlot, TearSlot;
    hide SyncMeta, GiveUp, Reopen, PowerLoss;
    if Start(s, s') { StartKeeps(s, s'); }
    else if id :| PutPage(s, s', id) { PutPageKeeps(s, s', id); }
    else if id, c :| TearPage(s, s', id, c) { WriteKeeps(s, s', id, c); }
    else if Rollback(s, s', true) { RollbackKeeps(s, s', true); }
    else if Rollback(s, s', false) { RollbackKeeps(s, s', false); }
    else if SyncData(s, s') { SyncDataKeeps(s, s'); }
    else if PlanList(s, s') { PlanListKeeps(s, s'); }
    else if PutList(s, s') { PutListKeeps(s, s'); }
    else if c :| TearList(s, s', c) { TearListKeeps(s, s', c); }
    else if SyncList(s, s') { SyncListKeeps(s, s'); }
    else if PutSlot(s, s') { PutSlotKeeps(s, s'); }
    else if TearSlot(s, s') { TearSlotKeeps(s, s'); }
    else if SyncMeta(s, s') { SyncMetaKeeps(s, s'); }
    else if GiveUp(s, s') { GiveUpKeeps(s, s'); }
    else if g :| Reopen(s, s', g) { ReopenKeeps(s, s', g); }
    else { var w, g :| PowerLoss(s, s', w, g); PowerLossKeeps(s, s', w, g); }
  }

  /** Every state of every run satisfies the invariant. */
  lemma {:induction false} RunInv(t: seq<State>, i: nat)
    requires Run(t) && i < |t|
    ensures Inv(t[i])
  {
    hide Inv, Next, Init;
    if i == 0 {
      InitInv();
    } else {
      RunInv(t, i - 1);
      NextKeeps(t[i - 1], t[i - 1 + 1]);
    }
  }

  // ----- The guarantees

  /**
   Crash atomicity. Whatever a crash leaves after any run, opening finds one generation,
   and it is the map of all confirmed batches or that map with the batch in flight applied
   whole; every page of the file then has exactly one owner.
   */
  lemma {:induction false} CrashAtomicity(t: seq<State>, w: View)
    requires Run(t) && CrashView(t[|t| - 1].disk, w)
    ensures var s := t[|t| - 1];
            exists g :: Recovers(false, w, g) && Owned(Reconciled(w.size, g), Live(g.v)) && Outcome(s, g)
    ensures forall g :: Recovers(false, w, g) ==> Outcome(t[|t| - 1], g)
    ensures forall g :: Recovers(false, w, g) ==> (Recovers(true, w, g) <==> TidyVersion(g.v))
  {
    hide Inv, Intact, Next, Init, Recovers, Owned, Core, Contents, Replay, TidyVersion, Reconciled, Footprint;
    var s := t[|t| - 1];
    RunInv(t, |t| - 1);
    InvCore(s);
    CrashPicks(s.disk, s.commits, s.log, s.flight, w);
    PickSafe(s, w);
    PickOutcome(s, w);
    var g := Pick(Base(s), s.flight, w);
    SafeCrash(s.disk, w, g);
    RecoveredOwned(w.pages, w.size, g);
    StrictIffTidy(w, g);
  }

  /** What recovery may find: all confirmed batches, or those and the one in flight. */
  ghost predicate Outcome(s: State, g: Gen) {
    || Contents(g.v) == Replay(s.log)
    || (s.flight.Flying? && Contents(g.v) == Replay(s.log + [s.flight.batch]))
  }

  lemma {:induction false} InvCore(s: State)
    requires Inv(s)
    ensures Core(s.disk, s.commits, s.log, s.flight)
    ensures s.commits != []
  {
  }

  lemma {:induction false} PickOutcome(s: State, w: View)
    requires Core(s.disk, s.commits, s.log, s.flight) && |w.slots| == 2
    ensures Outcome(s, Pick(Base(s), s.flight, w))
  {
    hide Safe, Replay, Contents, Succeeds, DiskOk, SlotsOk;
  }

  /** What a running process reads is the map of the confirmed batches, or has the one in flight applied too. */
  lemma {:induction false} ReadsAtomic(t: seq<State>)
    requires Run(t)
    ensures var s := t[|t| - 1];
            Outcome(s, Gen(NoGen().m, NoGen().l, s.mem.v)) && Holds(s.mem.v, RootId(s.mem.v), s.mem.pages)
  {
    hide Next, Init, Safe, Replay, Contents, Succeeds, DiskOk, SlotsOk, Owned, PhaseOk, Holds;
    RunInv(t, |t| - 1);
  }

  /** Page conservation: in every reachable state each allocated page has exactly one owner. */
  lemma {:induction false} PageConservation(t: seq<State>)
    requires Run(t)
    ensures var s := t[|t| - 1];
            && Owned(s.mem.pm, Live(s.mem.v))
            && (!s.phase.Idle? ==> Owned(s.phase.plan.pm, Live(s.phase.plan.v)))
            && (s.phase.Listing? || s.phase.Listed? || s.phase.Published? ==>
                  Owned(s.phase.pm'.(pendingFreePageIDs := []), Live(s.phase.plan.v)))
  {
    hide Next, Init, Core, Contents, Owned, Holds, ListOk;
    var s := t[|t| - 1];
    RunInv(t, |t| - 1);
    if s.phase.Listing? || s.phase.Listed? || s.phase.Published? {
      ListFacts(s, s.phase.plan, s.phase.pm', s.phase.l);
    }
  }

  /** Batches are confirmed one after the other and are never forgotten. */
  lemma {:induction false} LogGrows(t: seq<State>, i: nat, j: nat)
    requires Run(t) && i <= j < |t|
    ensures t[i].log <= t[j].log
  {
    hide Next, Init, Inv;
    if i < j {
      LogGrows(t, i, j - 1);
      NextLog(t[j - 1], t[j - 1 + 1]);
    }
  }

  lemma {:induction false} NextLog(s: State, s': State)
    requires Next(s, s')
    ensures s.log <= s'.log
  {
  }

  /**
   Durability. Once a batch is acknowledged, it and all batches before it stay confirmed, in
   that order; and what a later crash leads to is the newest generation confirmed, which
   holds all confirmed batches, or the one in flight, which holds these and one more.
   */
  lemma {:induction false} AcknowledgedSurvives(t: seq<State>, i: nat, w: View, g: Gen)
    requires Run(t) && i + 1 < |t| && SyncMeta(t[i], t[i + 1])
    requires CrashView(t[|t| - 1].disk, w) && Recovers(false, w, g)
    ensures var s := t[|t| - 1];
            && t[i].log + [t[i].phase.plan.batch] <= s.log && s.commits != []
            && (|| (g == Base(s) && Contents(g.v) == Replay(s.log))
                || (s.flight.Flying? && g == s.flight.gen && Contents(g.v) == Replay(s.log + [s.flight.batch])))
  {
    hide Next, Init, Replay, Contents, Recovers, Prepared, ListOk, Holds, MemAt, Safe, SlotsOk, Succeeds;
    var s := t[|t| - 1];
    RunInv(t, i);
    assert t[i + 1].log == t[i].log + [t[i].phase.plan.batch];
    LogGrows(t, i + 1, |t| - 1);
    RunInv(t, |t| - 1);
    CrashPicks(s.disk, s.commits, s.log, s.flight, w);
  }

  /**
   Two-generation protection. A tree page written for the next generation is no page of
   the generation it is built on, nor of the generation before that one.
   */
  lemma {:induction false} TreeWritesProtect(t: seq<State>, i: nat, id: nat, c: Content)
    requires Run(t) && i + 1 < |t| && (PutPage(t[i], t[i + 1], id) || TearPage(t[i], t[i + 1], id, c))
    ensures var s := t[i];
            && s.commits != [] && id !in Footprint(Base(s)) && (s.flight.Flying? ==> id !in Footprint(s.flight.gen))
            && (s.flight.Grounded? && |s.commits| > 1 ==> id !in Footprint(s.commits[|s.commits| - 2]))
  {
    hide Next, Init, Core, Contents, Owned, Holds, MemAt, Footprint;
    RunInv(t, i);
    InvCore(t[i]);
    SupplyApart(t[i], id);
  }

  /** A list page written for the next generation is no page of the current one. */
  lemma {:induction false} ListWritesProtect(t: seq<State>, i: nat, c: Content)
    requires Run(t) && i + 1 < |t| && (PutList(t[i], t[i + 1]) || TearList(t[i], t[i + 1], c))
    ensures var s := t[i];
            s.commits != [] && s.flight.Grounded? && s.phase.l.pages[s.phase.count] !in Footprint(Base(s))
  {
    hide Next, Init, Core, Contents, Owned, Holds, MemAt, Footprint, Prepared, ListOk;
    RunInv(t, i);
    var s := t[i];
    InvCore(s);
    ListApart(s, s.phase.plan, s.phase.pm', s.phase.l, s.phase.l.pages[s.phase.count]);
  }
}
