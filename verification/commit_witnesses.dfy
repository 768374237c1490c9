/**
 What the occupancy checks of recovery cost: a generation whose tree is not tidy is never
 recovered, and the code can be led to acknowledge one.
 */
module CommitWitnesses {
  import opened ByteStrings
  import opened PageNodes
  import opened PageGrowth
  import opened PageUpdates
  import opened PageLoading
  import opened Recovery
  import opened PageFiles
  import opened CommitProtocol
  import opened KvUpdates
  import opened KvStore
  import opened PageWitnesses

  // ----- In every run

  /**
   If the newest whole generation that a crash leaves is untidy, acknowledged or still in
   flight, then what passes all checks is older.
   */
  lemma {:induction false} UntidyIsLost(t: seq<State>, w: View, u: Gen)
    requires Run(t) && t[|t| - 1].commits != [] && CrashView(t[|t| - 1].disk, w)
    requires !TidyVersion(Pick(Base(t[|t| - 1]), t[|t| - 1].flight, w).v) && Recovers(true, w, u)
    ensures u.m.generation < Pick(Base(t[|t| - 1]), t[|t| - 1].flight, w).m.generation
  {
    hide Next, Init, Replay, Contents, Recovers, Prepared, ListOk, Holds, MemAt, Safe, Succeeds, TidyVersion;
    var s := t[|t| - 1];
    RunInv(t, |t| - 1);
    CrashPicks(s.disk, s.commits, s.log, s.flight, w);
    SlotsApart(s, w);
    PassedOver(w, Pick(Base(s), s.flight, w), u);
  }

  // ----- One commit

  /** Four entries for a new store. */
  function SplitBatch(): Batch {
    [Set(Key(1, 0), Zeros(3000)), Set(Key(2, 0), Zeros(950)), Set(Key(9, 0), Zeros(100)), Set(Key(3, 0), Zeros(300))]
  }

  /** Whichever pages are taken for them, the tree is tidy up to the third entry and untidy after the fourth. */
  lemma {:induction false} SplitChain(us: seq<Version>)
    requires Chain(Empty, SplitBatch(), us) && |us| == 5
    ensures TidyVersion(us[3]) && !TidyVersion(us[4])
  {
    hide Contents, ApplyAll, SoundVersion, InsertShape, Zeros, Tidy, Payload;
    assert Makes(us[0], us[1], SplitBatch()[0]) && Makes(us[1], us[2], SplitBatch()[1]);
    assert Makes(us[2], us[3], SplitBatch()[2]) && Makes(us[3], us[4], SplitBatch()[3]);
    FirstFull(us[1], us[2]);
    FullSplits(us[2], us[3]);
    SplitCanUntidy(us[3].tree, us[4]);
  }

  lemma {:induction false} FirstFull(v: Version, v': Version)
    requires InsertShape(Empty, v, Key(1, 0), Zeros(3000)) && InsertShape(v, v', Key(2, 0), Zeros(950))
    ensures v'.Rooted? && v'.tree.TLeaf? && v'.height == 0 && v'.tree.entries == Full()
  {
    hide Payload, Less, Key, Zeros;
    var e := Sized(2, 950);
    assert v.tree.entries == [SENTINEL, Sized(1, 3000)];
    assert v.tree.entries + [e] == Full();
    KeyOrder(1, 0, 2, 0);
    KeyOrder(2, 0, 2, 0);
    FullBytes();
    LeafTakes(v, v', e);
  }

  lemma {:induction false} SplitStored(i: nat)
    requires i < 4
    ensures !Refusable(SplitBatch()[i], ApplyAll(map[], SplitBatch()[..i]))
    ensures AltersAt(SplitBatch(), map[], 0)
  {
  }

  lemma {:induction false} NothingYet()
    ensures Contents(Empty) == map[]
  {
  }

  lemma {:induction false} RoomForFour()
    ensures !NearlyFull(1, 0, 4)
  {
  }

  /** With the first record beside an untidy generation, what a crash leaves opens as the empty store. */
  lemma {:induction false} StrictFindsNothing(s: State, w: View)
    requires Inv(s) && s.phase.Idle? && s.flight.Grounded? && !s.mem.uncertain && !TidyVersion(s.mem.v)
    requires KeptSlot(Init().disk, s.disk, 0) && CrashView(s.disk, w)
    ensures Recovers(true, w, NoGen())
  {
    hide Contents, Replay, Succeeds, TidyVersion, Intact, Holds;
    var g := Base(s);
    SafeCrash(s.disk, w, g);
    NoGenIntact(w.pages, w.size);
    if g.m == NoGen().m {
      IntactOnce(w.pages, w.size, g, NoGen());
    }
    forall u: Gen | w.slots[1] == Record(u.m) ensures !Opens(true, w.pages, w.size, u) {
      UntidyShut(w, g, u);
    }
    assert Chosen(true, w, 0, NoGen());
  }

  /**
   On a new store the batch of four entries is committed and acknowledged without any fault,
   and after that opening the file with all checks finds the empty map, with or without a crash.
   */
  method AcknowledgedCanBeLost() returns (kv: KV, ghost run: seq<State>)
    ensures kv.Valid() && !kv.uncertain && Run(run) && run[|run| - 1] == kv.Now()
    ensures kv.log == [SplitBatch()] && Contents(kv.v) == ApplyAll(map[], SplitBatch()) && Key(1, 0) in Contents(kv.v)
    ensures Accepted(Empty, SplitBatch(), kv.v)
    ensures forall w :: CrashView(kv.file, w) ==> Recovers(true, w, NoGen())
    ensures Contents(NoGen().v) == map[]
  {
    hide Traced, CrashView, Recovers, Contents, ApplyAll, Inv, NearlyFull, Refusable, AltersAt, Chain, KeptSlot;
    hide TidyVersion;
    kv := new KV.Create();
    var r;
    r, run := kv.Commit(SplitBatch(), Faults(map[], false, map[], false, Fine, false, false));
    NothingYet();
    RoomForFour();
    SplitStored(0);
    if r.Failed? && r.cause.BadMutation? {
      RefusedAtMeans(Empty, SplitBatch(), r.cause.index);
      SplitStored(r.cause.index);
    }
    ghost var us :| Chain(Empty, SplitBatch(), us) && |us| == 5 && us[4] == kv.v;
    SplitChain(us);
    forall w | CrashView(kv.file, w) ensures Recovers(true, w, NoGen()) {
      StrictFindsNothing(kv.Now(), w);
    }
    FirstRun(run, kv.Now());
    SplitHasKey();
  }

  lemma {:induction false} FirstRun(run: seq<State>, s: State)
    requires Traced(run, Init(), s)
    ensures Run(run) && run[|run| - 1] == s
  {
    hide Next, Inv;
  }

  lemma {:induction false} SplitHasKey()
    ensures Key(1, 0) in ApplyAll(map[], SplitBatch())
  {
    hide Zeros;
    var b := SplitBatch();
    assert b[..3] == [b[0], b[1], b[2]] && b[..3][..2] == [b[0], b[1]] && b[..3][..2][..1] == [b[0]];
    assert ApplyAll(map[], [b[0]]) == map[Key(1, 0) := Zeros(3000)];
    assert Key(1, 0) in ApplyAll(map[], [b[0], b[1]]);
    assert Key(1, 0) in ApplyAll(map[], [b[0], b[1], b[2]]);
  }
}
