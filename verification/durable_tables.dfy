/**
 Tables on the durable store: if every batch is an operation on tables, then tables and
 indexes agree in whatever a crash leaves behind.
 */
module DurableTables {
  import opened ByteStrings
  import opened PageUpdates
  import opened PageRemoval
  import opened Recovery
  import opened PageFiles
  import opened CommitProtocol
  import opened KvUpdates
  import Upkeep = IndexUpkeep
  import Writes = Transactions
  import Tables

  /** The mutations that a list of buffered changes is handed to the store as. */
  function BatchOf(changes: Writes.ChangeList): (b: Batch)
    ensures |b| == |changes|
  {
    seq(|changes|, i requires 0 <= i < |changes| =>
      match changes[i].1
      case Put(value) => Set(changes[i].0, value)
      case Erase => Delete(changes[i].0))
  }

  /** The store and the table layer agree on what a list of changes does. */
  lemma {:induction false} BatchIsList(m: map<Bytes, Bytes>, changes: Writes.ChangeList)
    ensures ApplyAll(m, BatchOf(changes)) == Writes.ApplyList(m, changes)
  {
    if changes != [] {
      var init := changes[..|changes| - 1];
      BatchIsList(m, init);
      assert BatchOf(changes)[..|changes| - 1] == BatchOf(init);
    }
  }

  /** The limits of the database are those of the store: what it publishes is not refused for its keys or values. */
  lemma {:induction false} WellformedIsStorable(changes: Writes.ChangeList, i: nat)
    requires i < |changes|
    ensures Writes.Wellformed(changes[i].0, changes[i].1) <==> !Unstorable(BatchOf(changes)[i])
  {
  }

  /**
   A batch that the database publishes is applied by the store, unless a removal in it finds
   no room for the key that follows, which is then longer.
   */
  lemma {:induction false} PublishedRefused(v: Version, changes: Writes.ChangeList, i: nat)
    requires forall j :: 0 <= j < |changes| ==> Writes.Wellformed(changes[j].0, changes[j].1)
    requires RefusedAt(v, BatchOf(changes), i)
    ensures i < |changes| && changes[i].1.Erase?
    ensures var m := Writes.ApplyList(Contents(v), changes[..i]);
            changes[i].0 in m && exists next :: Successor(m, changes[i].0, next) && |next| > |changes[i].0|
  {
    hide RefusedAt, ApplyAll, Contents, Successor;
    RefusedAtMeans(v, BatchOf(changes), i);
    WellformedIsStorable(changes, i);
    assert BatchOf(changes)[..i] == BatchOf(changes[..i]);
    BatchIsList(Contents(v), changes[..i]);
  }

  /** The store has kept the published lists, apart from some that change nothing. */
  ghost predicate Stores(log: seq<Batch>, batches: seq<Writes.ChangeList>)
    decreases |batches|
  {
    if batches == [] then log == []
    else
      var n := |batches| - 1;
      || (log != [] && log[|log| - 1] == BatchOf(batches[n]) && Stores(log[..|log| - 1], batches[..n]))
      || (Writes.Replayed(batches) == Writes.Replayed(batches[..n]) && Stores(log, batches[..n]))
  }

  /** Every batch does one operation on tables, or one transaction. */
  ghost predicate Tabular(log: seq<Batch>) {
    forall i :: 0 <= i < |log| ==> TabularAt(log, i)
  }

  ghost predicate TabularAt(log: seq<Batch>, i: nat)
    requires i < |log|
  {
    exists step :: Upkeep.Does(Replay(log[..i]), ApplyAll(Replay(log[..i]), log[i]), step)
  }

  lemma {:induction false} TabularMore(log: seq<Batch>, batch: Batch, step: Upkeep.Step)
    requires Tabular(log) && Upkeep.Does(Replay(log), ApplyAll(Replay(log), batch), step)
    ensures Tabular(log + [batch]) && Replay(log + [batch]) == ApplyAll(Replay(log), batch)
  {
    hide Upkeep.Does, ApplyAll;
    var all := log + [batch];
    assert all[..|log|] == log && all[|log|] == batch;
    forall i | 0 <= i < |all| ensures TabularAt(all, i) {
      if i < |log| {
        assert TabularAt(log, i) && all[..i] == log[..i] && all[i] == log[i];
      } else {
        assert Upkeep.Does(Replay(all[..i]), ApplyAll(Replay(all[..i]), all[i]), step);
      }
    }
  }

  /** What the table layer has published, the store has as table operations, with the same outcome. */
  lemma {:induction false} PublishedIsTabular(log: seq<Batch>, batches: seq<Writes.ChangeList>)
    requires Tables.Orderly(batches) && Stores(log, batches)
    ensures Tabular(log) && Replay(log) == Writes.Replayed(batches)
    decreases |batches|
  {
    hide Upkeep.Does, ApplyAll, Writes.ApplyList, BatchOf;
    if batches != [] {
      var n := |batches| - 1;
      var init := batches[..n];
      forall i | 0 <= i < n ensures Tables.OrderlyAt(init, i) {
        assert Tables.OrderlyAt(batches, i) && init[..i] == batches[..i];
      }
      if Writes.Replayed(batches) == Writes.Replayed(init) && Stores(log, init) {
        PublishedIsTabular(log, init);
      } else {
        var before := log[..|log| - 1];
        PublishedIsTabular(before, init);
        assert Tables.OrderlyAt(batches, n);
        var step :| Upkeep.Does(Writes.Replayed(init), Writes.ApplyList(Writes.Replayed(init), batches[n]), step);
        BatchIsList(Replay(before), batches[n]);
        TabularMore(before, BatchOf(batches[n]), step);
        assert log == before + [BatchOf(batches[n])];
      }
    }
  }

  lemma {:induction false} TabularKeeps(log: seq<Batch>, n: nat)
    requires Tabular(log) && n <= |log|
    ensures Upkeep.DatabaseOk(Replay(log[..n]))
    decreases n
  {
    hide Upkeep.Does, ApplyAll;
    if n == 0 {
      NoTables();
    } else {
      TabularKeeps(log, n - 1);
      assert log[..n][..n - 1] == log[..n - 1];
      assert TabularAt(log, n - 1);
      var before := Replay(log[..n - 1]);
      var step :| Upkeep.Does(before, ApplyAll(before, log[n - 1]), step);
      Upkeep.StepKeeps(before, ApplyAll(before, log[n - 1]), step);
    }
  }

  lemma {:induction false} NoTables()
    ensures Upkeep.DatabaseOk(Replay([]))
  {
    Upkeep.RunsKeepIndexes([map[]], [], 0);
  }

  /**
   In every run of commits, failures, repairs and crashes whose batches are table operations,
   the map that is recovered has every index agree with its rows.
   */
  lemma {:induction false} RecoveredTables(t: seq<State>, w: View, g: Gen)
    requires Run(t) && CrashView(t[|t| - 1].disk, w) && Recovers(false, w, g)
    requires Tabular(t[|t| - 1].log)
    requires t[|t| - 1].flight.Flying? ==> Tabular(t[|t| - 1].log + [t[|t| - 1].flight.batch])
    ensures Upkeep.DatabaseOk(Contents(g.v))
  {
    hide Next, Init, Recovers, CrashView, Contents, Replay, Tabular, Upkeep.DatabaseOk;
    var s := t[|t| - 1];
    CrashAtomicity(t, w);
    if Contents(g.v) == Replay(s.log) {
      TabularKeeps(s.log, |s.log|);
      assert s.log[..|s.log|] == s.log;
    } else {
      var log := s.log + [s.flight.batch];
      TabularKeeps(log, |log|);
      assert log[..|log|] == log;
    }
  }

  /**
   The same for what the table layer has published: after a crash the store holds all of it,
   or all of it and the batch in flight, and tables and indexes agree.
   */
  lemma {:induction false} RecoveredDatabase(t: seq<State>, w: View, g: Gen, batches: seq<Writes.ChangeList>,
      next: Writes.ChangeList)
    requires Run(t) && CrashView(t[|t| - 1].disk, w) && Recovers(false, w, g)
    requires Tables.Orderly(batches) && Stores(t[|t| - 1].log, batches)
    requires t[|t| - 1].flight.Flying? ==>
               Tables.Orderly(batches + [next]) && t[|t| - 1].flight.batch == BatchOf(next)
    ensures Upkeep.DatabaseOk(Contents(g.v))
    ensures || Contents(g.v) == Writes.Replayed(batches)
            || (t[|t| - 1].flight.Flying? && Contents(g.v) == Writes.Replayed(batches + [next]))
  {
    hide Next, Init, Recovers, CrashView, Contents, Replay, Tabular, Upkeep.DatabaseOk, Tables.Orderly, BatchOf;
    var s := t[|t| - 1];
    CrashAtomicity(t, w);
    PublishedIsTabular(s.log, batches);
    Tables.OrderlyKeeps(batches);
    if s.flight.Flying? {
      var log, all := s.log + [s.flight.batch], batches + [next];
      assert log[..|log| - 1] == s.log && all[..|all| - 1] == batches;
      PublishedIsTabular(log, all);
      Tables.OrderlyKeeps(all);
    }
  }
}
