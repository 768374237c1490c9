/**
 Transactions on tables: several row operations, and writes outside all tables, buffered
 and then published at once.
 */
module TableTransactions {
  import opened ByteStrings
  import opened Entries
  import opened Schemas
  import opened Descriptors
  import opened TableData
  import opened IndexUpkeep
  import opened Transactions
  import opened Tables

  datatype TxOp =
    | OnRow(s: Schema, op: RowOp)
    | SetKey(key: Bytes, value: Bytes)
    | DeleteKey(key: Bytes)

  /** An operation on a table that exists, or on a key that no table uses. */
  ghost predicate Allowed(d: Data, o: TxOp) {
    match o
    case OnRow(s, _) => Described(d, s)
    case SetKey(key, _) => RawKey(key)
    case DeleteKey(key) => RawKey(key)
  }

  ghost predicate AllAllowed(d: Data, ops: seq<TxOp>) {
    forall i :: 0 <= i < |ops| ==> Allowed(d, ops[i])
  }

  /** What one operation does to the data that a transaction sees. */
  ghost predicate TxStep(d: Data, d': Data, o: TxOp) {
    match o
    case OnRow(s, op) => if Verdict(d, s, op).Done? then exists was :: Performs(d, d', s, op, was) else d' == d
    case SetKey(key, value) => d' == if key == [] then d else d[key := value]
    case DeleteKey(key) => d' == if key == [] then d else d - {key}
  }

  /** The operations one after the other, from `mid[0]` on. */
  ghost predicate TxRun(ops: seq<TxOp>, mid: seq<Data>) {
    && |mid| == |ops| + 1
    && forall i :: 0 <= i < |ops| ==> TxStep(mid[i], mid[i + 1], ops[i])
  }

  /** The bindings that the operation buffers can be stored. */
  ghost predicate TxFits(d: Data, o: TxOp) {
    match o
    case OnRow(s, op) => Verdict(d, s, op).Done? ==> KeysFit(d, s, op)
    case SetKey(key, value) => key == [] || Wellformed(key, Put(value))
    case DeleteKey(key) => key == [] || Wellformed(key, Erase)
  }

  // ----- Keys outside all tables

  lemma {:induction false} RawCatalogue(d: Data, d': Data)
    requires RawChange(d, d')
    ensures SameCatalogue(d, d')
  {
    hide DescriptorKey, MetadataKey, DescriptorOf, IndexBytes, ValidIndex;
    forall s: Schema ensures Described(d, s) <==> Described(d', s) {
      FirstBytes(s.name, [], []);
    }
    forall s: Schema, x: Index ensures Defined(d, s, x) <==> Defined(d', s, x) {
      FirstBytes(s.name, x.name, []);
    }
  }

  /** What an operation does keeps the tables, their catalogue and their indexes, and is a step of the database. */
  lemma {:induction false} TxStepKeeps(d: Data, d': Data, o: TxOp) returns (steps: seq<Step>)
    requires DatabaseOk(d) && Allowed(d, o) && TxStep(d, d', o)
    ensures DatabaseOk(d') && SameCatalogue(d, d')
    ensures |steps| == 1 && (steps[0].Raw? || steps[0].Replace?) && Does(d, d', steps[0])
  {
    hide DatabaseOk, Described, RowReplaced, Verdict, Target, UniqueFree;
    if o.OnRow? && Verdict(d, o.s, o.op).Done? {
      var was :| Performs(d, d', o.s, o.op, was);
      steps := [Replace(o.s, Target(o.s, o.op).0, was, Target(o.s, o.op).1)];
      ReplacedCatalogue(d, d', o.s, Target(o.s, o.op).0, was, Target(o.s, o.op).1);
    } else {
      assert RawChange(d, d');
      steps := [Raw];
      RawCatalogue(d, d');
    }
    StepKeeps(d, d', steps[0]);
  }

  lemma {:induction false} AllowedStill(d: Data, d': Data, ops: seq<TxOp>)
    requires AllAllowed(d, ops) && SameCatalogue(d, d')
    ensures AllAllowed(d', ops)
  {
  }

  /** A committed transaction is one step of the database. */
  lemma {:induction false} TxRunPasses(ops: seq<TxOp>, mid: seq<Data>, n: nat) returns (steps: seq<Step>)
    requires TxRun(ops, mid) && n <= |ops| && DatabaseOk(mid[0]) && AllAllowed(mid[0], ops)
    ensures Passes(mid[0], mid[n], steps, mid[..n + 1])
    ensures DatabaseOk(mid[n]) && SameCatalogue(mid[0], mid[n])
    decreases n
  {
    hide DatabaseOk, Does, TxStep, Allowed, SameCatalogue;
    if n == 0 {
      SameAsItself(mid[0]);
      steps := [];
    } else {
      var init := TxRunPasses(ops, mid, n - 1);
      AllowedStill(mid[0], mid[n - 1], ops);
      assert TxStep(mid[n - 1], mid[n - 1 + 1], ops[n - 1]);
      var last := TxStepKeeps(mid[n - 1], mid[n], ops[n - 1]);
      SameTrans(mid[0], mid[n - 1], mid[n]);
      steps := init + last;
      PassesMore(mid, n, init, last);
    }
  }

  lemma {:induction false} SameTrans(d: Data, d': Data, d'': Data)
    requires SameCatalogue(d, d') && SameCatalogue(d', d'')
    ensures SameCatalogue(d, d'')
  {
  }

  lemma {:induction false} PassesMore(mid: seq<Data>, n: nat, init: seq<Step>, last: seq<Step>)
    requires 0 < n < |mid| && Passes(mid[0], mid[n - 1], init, mid[..n]) && |last| == 1
    requires (last[0].Raw? || last[0].Replace?) && Does(mid[n - 1], mid[n], last[0])
    ensures Passes(mid[0], mid[n], init + last, mid[..n + 1])
  {
    hide Does;
    var steps, m := init + last, mid[..n + 1];
    forall j | 0 <= j < |steps|
      ensures (steps[j].Raw? || steps[j].Replace?) && Does(m[j], m[j + 1], steps[j])
    {
      if j < |init| {
        assert Does(mid[..n][j], mid[..n][j + 1], init[j]);
      }
    }
  }

  // ----- Running a transaction

  ghost predicate AllWellformed(c: Changes) {
    forall k :: k in c ==> Wellformed(k, c[k])
  }

  /** Runs one operation of a transaction. */
  method Apply(tx: Tx, o: TxOp)
    requires tx.Valid() && !tx.closed && !tx.db.closed && !tx.readOnly
    requires DatabaseOk(tx.db.data) && DatabaseOk(tx.View()) && SameCatalogue(tx.db.data, tx.View())
             && Allowed(tx.View(), o)
    modifies tx`order, tx`changes
    ensures tx.Valid() && TxStep(old(tx.View()), tx.View(), o)
    ensures DatabaseOk(tx.View()) && SameCatalogue(tx.db.data, tx.View())
    ensures AllWellformed(old(tx.changes)) && TxFits(old(tx.View()), o) ==> AllWellformed(tx.changes)
  {
    hide DatabaseOk, Described, Does, RowReplaced, Wellformed, Verdict, Buffered, KeysFit, Target, SameCatalogue;
    hide Overlay, RawKey;
    ghost var view := tx.View();
    match o {
      case OnRow(s, op) =>
        var r;
        ghost var was;
        r, was := MutateTable(tx, s, op);
        if r.Done? && KeysFit(view, s, op) && AllWellformed(old(tx.changes)) {
          BufferedFits(view, tx.View(), s, op, was, old(tx.changes), tx.changes);
        }
        assert r.Done? || tx.View() == view;
      case SetKey(key, value) =>
        var ok := tx.Set(key, value);
      case DeleteKey(key) =>
        var ok, found := tx.Delete(key);
        assert tx.View() == if key == [] then view else view - {key};
    }
    ghost var steps := TxStepKeeps(view, tx.View(), o);
    SameTrans(tx.db.data, view, tx.View());
  }

  lemma {:induction false} BufferedFits(d: Data, d': Data, s: Schema, op: RowOp, was: Option<Row>, c: Changes,
      c': Changes)
    requires Performs(d, d', s, op, was) && Buffered(c, c', d, s, Target(s, op).0, was, Target(s, op).1)
    requires KeysFit(d, s, op) && AllWellformed(c)
    ensures AllWellformed(c')
  {
    hide EntryOf, HasRow, IsEntry, RowAt, Target, UniqueFree, Described;
    var pk, now := Target(s, op).0, Target(s, op).1;
    forall k | k in c' ensures Wellformed(k, c'[k]) {
      if Touches(d, s, pk, was, now, k) {
        TouchedKey(d, s, pk, was, now, k);
        assert OpTouches(d, s, op, was, k);
      } else {
        assert k in c;
      }
    }
  }

  /**
   A whole transaction. Once committed, the database is what the operations make of it one
   after the other, which is one step of the database; otherwise nothing has changed. A
   commit fails only when the writer was not admitted or some binding cannot be stored.
   */
  method Transact(db: Database, ops: seq<TxOp>) returns (ok: bool, ghost mid: seq<Data>, ghost steps: seq<Step>)
    requires db.Valid() && DatabaseOk(db.data) && AllAllowed(db.data, ops)
    modifies db
    ensures db.Valid() && DatabaseOk(db.data)
    ensures !old(db.closed) && !old(db.writerActive) ==> TxRun(ops, mid) && mid[0] == old(db.data)
    ensures ok ==> !old(db.closed) && !old(db.writerActive) && db.data == mid[|ops|]
                   && Does(old(db.data), db.data, Transaction(steps))
    ensures !ok ==> db.data == old(db.data)
    ensures old(db.batches) <= db.batches && |db.batches| == |old(db.batches)| + if ok then 1 else 0
    ensures old(Orderly(db.batches)) ==> Orderly(db.batches)
    ensures !ok ==> old(db.closed) || old(db.writerActive) || exists i :: 0 <= i < |ops| && !TxFits(mid[i], ops[i])
  {
    hide DatabaseOk, Wellformed, TxStep, SameCatalogue, Overlay, TxFits, Allowed, Does, Orderly, Replayed;
    mid, steps := [db.data], [];
    var tx := db.Begin(false);
    if tx == null {
      return false, mid, steps;
    }
    assert tx.View() == db.data by { NoChanges(db.data, tx.changes); }
    SameAsItself(db.data);
    ghost var fits := true;
    var i := 0;
    while i < |ops|
      invariant 0 <= i <= |ops| && |mid| == i + 1 && mid[0] == db.data == old(db.data) && mid[i] == tx.View()
      invariant tx.Valid() && tx.Open() && !db.closed && db.Valid() && db.writers == {tx}
      invariant db.batches == old(db.batches)
      invariant DatabaseOk(tx.View()) && SameCatalogue(db.data, tx.View())
      invariant forall j :: 0 <= j < i ==> TxStep(mid[j], mid[j + 1], ops[j])
      invariant fits ==> AllWellformed(tx.changes)
      invariant !fits ==> exists j :: 0 <= j < i && !TxFits(mid[j], ops[j])
    {
      AllowedStill(db.data, tx.View(), ops);
      ghost var now := mid;
      fits := fits && TxFits(tx.View(), ops[i]);
      Apply(tx, ops[i]);
      mid := mid + [tx.View()];
      if !fits {
        ghost var j :| 0 <= j < i + 1 && !TxFits(now[j], ops[j]);
        assert mid[j] == now[j];
      }
      i := i + 1;
    }
    steps := TxRunPasses(ops, mid, |ops|);
    assert mid[..|ops| + 1] == mid;
    TransactionDoes(mid, steps);
    ghost var batches, changes := db.batches, Listed(tx.order, tx.changes);
    ok := tx.Commit();
    ReplayedMore(batches, changes);
    if !ok {
      tx.Rollback();
    } else if Orderly(batches) {
      OrderlyMore(batches, changes, Transaction(steps));
    }
  }

  lemma {:induction false} NoChanges(d: Data, c: Changes)
    requires c == map[]
    ensures Overlay(d, c) == d
  {
  }

  lemma {:induction false} TransactionDoes(mid: seq<Data>, steps: seq<Step>)
    requires mid != [] && Passes(mid[0], mid[|mid| - 1], steps, mid)
    ensures Does(mid[0], mid[|mid| - 1], Transaction(steps))
  {
    hide Passes;
  }
}
