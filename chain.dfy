/** How the two core files fit together: a transaction built on a parent
    passes the tid gate of the snapshot that parent produced, so a chain
    built from genesis replays in order. */
module Chain {
  import opened Util
  import opened Transactions
  import opened Snapshots

  /** The tid a snapshot accepts next: 0 before genesis, then one more. */
  function NextTid(tid: Option<int>): int {
    if tid.None? then 0 else tid.value + 1
  }

  /** A transaction built on parent `p` has tid `p.tid + 1` and so passes
      `apply`'s gate on any snapshot that `p` itself produced. */
  lemma BuiltOnParentPasses(tid: Option<int>, data: Value, p: Transaction, actions: seq<Action>, given: Option<int>)
    requires Applied(tid, data, p).Ok?
    requires New(ParentTx(p), actions, given).Ok?
    ensures Accepts(Applied(tid, data, p).value.0, New(ParentTx(p), actions, given).value.tid)
  {
  }

  /** The first transaction, built with no parent, passes the gate of an
      uninitialised snapshot. */
  lemma RootPasses(actions: seq<Action>, given: Option<int>)
    requires New(NoParent, actions, given).Ok?
    ensures Accepts(None, New(NoParent, actions, given).value.tid)
  {
  }

  /** `ts` was built by the constructor, the first with no parent and each
      later one on its predecessor. */
  ghost predicate Built(ts: seq<Transaction>) {
    forall i: nat :: i < |ts| ==> BuiltAt(ts, i)
  }

  /** The i-th transaction is what the constructor made of its parent, its
      actions and its tid. */
  ghost predicate BuiltAt(ts: seq<Transaction>, i: nat)
    requires i < |ts|
  {
    New(ParentAt(ts, i), ts[i].actions, ts[i].tid) == Ok(ts[i])
  }

  /** The parent the i-th transaction of a chain was built on. */
  function ParentAt(ts: seq<Transaction>, i: nat): Parent
    requires i < |ts|
  {
    if i == 0 then NoParent else ParentTx(ts[i - 1])
  }

  /** In a built chain the i-th transaction has tid i. */
  lemma {:induction false} BuiltTid(ts: seq<Transaction>, i: nat)
    requires Built(ts) && i < |ts|
    ensures ts[i].tid == Some(i)
    decreases i
  {
    if i > 0 {
      BuiltTid(ts, i - 1);
    }
    assert BuiltAt(ts, i);
  }

  /** Every action of the chain, in order. */
  function AllActions(ts: seq<Transaction>): seq<Action> {
    if ts == [] then [] else ts[0].actions + AllActions(ts[1..])
  }

  /** Replaying a log: fold `apply` over the transactions, from a snapshot's
      tid and data. */
  function Replay(tid: Option<int>, data: Value, ts: seq<Transaction>): Result<(Option<int>, Value)>
    decreases |ts|
  {
    if ts == [] then Ok((tid, data))
    else match Applied(tid, data, ts[0])
      case Fail => Fail
      case Ok(next) => Replay(next.0, next.1, ts[1..])
  }

  /** The tid a replay of `ts` ends at when no transaction is refused. */
  function LastTid(tid: Option<int>, ts: seq<Transaction>): Option<int> {
    if ts == [] then tid else Some(NextTid(tid) + |ts| - 1)
  }

  /** All of `ts`'s actions replayed as one batch, ending at `LastTid`. */
  function Batch(tid: Option<int>, data: Value, ts: seq<Transaction>): Result<(Option<int>, Value)> {
    match ApplyActions(data, AllActions(ts))
    case Fail => Fail
    case Ok(w) => Ok((LastTid(tid, ts), w))
  }

  /** `ts`'s tids count up from the one a snapshot at `tid` accepts next. */
  ghost predicate Consecutive(tid: Option<int>, ts: seq<Transaction>) {
    forall i :: 0 <= i < |ts| ==> ts[i].tid == Some(NextTid(tid) + i)
  }

  /** Transactions whose tids count up from the one the snapshot accepts
      next replay as one batch: the tid gate never refuses them, the replay
      fails exactly when one of their actions does, and ends at the last
      tid. */
  lemma {:induction false} ReplayConsecutive(tid: Option<int>, data: Value, ts: seq<Transaction>)
    requires data != Null && Consecutive(tid, ts)
    ensures Replay(tid, data, ts) == Batch(tid, data, ts)
    decreases |ts|
  {
    if ts != [] {
      var t := ts[0];
      ReplayFirst(tid, data, ts);
      BatchFirst(tid, data, ts);
      if ApplyActions(data, t.actions).Ok? {
        ApplyActionsKeepsRoot(data, t.actions);
        TidsShift(tid, ts);
        ReplayConsecutive(t.tid, ApplyActions(data, t.actions).value, ts[1..]);
      }
    }
  }

  /** One step of a replay: a transaction that passes the gate replays its
      own actions, and the rest of the log continues from there. */
  lemma ReplayFirst(tid: Option<int>, data: Value, ts: seq<Transaction>)
    requires ts != [] && data != Null && Consecutive(tid, ts)
    ensures Replay(tid, data, ts) ==
      match ApplyActions(data, ts[0].actions)
      case Fail => Fail
      case Ok(w) => Replay(ts[0].tid, w, ts[1..])
  {
    assert Accepts(tid, ts[0].tid);
  }

  /** The same step for the batch: its first transaction's actions come
      first, and the rest ends at the same tid. */
  lemma BatchFirst(tid: Option<int>, data: Value, ts: seq<Transaction>)
    requires ts != [] && Consecutive(tid, ts)
    ensures Batch(tid, data, ts) ==
      match ApplyActions(data, ts[0].actions)
      case Fail => Fail
      case Ok(w) => Batch(ts[0].tid, w, ts[1..])
  {
    assert AllActions(ts) == ts[0].actions + AllActions(ts[1..]);
    ApplyActionsAppend(data, ts[0].actions, AllActions(ts[1..]));
    assert ts[0].tid == Some(NextTid(tid));
    assert LastTid(tid, ts) == LastTid(ts[0].tid, ts[1..]);
  }

  /** Consecutive tids stay consecutive after the first is dropped. */
  lemma TidsShift(tid: Option<int>, ts: seq<Transaction>)
    requires ts != [] && Consecutive(tid, ts)
    ensures Consecutive(ts[0].tid, ts[1..])
  {
    assert ts[0].tid == Some(NextTid(tid));
    forall i | 0 <= i < |ts[1..]|
      ensures ts[1..][i].tid == Some(NextTid(ts[0].tid) + i)
    {
      assert ts[1..][i] == ts[i + 1];
    }
  }

  /** Chaining: a log built by the constructor from genesis replays onto a
      fresh snapshot without any tid refusal; it succeeds exactly when all
      its actions succeed in order, and ends at tid n - 1. */
  lemma ReplayBuiltChain(data: Value, ts: seq<Transaction>)
    requires Built(ts) && ts != []
    ensures Replay(None, Initial(data), ts) ==
      match ApplyActions(Initial(data), AllActions(ts))
      case Fail => Fail
      case Ok(w) => Ok((Some(|ts| - 1), w))
  {
    BuiltConsecutive(ts);
    ReplayConsecutive(None, Initial(data), ts);
    assert LastTid(None, ts) == Some(|ts| - 1);
  }

  /** A built chain counts up from 0. */
  lemma BuiltConsecutive(ts: seq<Transaction>)
    requires Built(ts)
    ensures Consecutive(None, ts)
  {
    forall i | 0 <= i < |ts| ensures ts[i].tid == Some(NextTid(None) + i) {
      BuiltTid(ts, i);
    }
  }

  /** The first action of the log below creates `foo` on an empty store. */
  lemma CreateFoo()
    ensures ApplyAction(Object(map[]), Action([Key("foo")], Empty, Present(Object(map["bar" := Int(1)]))))
         == Ok(Object(map["foo" := Object(map["bar" := Int(1)])]))
  {
    var a0 := Action([Key("foo")], Empty, Present(Object(map["bar" := Int(1)])));
    assert Init(a0.path) == [] && Last(a0.path) == Key("foo");
    assert map[]["foo" := Object(map["bar" := Int(1)])] == map["foo" := Object(map["bar" := Int(1)])];
  }

  /** The second action of the log below changes `foo.bar` from 1 to 2. */
  lemma RaiseFooBar()
    ensures ApplyAction(Object(map["foo" := Object(map["bar" := Int(1)])]),
                        Action([Key("foo"), Key("bar")], Present(Int(1)), Present(Int(2))))
         == Ok(Object(map["foo" := Object(map["bar" := Int(2)])]))
  {
    var a1 := Action([Key("foo"), Key("bar")], Present(Int(1)), Present(Int(2)));
    var mid := Object(map["foo" := Object(map["bar" := Int(1)])]);
    assert Init(a1.path) == [Key("foo")] && Last(a1.path) == Key("bar");
    assert Equal(Int(1), Int(1));
    assert map["bar" := Int(1)]["bar" := Int(2)] == map["bar" := Int(2)];
    assert mid.fields["foo" := Object(map["bar" := Int(2)])] == map["foo" := Object(map["bar" := Int(2)])];
  }

  /** A two-transaction log: the first creates `foo` as `{"bar": 1}` on an
      empty store, the second, built on the first, changes `foo.bar` from 1
      to 2. Replayed from genesis the store ends at tid 1 with
      `{"foo": {"bar": 2}}`; the second transaction is refused by the
      snapshot it produced (tid gate), and by a snapshot where `foo.bar` is
      no longer 1 (conflict check). */
  lemma TwoStepLog()
    ensures var a0 := Action([Key("foo")], Empty, Present(Object(map["bar" := Int(1)])));
      var a1 := Action([Key("foo"), Key("bar")], Present(Int(1)), Present(Int(2)));
      var t0 := Transaction(NoParent, [a0], Some(0));
      var t1 := Transaction(ParentTx(t0), [a1], Some(1));
      var done := Object(map["foo" := Object(map["bar" := Int(2)])]);
      New(NoParent, [a0], None) == Ok(t0) &&
      New(ParentTx(t0), [a1], None) == Ok(t1) &&
      Replay(None, Initial(Null), [t0, t1]) == Ok((Some(1), done)) &&
      Applied(Some(1), done, t1) == Fail &&
      Applied(Some(0), done, t1) == Fail
  {
    var a0 := Action([Key("foo")], Empty, Present(Object(map["bar" := Int(1)])));
    var a1 := Action([Key("foo"), Key("bar")], Present(Int(1)), Present(Int(2)));
    var t0 := Transaction(NoParent, [a0], Some(0));
    var t1 := Transaction(ParentTx(t0), [a1], Some(1));
    var mid := Object(map["foo" := Object(map["bar" := Int(1)])]);
    var done := Object(map["foo" := Object(map["bar" := Int(2)])]);
    CreateFoo();
    RaiseFooBar();
    assert Replay(Some(1), done, []) == Ok((Some(1), done));
    assert [t0, t1][1..] == [t1];
    assert Applied(Some(0), done, t1) == Fail by {
      assert Init(a1.path) == [Key("foo")] && Last(a1.path) == Key("bar");
      ConflictFails(done, a1);
      assert [a1][1..] == [];
    }
    assert New(NoParent, [a0], None) == Ok(t0);
    assert New(ParentTx(t0), [a1], None) == Ok(t1);
    assert [a0][1..] == [] && [a1][1..] == [];
    assert ApplyActions(Object(map[]), [a0]) == Ok(mid);
    assert ApplyActions(mid, [a1]) == Ok(done);
    assert Applied(None, Initial(Null), t0) == Ok((Some(0), mid));
    assert Applied(Some(0), mid, t1) == Ok((Some(1), done));
    assert [t1][1..] == [];
    assert Replay(Some(0), mid, [t1]) == Ok((Some(1), done));
    assert Replay(None, Initial(Null), [t0, t1]) == Ok((Some(1), done));
    assert Applied(Some(1), done, t1) == Fail;
  }
}
