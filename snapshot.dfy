/** The materialised state of mikelogdb/snapshot.py and the replay of one
    transaction onto it. */
module Snapshots {
  import opened Util
  import opened Transactions

  /* ---------- Reading along a path ---------- */

  /** `data[key]` when it returns: a dict key that is present, a list index
      in range, or an index into a string (which yields a one-character
      string). Every other lookup raises KeyError, IndexError or TypeError. */
  function Child(v: Value, s: Segment): (r: Option<Value>)
    ensures r.Some? ==> v.Object? || v.List? || v.Str?
    ensures v.Object? && s.Key? ==> (r.Some? <==> s.key in v.fields)
    ensures v.Str? && r.Some? ==> r.value.Str? && |r.value.s| == 1
  {
    match (v, s)
    case (Object(m), Key(k)) => if k in m then Some(m[k]) else None
    case (List(xs), Index(n)) => if n < |xs| then Some(xs[n]) else None
    case (Str(cs), Index(n)) => if n < |cs| then Some(Str([cs[n]])) else None
    case _ => None
  }

  /** The value reached by `data = data[key]` for each segment in turn. */
  function Lookup(v: Value, path: seq<Segment>): (r: Option<Value>)
    ensures r.Some? && v.Str? ==> r.value.Str?
    decreases |path|
  {
    if path == [] then Some(v)
    else match Child(v, path[0])
      case None => None
      case Some(c) => Lookup(c, path[1..])
  }

  /** `p` is a prefix of `q`. */
  predicate Prefix(p: seq<Segment>, q: seq<Segment>) {
    |p| <= |q| && q[..|p|] == p
  }

  /** Two paths that part ways: neither is a prefix of the other. */
  predicate Apart(p: seq<Segment>, q: seq<Segment>) {
    !Prefix(p, q) && !Prefix(q, p)
  }

  /** Prefixes under a common first segment. */
  lemma PrefixCons(s: Segment, p: seq<Segment>, q: seq<Segment>)
    ensures Prefix([s] + p, [s] + q) <==> Prefix(p, q)
  {
    if |p| <= |q| {
      assert ([s] + q)[..|p| + 1] == [s] + q[..|p|];
      assert ([s] + q[..|p|])[1..] == q[..|p|] && ([s] + p)[1..] == p;
    }
  }

  /** How `p + [s]` relates to `q` through `p`. */
  lemma PrefixFacts(p: seq<Segment>, s: Segment, q: seq<Segment>)
    ensures Prefix(p, p + [s])
    ensures Prefix(q, p) ==> Prefix(q, p + [s])
    ensures Prefix(p, q) && |q| == |p| ==> q == p
    ensures Prefix(p, q) && |q| > |p| && q[|p|] == s ==> Prefix(p + [s], q)
  {
    assert (p + [s])[..|p|] == p;
    if |q| <= |p| {
      assert (p + [s])[..|q|] == p[..|q|];
    }
    if |q| > |p| {
      assert q[..|p| + 1] == q[..|p|] + [q[|p|]];
    }
  }

  /** The walk goes through `path` and `Child` is taken at the end. */
  lemma {:induction false} LookupAppend(v: Value, path: seq<Segment>, s: Segment)
    ensures Lookup(v, path + [s]) ==
      (if Lookup(v, path).Some? then Child(Lookup(v, path).value, s) else None)
    decreases |path|
  {
    if path == [] {
      assert [] + [s] == [s];
    } else {
      assert (path + [s])[0] == path[0];
      assert (path + [s])[1..] == path[1..] + [s];
      if Child(v, path[0]).Some? {
        LookupAppend(Child(v, path[0]).value, path[1..], s);
      }
    }
  }

  /* ---------- Writing and deleting in one container ---------- */

  /** `data[key] = ...` does not raise: a dict with a string key, or a list
      with an index in range. `del data[key]` on a dict also needs the key to
      be present; `Finish` deletes only after the old-value check has found
      it. Strings and scalars refuse item assignment and deletion. */
  predicate Assignable(c: Value, s: Segment) {
    match (c, s)
    case (Object(_), Key(_)) => true
    case (List(xs), Index(n)) => n < |xs|
    case _ => false
  }

  /** `c[s] = x` on a container that accepts it; anything else is left as
      it is. */
  function Put(c: Value, s: Segment, x: Value): (r: Value)
    ensures Assignable(c, s) ==> Child(r, s) == Some(x)
    ensures forall s' :: s' != s ==> Child(r, s') == Child(c, s')
    ensures !Assignable(c, s) ==> r == c
  {
    match (c, s)
    case (Object(m), Key(k)) => Object(m[k := x])
    case (List(xs), Index(n)) => if n < |xs| then List(xs[n := x]) else c
    case _ => c
  }

  /** `del c[s]` on a container that accepts it. */
  function Delete(c: Value, s: Segment): (r: Value)
    requires Assignable(c, s)
    ensures c.Object? ==> r == Object(c.fields - {s.key})
    ensures c.List? ==> r.List? && |r.items| == |c.items| - 1
    ensures c.List? ==> forall i :: 0 <= i < |r.items| ==>
      r.items[i] == c.items[if i < s.index then i else i + 1]
  {
    match (c, s)
    case (Object(m), Key(k)) => Object(m - {k})
    case (List(xs), Index(n)) => List(xs[..n] + xs[n + 1..])
  }

  /** The last step of one action, on the container `c` the walk reached:
      the conflict check against `old`, then the write of `new`, or the
      deletion when only `old` is given, or nothing when both are EMPTY
      (mikelogdb/snapshot.py:47-54). */
  function Finish(c: Value, last: Segment, oldValue: Opt, newValue: Opt): (r: Result<Value>)
    ensures oldValue.Present? && (Child(c, last).None? || !Equal(Child(c, last).value, oldValue.value))
      ==> r == Fail
    ensures newValue.Present? && r.Ok? ==> Child(r.value, last) == Some(newValue.value)
    ensures newValue.Present? && r.Ok? ==> forall s :: s != last ==> Child(r.value, s) == Child(c, s)
    ensures oldValue.Empty? && newValue.Present? ==> (r.Ok? <==> Assignable(c, last))
    ensures oldValue.Present? && Child(c, last).Some? && Equal(Child(c, last).value, oldValue.value)
      ==> (r.Ok? <==> Assignable(c, last))
    ensures oldValue.Present? && newValue.Empty? && r.Ok? ==>
      Assignable(c, last) && Child(c, last).Some? && r.value == Delete(c, last)
    ensures oldValue.Empty? && newValue.Empty? ==> r == Ok(c)
  {
    if oldValue.Present? && (Child(c, last).None? || !Equal(Child(c, last).value, oldValue.value)) then
      Fail
    else if newValue.Present? then
      if Assignable(c, last) then Ok(Put(c, last, newValue.value)) else Fail
    else if oldValue.Present? then
      if Assignable(c, last) then Ok(Delete(c, last)) else Fail
    else
      Ok(c)
  }

  /* ---------- One action ---------- */

  /** Walk `prefix`, finish at `last`, and put each changed container back
      into its parent. In the source the walk holds references into the
      tree, so the change made at the end is seen from the root; here the
      tree is a value and is rebuilt along the path. */
  function Edit(v: Value, prefix: seq<Segment>, last: Segment, oldValue: Opt, newValue: Opt): (r: Result<Value>)
    ensures r.Ok? ==> Lookup(v, prefix).Some?
    decreases |prefix|
  {
    if prefix == [] then Finish(v, last, oldValue, newValue)
    else match Child(v, prefix[0])
      case None => Fail
      case Some(c) =>
        match Edit(c, prefix[1..], last, oldValue, newValue)
        case Fail => Fail
        case Ok(c') => Ok(Put(v, prefix[0], c'))
  }

  /** `path[:-1]`. */
  function Init(path: seq<Segment>): seq<Segment>
    requires |path| > 0
  {
    path[..|path| - 1]
  }

  /** `path[-1]`. */
  function Last(path: seq<Segment>): Segment
    requires |path| > 0
  {
    path[|path| - 1]
  }

  /** One iteration of the loop over actions (mikelogdb/snapshot.py:37-57).
      An empty path raises IndexError at `path[-1]`. */
  function ApplyAction(v: Value, a: Action): (r: Result<Value>)
    ensures r.Ok? ==> |a.path| > 0 && Lookup(v, Init(a.path)).Some?
  {
    if |a.path| == 0 then Fail
    else Edit(v, Init(a.path), Last(a.path), a.oldValue, a.newValue)
  }

  /** The actions in order, each on the tree the previous ones left; the
      first failure fails the whole batch. */
  function ApplyActions(v: Value, actions: seq<Action>): Result<Value>
    decreases |actions|
  {
    if actions == [] then Ok(v)
    else match ApplyAction(v, actions[0])
      case Fail => Fail
      case Ok(w) => ApplyActions(w, actions[1..])
  }

  /** The tid gate (mikelogdb/snapshot.py:26-33): an uninitialised snapshot
      takes only tid 0, a snapshot at tid t only tid t + 1. A transaction
      whose tid is None never passes. */
  predicate Accepts(snapshotTid: Option<int>, tid: Option<int>): (r: bool)
    ensures r ==> tid.Some?
    ensures r && snapshotTid.Some? ==> tid.value > snapshotTid.value
  {
    if snapshotTid.None? then tid == Some(0) else tid == Some(snapshotTid.value + 1)
  }

  /** The constructor's `data is None` test: JSON null stands for Python's
      None and starts an empty dict. */
  function Initial(data: Value): (r: Value)
    ensures r != Null
    ensures data != Null ==> r == data
    ensures data == Null ==> r == Object(map[])
  {
    if data == Null then Object(map[]) else data
  }

  /** What `apply` computes from a snapshot's tid and data: the new
      snapshot's tid and data, or failure. */
  function Applied(tid: Option<int>, data: Value, t: Transaction): (r: Result<(Option<int>, Value)>)
    ensures tid.None? && t.tid != Some(0) ==> r == Fail
    ensures tid.Some? && t.tid != Some(tid.value + 1) ==> r == Fail
    ensures r.Ok? ==> r.value.0 == t.tid && t.tid.Some?
    ensures r.Ok? ==> ApplyActions(Initial(data), t.actions) == Ok(r.value.1)
    ensures t.actions == [] ==> r == if Accepts(tid, t.tid) then Ok((t.tid, Initial(data))) else Fail
  {
    if !Accepts(tid, t.tid) then Fail
    else match ApplyActions(Initial(data), t.actions)
      case Fail => Fail
      case Ok(w) => Ok((t.tid, w))
  }

  /** Exactly one tid passes the gate of a given snapshot. */
  lemma GateUnique(snapshotTid: Option<int>, t1: Option<int>, t2: Option<int>)
    requires Accepts(snapshotTid, t1) && Accepts(snapshotTid, t2)
    ensures t1 == t2
  {
  }

  /** The data a successful `apply` produces is never null, so building the
      next snapshot from it (`Snapshot(transaction.tid, self.data)`, and
      likewise `copy`) starts from exactly that data. A dict at the top
      stays a dict. */
  lemma AppliedDataKept(tid: Option<int>, data: Value, t: Transaction)
    requires Applied(tid, data, t).Ok?
    ensures var d := Applied(tid, data, t).value.1;
      d != Null && Initial(d) == d && (Initial(data).Object? ==> d.Object?)
  {
    ApplyActionsKeepsRoot(Initial(data), t.actions);
  }

  /* ---------- The snapshot object ---------- */

  class Snapshot {
    /** `None` before any transaction has been applied. */
    var tid: Option<int>
    var data: Value

    /** `Snapshot(tid, data)`. Values are immutable here, so keeping `data`
        is the deep copy. */
    constructor (tid: Option<int>, data: Value)
      ensures this.tid == tid && this.data == Initial(data)
    {
      this.tid := tid;
      this.data := Initial(data);
    }

    /** `copy()`: a fresh snapshot with the same tid and data. */
    method Copy() returns (s: Snapshot)
      ensures fresh(s) && s.tid == tid && s.data == Initial(data)
    {
      s := new Snapshot(tid, data);
    }

    /** `apply(transaction)`: check the tid, then replay the actions on a
        new snapshot. The receiver is never changed, whether the replay
        succeeds or fails. */
    method Apply(t: Transaction) returns (r: Result<Snapshot>)
      ensures unchanged(this)
      ensures tid.None? && t.tid != Some(0) ==> r == Fail
      ensures tid.Some? && t.tid != Some(tid.value + 1) ==> r == Fail
      ensures r.Ok? <==> Accepts(tid, t.tid) && ApplyActions(Initial(data), t.actions).Ok?
      ensures r.Ok? ==> fresh(r.value) && r.value.tid == t.tid
      ensures r.Ok? ==> r.value.data == ApplyActions(Initial(data), t.actions).value
      ensures r.Ok? <==> Applied(tid, data, t).Ok?
      ensures r.Ok? ==> Applied(tid, data, t) == Ok((r.value.tid, r.value.data))
    {
      if tid.None? {
        if t.tid != Some(0) {
          return Fail;
        }
      } else {
        if t.tid != Some(tid.value + 1) {
          return Fail;
        }
      }

      var result := new Snapshot(t.tid, data);

      var i := 0;
      while i < |t.actions|
        invariant 0 <= i <= |t.actions|
        invariant fresh(result) && result.tid == t.tid
        invariant ApplyActions(Initial(data), t.actions) == ApplyActions(result.data, t.actions[i..])
      {
        assert t.actions[i..][1..] == t.actions[i + 1..];
        var step := ApplyAction(result.data, t.actions[i]);
        if step.Fail? {
          return Fail;
        }
        result.data := step.value;
        i := i + 1;
      }
      return Ok(result);
    }
  }

  /* ---------- Properties of one action ---------- */

  /** Anything reached through a string is a fresh one-character string. */
  lemma ChildOfStr(v: Value, s: Segment)
    requires v.Str? && Child(v, s).Some?
    ensures Child(v, s).value.Str?
  {
  }

  /** Below a string nothing can be assigned or deleted, so an edit there
      succeeds only as the no-op of an action whose old and new are both
      EMPTY, and leaves the string as it was. */
  lemma {:induction false} EditUnderStr(v: Value, prefix: seq<Segment>, last: Segment, oldValue: Opt, newValue: Opt)
    requires v.Str? && Edit(v, prefix, last, oldValue, newValue).Ok?
    ensures Edit(v, prefix, last, oldValue, newValue) == Ok(v)
    decreases |prefix|
  {
    if prefix != [] {
      var c := Child(v, prefix[0]).value;
      ChildOfStr(v, prefix[0]);
      EditUnderStr(c, prefix[1..], last, oldValue, newValue);
    }
  }

  /** An edit succeeds exactly when the walk reaches a container and the
      last step succeeds there; that container is then replaced by what the
      last step made of it. */
  lemma {:induction false} EditReaches(v: Value, prefix: seq<Segment>, last: Segment, oldValue: Opt, newValue: Opt)
    ensures Edit(v, prefix, last, oldValue, newValue).Ok? <==>
      Lookup(v, prefix).Some? && Finish(Lookup(v, prefix).value, last, oldValue, newValue).Ok?
    ensures Edit(v, prefix, last, oldValue, newValue).Ok? ==>
      Lookup(Edit(v, prefix, last, oldValue, newValue).value, prefix)
        == Some(Finish(Lookup(v, prefix).value, last, oldValue, newValue).value)
    decreases |prefix|
  {
    if prefix != [] {
      var s := prefix[0];
      if Child(v, s).Some? {
        var c := Child(v, s).value;
        EditReaches(c, prefix[1..], last, oldValue, newValue);
        var e := Edit(c, prefix[1..], last, oldValue, newValue);
        if e.Ok? {
          if v.Str? {
            ChildOfStr(v, s);
            EditUnderStr(c, prefix[1..], last, oldValue, newValue);
          }
          assert Child(Put(v, s, e.value), s) == Some(e.value);
        }
      }
    }
  }

  /** A successful edit leaves every path that parts from the walked prefix
      as it was. */
  lemma {:induction false} EditElsewhere(v: Value, prefix: seq<Segment>, last: Segment, oldValue: Opt, newValue: Opt, q: seq<Segment>)
    requires Edit(v, prefix, last, oldValue, newValue).Ok?
    requires Apart(prefix, q)
    ensures Lookup(Edit(v, prefix, last, oldValue, newValue).value, q) == Lookup(v, q)
    decreases |prefix|
  {
    var s := prefix[0];
    var c := Child(v, s).value;
    var c' := Edit(c, prefix[1..], last, oldValue, newValue).value;
    var w := Put(v, s, c');
    assert q != [];
    if q[0] != s {
      assert Child(w, q[0]) == Child(v, q[0]);
    } else {
      if v.Str? {
        ChildOfStr(v, s);
        EditUnderStr(c, prefix[1..], last, oldValue, newValue);
      } else {
        assert Child(w, s) == Some(c');
        assert prefix == [s] + prefix[1..] && q == [s] + q[1..];
        PrefixCons(s, prefix[1..], q[1..]);
        PrefixCons(s, q[1..], prefix[1..]);
        EditElsewhere(c, prefix[1..], last, oldValue, newValue, q[1..]);
      }
    }
  }

  /** An action with a missing key or an index out of range anywhere along
      `path[:-1]`, or with an empty path, fails. */
  lemma MissingPathFails(v: Value, a: Action)
    requires |a.path| == 0 || Lookup(v, Init(a.path)).None?
    ensures ApplyAction(v, a) == Fail
  {
    if |a.path| > 0 {
      EditReaches(v, Init(a.path), Last(a.path), a.oldValue, a.newValue);
    }
  }

  /** The conflict check: an action whose `old` is given fails unless the
      value now at its path exists and equals `old`. */
  lemma ConflictFails(v: Value, a: Action)
    requires a.oldValue.Present?
    requires Lookup(v, a.path).None? || !Equal(Lookup(v, a.path).value, a.oldValue.value)
    ensures ApplyAction(v, a) == Fail
  {
    if |a.path| > 0 {
      assert a.path == Init(a.path) + [Last(a.path)];
      LookupAppend(v, Init(a.path), Last(a.path));
      EditReaches(v, Init(a.path), Last(a.path), a.oldValue, a.newValue);
    }
  }

  /** A write without an expected old value is not checked: it succeeds
      exactly when the path leads to a dict, or to a list with the index in
      range, and so silently overwrites whatever was there. */
  lemma UncheckedWrite(v: Value, a: Action)
    requires a.oldValue.Empty? && a.newValue.Present?
    ensures ApplyAction(v, a).Ok? <==>
      |a.path| > 0 && Lookup(v, Init(a.path)).Some? && Assignable(Lookup(v, Init(a.path)).value, Last(a.path))
  {
    if |a.path| > 0 {
      EditReaches(v, Init(a.path), Last(a.path), a.oldValue, a.newValue);
    }
  }

  /** A successful write leaves exactly `new` at the action's path. */
  lemma WriteLands(v: Value, a: Action)
    requires a.newValue.Present? && ApplyAction(v, a).Ok?
    ensures Lookup(ApplyAction(v, a).value, a.path) == Some(a.newValue.value)
  {
    var w := ApplyAction(v, a).value;
    EditReaches(v, Init(a.path), Last(a.path), a.oldValue, a.newValue);
    assert a.path == Init(a.path) + [Last(a.path)];
    LookupAppend(w, Init(a.path), Last(a.path));
  }

  /** A successful write changes nothing at a path that parts from the
      action's path. */
  lemma WriteElsewhere(v: Value, a: Action, q: seq<Segment>)
    requires a.newValue.Present? && ApplyAction(v, a).Ok?
    requires Apart(a.path, q)
    ensures Lookup(ApplyAction(v, a).value, q) == Lookup(v, q)
  {
    var p, s := Init(a.path), Last(a.path);
    assert a.path == p + [s];
    if Apart(p, q) {
      EditElsewhere(v, p, s, a.oldValue, a.newValue, q);
    } else {
      // q runs through the container at p and leaves it by another segment
      ApartBeside(p, s, q);
      assert q == p + q[|p|..];
      EditBeside(v, p, s, a.oldValue, a.newValue, q[|p|..]);
    }
  }

  /** A path apart from `p + [s]` but not from `p` runs through `p` and
      leaves it by a segment other than `s`. */
  lemma ApartBeside(p: seq<Segment>, s: Segment, q: seq<Segment>)
    requires Apart(p + [s], q) && !Apart(p, q)
    ensures Prefix(p, q) && |q| > |p| && q[|p|] != s
  {
    PrefixFacts(p, s, q);
    PrefixFacts(q, s, p + [s]);
  }

  /** A write at `s` in the container at `p` leaves every path through `p`
      that continues by another segment as it was. */
  lemma EditBeside(v: Value, p: seq<Segment>, s: Segment, oldValue: Opt, newValue: Opt, rest: seq<Segment>)
    requires newValue.Present? && Edit(v, p, s, oldValue, newValue).Ok?
    requires rest != [] && rest[0] != s
    ensures Lookup(Edit(v, p, s, oldValue, newValue).value, p + rest) == Lookup(v, p + rest)
  {
    EditReaches(v, p, s, oldValue, newValue);
    LookupThrough(v, p, rest);
    LookupThrough(Edit(v, p, s, oldValue, newValue).value, p, rest);
    FinishBeside(Lookup(v, p).value, s, oldValue, newValue, rest);
  }

  /** A write at `s` leaves every path that starts with another segment as
      it was. */
  lemma FinishBeside(c: Value, s: Segment, oldValue: Opt, newValue: Opt, rest: seq<Segment>)
    requires newValue.Present? && Finish(c, s, oldValue, newValue).Ok?
    requires rest != [] && rest[0] != s
    ensures Lookup(Finish(c, s, oldValue, newValue).value, rest) == Lookup(c, rest)
  {
    var c' := Finish(c, s, oldValue, newValue).value;
    assert Child(c', rest[0]) == Child(c, rest[0]);
  }

  /** Looking up `p + rest` is looking up `rest` from what `p` reaches. */
  lemma {:induction false} LookupThrough(v: Value, p: seq<Segment>, rest: seq<Segment>)
    ensures Lookup(v, p + rest) ==
      (if Lookup(v, p).Some? then Lookup(Lookup(v, p).value, rest) else None)
    decreases |p|
  {
    if p == [] {
      assert p + rest == rest;
    } else {
      assert (p + rest)[0] == p[0];
      assert (p + rest)[1..] == p[1..] + rest;
      if Child(v, p[0]).Some? {
        LookupThrough(Child(v, p[0]).value, p[1..], rest);
      }
    }
  }

  /** A successful deletion (old given, new EMPTY) removes the key from its
      dict, or the element from its list, shifting the later elements; paths
      that part from the container's path are untouched. */
  lemma DeleteRemoves(v: Value, a: Action, q: seq<Segment>)
    requires a.oldValue.Present? && a.newValue.Empty? && ApplyAction(v, a).Ok?
    ensures Lookup(v, Init(a.path)).Some?
    ensures var c := Lookup(v, Init(a.path)).value;
      Assignable(c, Last(a.path)) && Child(c, Last(a.path)).Some? &&
      Lookup(ApplyAction(v, a).value, Init(a.path)) == Some(Delete(c, Last(a.path)))
    ensures Lookup(v, Init(a.path)).value.Object? ==> Lookup(ApplyAction(v, a).value, a.path) == None
    ensures Apart(Init(a.path), q) ==> Lookup(ApplyAction(v, a).value, q) == Lookup(v, q)
  {
    var p, s := Init(a.path), Last(a.path);
    EditReaches(v, p, s, a.oldValue, a.newValue);
    assert a.path == p + [s];
    LookupAppend(ApplyAction(v, a).value, p, s);
    if Apart(p, q) {
      EditElsewhere(v, p, s, a.oldValue, a.newValue, q);
    }
  }

  /** An action whose old and new are both EMPTY changes nothing; it still
      fails when the path is empty or `path[:-1]` cannot be walked. */
  lemma NoOpAction(v: Value, a: Action)
    requires a.oldValue.Empty? && a.newValue.Empty?
    ensures ApplyAction(v, a) ==
      if |a.path| > 0 && Lookup(v, Init(a.path)).Some? then Ok(v) else Fail
  {
    if |a.path| > 0 {
      EditReaches(v, Init(a.path), Last(a.path), a.oldValue, a.newValue);
      if Lookup(v, Init(a.path)).Some? {
        EditNoOp(v, Init(a.path), Last(a.path));
      }
    }
  }

  lemma {:induction false} EditNoOp(v: Value, prefix: seq<Segment>, last: Segment)
    requires Lookup(v, prefix).Some?
    ensures Edit(v, prefix, last, Empty, Empty) == Ok(v)
    decreases |prefix|
  {
    if prefix != [] {
      var s := prefix[0];
      var c := Child(v, s).value;
      EditNoOp(c, prefix[1..], last);
      PutBack(v, s);
    }
  }

  /** Putting back the child just read leaves the container as it was. */
  lemma PutBack(v: Value, s: Segment)
    requires Child(v, s).Some?
    ensures Put(v, s, Child(v, s).value) == v
  {
    match (v, s)
    case (Object(m), Key(k)) =>
      assert m[k := m[k]] == m;
    case (List(xs), Index(n)) =>
      assert xs[n := xs[n]] == xs;
    case _ =>
  }

  /** An action never changes what kind of value the root is: a dict stays
      a dict, a list a list, and anything else is left as it was. */
  lemma EditKeepsRoot(v: Value, prefix: seq<Segment>, last: Segment, oldValue: Opt, newValue: Opt)
    requires Edit(v, prefix, last, oldValue, newValue).Ok?
    ensures var w := Edit(v, prefix, last, oldValue, newValue).value;
      (v.Object? ==> w.Object?) && (v.List? ==> w.List?) &&
      (!v.Object? && !v.List? ==> w == v)
  {
  }

  /* ---------- Properties of a batch ---------- */

  /** Replaying two batches one after the other is replaying their
      concatenation: each action sees the effects of the earlier ones. */
  lemma {:induction false} ApplyActionsAppend(v: Value, xs: seq<Action>, ys: seq<Action>)
    ensures ApplyActions(v, xs + ys) ==
      (if ApplyActions(v, xs).Ok? then ApplyActions(ApplyActions(v, xs).value, ys) else Fail)
    decreases |xs|
  {
    if xs == [] {
      assert xs + ys == ys;
    } else {
      assert (xs + ys)[0] == xs[0];
      assert (xs + ys)[1..] == xs[1..] + ys;
      if ApplyAction(v, xs[0]).Ok? {
        ApplyActionsAppend(ApplyAction(v, xs[0]).value, xs[1..], ys);
      }
    }
  }

  /** All or nothing: when the action at position i fails on the tree the
      earlier actions produced, the whole batch fails. */
  lemma AllOrNothing(v: Value, actions: seq<Action>, i: nat)
    requires i < |actions| && ApplyActions(v, actions[..i]).Ok?
    requires ApplyAction(ApplyActions(v, actions[..i]).value, actions[i]) == Fail
    ensures ApplyActions(v, actions) == Fail
  {
    assert actions == actions[..i] + actions[i..];
    ApplyActionsAppend(v, actions[..i], actions[i..]);
  }

  /** A batch keeps the kind of the root: the store's top level stays a
      JSON object however many actions are replayed. */
  lemma {:induction false} ApplyActionsKeepsRoot(v: Value, actions: seq<Action>)
    requires ApplyActions(v, actions).Ok?
    ensures var w := ApplyActions(v, actions).value;
      (v.Object? ==> w.Object?) && (v.List? ==> w.List?) &&
      (!v.Object? && !v.List? ==> w == v)
    decreases |actions|
  {
    if actions != [] {
      var a := actions[0];
      EditKeepsRoot(v, Init(a.path), Last(a.path), a.oldValue, a.newValue);
      ApplyActionsKeepsRoot(ApplyAction(v, a).value, actions[1..]);
    }
  }
}
