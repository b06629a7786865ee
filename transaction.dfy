/** The transaction record of mikelogdb/transaction.py: a batch of
    (path, old, new) actions with a transaction id and a link to its parent. */
module Transactions {
  import opened Util

  /** One key lookup along a path: a dict key or a list index. */
  datatype Segment = Key(key: string) | Index(index: nat)

  /** `(path, old, new)`; `Empty` in `oldValue` records creation and in
      `newValue` deletion. */
  datatype Action = Action(path: seq<Segment>, oldValue: Opt, newValue: Opt)

  /** The three kinds of parent the constructor accepts: a Transaction
      object, its hash as a string, or None. */
  datatype Parent = NoParent | ParentHash(hash: string) | ParentTx(tx: Transaction)

  /** A transaction keeps the parent exactly as given. `tid` is `None` only
      when the parent is a hash string and no tid was supplied. */
  datatype Transaction = Transaction(parent: Parent, actions: seq<Action>, tid: Option<int>)

  /** The values of the dict built by `_data_without_hash` and `to_data`. */
  datatype Field =
    | TidField(tid: Option<int>)
    | ParentField(parent: Option<string>)
    | ActionsField(actions: seq<Action>)
    | HashField(hash: string)

  type Data = map<string, Field>

  /** SHA-256 of the sorted-key JSON encoding, then base64. Which digest is
      used is not part of the model: every operation that hashes takes the
      digest as a parameter, so only its determinism is relied upon. */
  type Digest = Data -> string

  /** The tid the constructor expects for a parent: `Fail` when computing it
      raises (`parent.tid + 1` with a parent whose tid is None), and the given
      tid, possibly `None`, for a hash-string parent, which is not checked. */
  function ExpectedTid(parent: Parent, tid: Option<int>): (r: Result<Option<int>>)
    ensures r.Fail? <==> parent.ParentTx? && parent.tx.tid.None?
    ensures r.Ok? && !parent.ParentHash? ==> r.value.Some?
  {
    match parent
    case ParentTx(p) => if p.tid.Some? then Ok(Some(p.tid.value + 1)) else Fail
    case NoParent => Ok(Some(0))
    case ParentHash(_) => Ok(tid)   // no check
  }

  /** `Transaction.__init__`: infer an omitted tid, reject a supplied one
      that differs from what the parent implies. */
  function New(parent: Parent, actions: seq<Action>, tid: Option<int>): (r: Result<Transaction>)
    ensures r.Ok? ==> r.value.parent == parent && r.value.actions == actions
    ensures parent == NoParent ==>
      (r.Ok? <==> tid in {None, Some(0)}) && (r.Ok? ==> r.value.tid == Some(0))
    ensures parent.ParentTx? && parent.tx.tid.Some? ==>
      var want := Some(parent.tx.tid.value + 1);
      (r.Ok? <==> tid in {None, want}) && (r.Ok? ==> r.value.tid == want)
    ensures parent.ParentTx? && parent.tx.tid.None? ==> r == Fail
    ensures parent.ParentHash? ==> r == Ok(Transaction(parent, actions, tid))
  {
    match ExpectedTid(parent, tid)
    case Fail => Fail
    case Ok(expected) =>
      var given := if tid.None? then expected else tid;
      if given != expected then Fail
      else Ok(Transaction(parent, actions, given))
  }

  /** The `parent` entry of `_data_without_hash`: a Transaction parent is
      replaced by its hash, a string or None is kept. */
  function ParentRef(parent: Parent, h: Digest): Option<string>
    decreases parent, 1
  {
    match parent
    case ParentTx(p) => Some(Hash(p, h))
    case ParentHash(s) => Some(s)
    case NoParent => None
  }

  /** `_data_without_hash`. The source reads the bare name `actions` here,
      which is unbound at that point (a NameError); `self.actions` is
      meant and modelled. */
  function DataWithoutHash(t: Transaction, h: Digest): (d: Data)
    decreases t, 0
    ensures d.Keys == {"tid", "parent", "actions"}
    ensures d["tid"] == TidField(t.tid) && d["actions"] == ActionsField(t.actions)
    ensures t.parent.ParentTx? ==> d["parent"] == ParentField(Some(Hash(t.parent.tx, h)))
    ensures t.parent.ParentHash? ==> d["parent"] == ParentField(Some(t.parent.hash))
    ensures t.parent.NoParent? ==> d["parent"] == ParentField(None)
  {
    map["tid" := TidField(t.tid),
        "parent" := ParentField(ParentRef(t.parent, h)),
        "actions" := ActionsField(t.actions)]
  }

  /** The `hash` property. As written it cannot return: `hashlib` is never
      imported, and `json_dump` (mikelogdb/util.py:40-41) raises NameError
      since mikelogdb/util.py never imports `json`; with that import it would
      still return None, having no `return`. The intended digest of the
      encoded hash-free data is modelled. */
  function Hash(t: Transaction, h: Digest): string
    decreases t, 1
  {
    h(DataWithoutHash(t, h))
  }

  /** `to_data`: the hash-free dict plus a `hash` entry. */
  function ToData(t: Transaction, h: Digest): (d: Data)
    ensures d.Keys == DataWithoutHash(t, h).Keys + {"hash"}
    ensures "hash" !in DataWithoutHash(t, h)
    ensures forall k :: k in DataWithoutHash(t, h) ==> d[k] == DataWithoutHash(t, h)[k]
    ensures d["hash"] == HashField(Hash(t, h))
  {
    DataWithoutHash(t, h)["hash" := HashField(Hash(t, h))]
  }

  /** The hash sees only (tid, parent hash, actions): two transactions that
      agree on those hash alike, whatever object their parent is. */
  lemma HashDependsOnTriple(t1: Transaction, t2: Transaction, h: Digest)
    requires t1.tid == t2.tid && t1.actions == t2.actions
    requires ParentRef(t1.parent, h) == ParentRef(t2.parent, h)
    ensures Hash(t1, h) == Hash(t2, h)
  {
    assert DataWithoutHash(t1, h) == DataWithoutHash(t2, h);
  }

  /** Content addressing: a transaction built on a parent object and the
      same transaction naming that parent by its hash string are
      indistinguishable by hash. */
  lemma ParentObjectOrHash(p: Transaction, actions: seq<Action>, tid: Option<int>, h: Digest)
    ensures Hash(Transaction(ParentTx(p), actions, tid), h)
         == Hash(Transaction(ParentHash(Hash(p, h)), actions, tid), h)
  {
    HashDependsOnTriple(Transaction(ParentTx(p), actions, tid),
                        Transaction(ParentHash(Hash(p, h)), actions, tid), h);
  }
}
