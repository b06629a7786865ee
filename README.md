# mikelogdb core in Dafny

mikelogdb is a toy append-only JSON store. Its state is a JSON tree. A log of
transactions advances that tree. Each transaction carries a transaction id
(tid), a link to its parent transaction, and a batch of `(path, old, new)`
actions. This project models the two pieces that make up the store's core:

- **Replaying a transaction onto a snapshot** (`Snapshot.apply`,
  `mikelogdb/snapshot.py`). First comes the tid gate: an uninitialised
  snapshot takes only tid 0, and a snapshot at tid t takes only t + 1. Then
  the actions are replayed in order on a copy of the data. Each action walks
  `path[:-1]`. It then checks the expected old value unless `old` is EMPTY,
  and then writes `new`, or deletes the key when only `old` is given. Any
  failure fails the whole call, and the receiver is never changed. The
  snapshot is a Dafny `class` with `tid` and `data` fields. `Apply` is a
  method with a loop over the actions. The walk-and-update of one action is
  a recursive function over the `Value` datatype.
- **Building a transaction** (`Transaction.__init__`, `_data_without_hash`,
  `hash`, `to_data` in `mikelogdb/transaction.py`). The constructor infers
  and validates the tid from the kind of parent. A parent Transaction gives
  `parent.tid + 1`, `None` gives 0, and a hash string means no check. The
  constructor assigns the fields once and nothing reassigns them, so the
  record is a datatype, and construction is a function
  that returns a success or failure result.

Files:

- `util.dfy` (module `Util`): the JSON `Value` datatype, the `Opt` type whose
  `Empty` variant is the `EMPTY` sentinel (distinct from JSON null), and
  `Equal`, which is Python's `==` on JSON values. So `True == 1` holds.
- `transaction.dfy` (module `Transactions`): path segments, actions,
  parents, transactions, the constructor `New`, `DataWithoutHash`, `Hash`
  and `ToData`.
- `snapshot.dfy` (module `Snapshots`): the path walk, one action
  (`Finish`, `Edit`, `ApplyAction`), a batch (`ApplyActions`), the tid gate
  (`Accepts`), the `Snapshot` class, and their properties.
- `chain.dfy` (module `Chain`): how the two files fit together. A
  transaction built on a parent passes the gate of the snapshot that parent
  produced. A log built from genesis replays like one batch of all its
  actions.

The hash is a parameter `h: Digest`, a function from the hash-free dict to a
string. Nothing is assumed about it except that it is a function, so it is
deterministic.

The model follows the code:

- `apply` checks only tids. It does not compare the transaction's parent
  with the snapshot.
- An action whose old and new are both EMPTY is accepted and changes
  nothing. Like any action, it still fails on an empty path or when
  `path[:-1]` cannot be walked.
- An omitted tid with a hash-string parent stays `None`, although the
  constructor's docstring (mikelogdb/transaction.py:12) speaks of omitting
  the tid only for a Transaction parent. Such a transaction never passes the
  tid gate.

Two defects in `mikelogdb/transaction.py` are modelled as evidently intended
and noted at the members concerned:

- line 48 reads the unbound name `actions` where `self.actions` is meant;
- `hashlib` is used at line 54 but never imported. Even with it imported,
  line 54 would fail: `json_dump` (mikelogdb/util.py:40-41) raises NameError,
  because mikelogdb/util.py has no `import json`, and even with that import
  it would return None, because it has no `return`. A working sorted-key
  encoder is assumed.

## Model

| member | source | states |
|---|---|---|
| `Util.Equal` | mikelogdb/snapshot.py:48 | Python's `!=` in the conflict check, negated. No contract of its own; `EqualReflexive` states that it holds of every value and itself, and `ConflictFails` and `Finish` state how the check uses it |
| `Util.EqualReflexive` | mikelogdb/snapshot.py:48 | every value equals itself under Python's `==`, so an expected old value equal to the current one never trips the conflict check |
| `Transactions.ExpectedTid` | mikelogdb/transaction.py:25-31 | computing the expected tid raises exactly for a Transaction parent whose tid is None. For a Transaction parent or None it gives a tid; only a hash-string parent can leave it unknown |
| `Transactions.New` | mikelogdb/transaction.py:10-38 | parent None: succeeds exactly for an omitted tid or tid 0, giving tid 0. Parent Transaction with tid t: succeeds exactly for an omitted tid or t + 1, giving t + 1. Parent Transaction with tid None fails. Hash-string parent: any tid is kept unchanged, including an omitted one. Parent and actions are kept as given |
| `Transactions.Hash` | mikelogdb/transaction.py:50-54 | the digest of the hash-free dict. No contract of its own; `HashDependsOnTriple` (only tid, parent reference and actions matter) and `ParentObjectOrHash` (a parent object and its hash string hash alike) characterise it, and `ToData` stores it |
| `Transactions.DataWithoutHash` | mikelogdb/transaction.py:46-48 | the dict has exactly the keys tid, parent and actions. A Transaction parent is replaced by its hash, and a string or None parent passes through unchanged |
| `Transactions.ToData` | mikelogdb/transaction.py:56-59 | the hash-free dict plus exactly one new key, `hash`, which equals the `hash` property. Every other entry is unchanged |
| `Transactions.HashDependsOnTriple` | mikelogdb/transaction.py:50-54 | two transactions with equal tid, parent hash and actions have equal hashes |
| `Transactions.ParentObjectOrHash` | mikelogdb/transaction.py:46-54 | naming the parent by its object or by its hash string gives the same hash (content addressing) |
| `Snapshots.Snapshot.constructor` | mikelogdb/snapshot.py:12-19 | stores the tid, and the data or an empty dict when the data is None |
| `Snapshots.Snapshot.Copy` | mikelogdb/snapshot.py:21-22 | a fresh snapshot with the same tid and data |
| `Snapshots.Snapshot.Apply` | mikelogdb/snapshot.py:24-59 | an uninitialised snapshot refuses every tid but 0, and a snapshot at t refuses every tid but t + 1, whatever the actions. Success holds exactly when the gate passes and every action succeeds in order. A success is a fresh snapshot with the transaction's tid and the replayed data. The receiver is unchanged in every case |
| `Snapshots.Applied` | mikelogdb/snapshot.py:24-59 | the same gate as a function. On success the tid is the transaction's, and the data is the batch replayed on the receiver's data. With no actions, only the tid moves |
| `Snapshots.Initial` | mikelogdb/snapshot.py:16-19 | a snapshot's data is never null: None starts an empty dict, and any other data is kept |
| `Snapshots.AppliedDataKept` | mikelogdb/snapshot.py:35 | the data a successful `apply` produces is never null, so the next `Snapshot(transaction.tid, self.data)` (and `copy`, line 22) starts from exactly that data. A dict at the top stays a dict |
| `Snapshots.Accepts` | mikelogdb/snapshot.py:26-33 | the tid gate passes only a transaction with a tid, and that tid is greater than the snapshot's, so a chain of snapshots only moves forward |
| `Snapshots.GateUnique` | mikelogdb/snapshot.py:26-33 | exactly one tid passes the gate of a given snapshot |
| `Snapshots.Child` | mikelogdb/snapshot.py:45-48 | `data[key]` returns only on a dict, a list or a string (scalars are not subscriptable). On a dict it returns exactly when the key is present (otherwise KeyError). Indexing a string gives a one-character string |
| `Snapshots.Lookup` | mikelogdb/snapshot.py:43-46 | the walk `data = data[key]` along a path. Below a string only strings are reached. How walks compose is stated by `LookupAppend` and `LookupThrough` |
| `Snapshots.Edit` | mikelogdb/snapshot.py:41-54 | a successful edit walked the whole prefix. What it changes is stated by `EditReaches`, what it leaves alone by `EditElsewhere`, and the kind of the root by `EditKeepsRoot` |
| `Snapshots.ApplyAction` | mikelogdb/snapshot.py:37-57 | one action succeeds only on a non-empty path whose `path[:-1]` walks. The failure cases are stated by `MissingPathFails` and `ConflictFails`, the effects by `WriteLands`, `WriteElsewhere`, `DeleteRemoves` and `NoOpAction` |
| `Snapshots.ApplyActions` | mikelogdb/snapshot.py:37-59 | no contract of its own. `ApplyActionsAppend` (each action sees the earlier ones' effects), `AllOrNothing` (the first failure fails the batch), `ApplyActionsKeepsRoot` and the contract of `Snapshots.Snapshot.Apply` (the loop computes it) characterise it |
| `Snapshots.Put` | mikelogdb/snapshot.py:52 | `c[key] = x` leaves `x` at `key` in a dict or an in-range list slot, and every other key or index reads as before |
| `Snapshots.Delete` | mikelogdb/snapshot.py:53-54 | `del c[key]` removes the key from a dict. For a list it removes the element and shifts the later ones down by one |
| `Snapshots.Finish` | mikelogdb/snapshot.py:47-54 | a given old value that is missing or differs fails. A write leaves exactly `new` at the key and the other keys alone. Without an old value a write is unchecked and succeeds exactly on a dict or an in-range list index. A deletion removes the key. Both EMPTY changes nothing |
| `Snapshots.LookupAppend` | mikelogdb/snapshot.py:43-48 | walking `path + [key]` is walking `path` and then looking up `key` |
| `Snapshots.LookupThrough` | mikelogdb/snapshot.py:43-45 | walking `p + rest` is walking `p` and then walking `rest` from there |
| `Snapshots.EditReaches` | mikelogdb/snapshot.py:41-54 | an action succeeds exactly when the walk of `path[:-1]` reaches a container and the last step succeeds there. That container then holds what the last step made of it |
| `Snapshots.EditElsewhere` | mikelogdb/snapshot.py:41-54 | every path that parts from `path[:-1]` reads as before |
| `Snapshots.EditUnderStr` | mikelogdb/snapshot.py:43-54 | below a string (which can be indexed but not assigned to) an action succeeds only as a no-op |
| `Snapshots.MissingPathFails` | mikelogdb/snapshot.py:38-57 | an empty path, or a missing key or out-of-range index anywhere along `path[:-1]`, fails the action |
| `Snapshots.ConflictFails` | mikelogdb/snapshot.py:48-50 | an action with a given old value fails when the value at its path is missing or differs from it |
| `Snapshots.UncheckedWrite` | mikelogdb/snapshot.py:48-52 | with old EMPTY and new given, no check is made. The action succeeds exactly when the path leads to a dict or an in-range list index, and it silently overwrites what was there |
| `Snapshots.WriteLands` | mikelogdb/snapshot.py:51-52 | after a successful write, exactly `new` is at the action's path |
| `Snapshots.WriteElsewhere` | mikelogdb/snapshot.py:51-52 | after a successful write, every path that parts from the action's path reads as before |
| `Snapshots.DeleteRemoves` | mikelogdb/snapshot.py:51-54 | a successful deletion found the key and replaced its container by the container without it. For a dict the path then no longer resolves. Every path that parts from the container's path reads as before |
| `Snapshots.NoOpAction` | mikelogdb/snapshot.py:48-54 | old and new both EMPTY leaves the tree unchanged. The action still fails on an empty path or an unwalkable `path[:-1]` |
| `Snapshots.EditNoOp` | mikelogdb/snapshot.py:43-54 | on a walkable prefix, the both-EMPTY action returns the tree unchanged |
| `Snapshots.PutBack` | mikelogdb/snapshot.py:45 | writing back the child just read leaves the container unchanged |
| `Snapshots.EditKeepsRoot` | mikelogdb/snapshot.py:41-54 | an action keeps the root's kind: a dict stays a dict, a list stays a list, and a scalar or string is unchanged |
| `Snapshots.ApplyActionsKeepsRoot` | mikelogdb/snapshot.py:37-59 | the same for a whole batch, so the store's top level stays a dict |
| `Snapshots.ApplyActionsAppend` | mikelogdb/snapshot.py:37-59 | replaying `xs + ys` is replaying `xs` and then `ys` on its result. Each action sees the effects of the earlier ones |
| `Snapshots.AllOrNothing` | mikelogdb/snapshot.py:37-59 | if any action fails on the tree the earlier ones produced, the whole batch fails |
| `Chain.BuiltOnParentPasses` | mikelogdb/transaction.py:25-38 | a transaction built on parent P passes the tid gate of the snapshot that applying P produced |
| `Chain.RootPasses` | mikelogdb/transaction.py:28-29 | a transaction built with no parent passes the gate of an uninitialised snapshot |
| `Chain.BuiltTid` | mikelogdb/transaction.py:25-38 | in a chain built by the constructor from genesis, the i-th transaction has tid i |
| `Chain.ReplayConsecutive` | mikelogdb/snapshot.py:24-59 | transactions whose tids count up from the one the snapshot accepts next are never refused by the gate. Replaying them succeeds exactly when all their actions succeed in order, and ends at the last tid |
| `Chain.ReplayBuiltChain` | mikelogdb/snapshot.py:26-35 | a chain built from genesis replays onto a fresh snapshot like one batch of all its actions, ending at tid n - 1 |
| `Chain.TwoStepLog` | mikelogdb/snapshot.py:24-59 | replaying a two-transaction log from genesis gives `{"foo": {"bar": 2}}` at tid 1. The second transaction is refused at tid 1 by the tid gate, and on a tree where `foo.bar` is no longer 1 by the conflict check |

## Left out

- File reading and end-of-file detection (`mikelogdb/files.py`): these are I/O.
- The JSON layer of `mikelogdb/util.py` (`json_load`, `json_dump`, the extension registry). It wraps Python's `json` module, which is not part of this model. Only the `EMPTY` sentinel is kept.
- SHA-256, base64 and the sorted-key encoding: the hash is the parameter `h`. Collision resistance is not modelled.
- `Transaction.from_str`: it is JSON parsing and does no hash verification.
- `__repr__`, `__str__`, `json()` and the package docstring: they only format output.
- Floating-point JSON numbers (numbers are integers) and negative Python list indices (indices are naturals).
- The different exception types (ValueError, KeyError, IndexError, TypeError, AttributeError): every one of them is one failure here.
- Writing through an index segment into a dict: Python would insert an integer key. Here dict keys are strings, so that action fails.
- Snapshots.Snapshot.Apply: does not model aliasing between the transaction and the tree. At mikelogdb/snapshot.py:52 the action's `new` object is stored without a copy, and a later action of the same transaction can walk into it (line 45) and change it in place (line 52 or 54). So `apply` can change the transaction it is given (its actions, and with them its hash and `to_data`). For example, with T = [(("foo",), EMPTY, N = {"bar": 1}), (("foo", "bar"), 1, 2)], a first apply onto an empty snapshot leaves N == {"bar": 2}, and a second apply of T onto an empty snapshot then fails the old-value check. Through the same shared object it can also change the data of every snapshot an earlier apply of that transaction produced: with T = [(("foo",), EMPTY, N = [1, 1, 2]), (("foo", 0), 1, EMPTY)], S1 = Snapshot().apply(T) holds `foo == [1, 2]`, and a second Snapshot().apply(T) succeeds and leaves S1 holding `foo == [2]`. This breaks the deep-copy promise of mikelogdb/snapshot.py:8-10. Here values cannot change, so replay is a pure function of the tid, the data and the actions.
- Snapshots.Snapshot.Apply and Snapshots.ApplyActions: do not model sharing inside the tree. Values here are trees in which no object sits at two paths. In the source, `deepcopy` (mikelogdb/snapshot.py:19, 35) keeps a shared sub-object shared, and line 52 can store one `new` object at two paths; a write through one path then shows at the other. So the source's result differs from `ApplyActions` whenever the receiver's data or the batch puts one object at two paths. For example, with d = [0], applying [(("a", 0), 0, 5)] to `{"a": d, "b": d}` gives `{"a": [5], "b": [5]}` in the source and `{"a": [5], "b": [0]}` here; and with one object N = {}, the batch [(("a",), EMPTY, N), (("b",), EMPTY, N), (("a", "x"), EMPTY, 1)] on `{}` puts `x` under both keys in the source and only under `a` here.
- Chain.ReplayConsecutive and Chain.ReplayBuiltChain: for the same reason, they describe logs whose action values share nothing with any tree, such as transactions freshly read from the log file.
