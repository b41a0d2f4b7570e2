/**
 * The multi-tree transaction API. Each named tree has one shared `TreeState`:
 * the `published` contents every reader sees, and the `current` contents an
 * executing transaction works on. A transaction changes `current`; committing
 * writes the trees, logs the transaction and publishes `current`; dropping a
 * transaction that was not committed rolls `current` back to `published`.
 *
 * The B-Tree files themselves are not modelled: a tree's contents are the
 * sorted key/value list of `OrderedContents`, and the storage failures a commit
 * can meet are given to it as `CommitFaults`.
 */
module Transactions {
  import opened Errors
  import opened Bytes
  import opened OrderedContents

  /** The extension of a tree's file. */
  const TreeExtension: string := ".nebari"

  /** `Roots::tree_path`: the file name of tree `name`, relative to the database directory. */
  function TreeFileName(name: string): string {
    name + TreeExtension
  }

  /** `str::strip_suffix`, as `Roots::tree_names` uses it to turn file names back into tree names. */
  function StripSuffix(s: string, suffix: string): (r: Option<string>)
    ensures r.Some? <==> |suffix| <= |s| && s[|s| - |suffix|..] == suffix
    ensures r.Some? ==> s == r.value + suffix
  {
    if |suffix| <= |s| && s[|s| - |suffix|..] == suffix then
      assert s == s[..|s| - |suffix|] + s[|s| - |suffix|..];
      Some(s[..|s| - |suffix|])
    else None
  }

  /** Listing the files gives back every tree's name, and only file names of that form name a tree. */
  lemma TreeFileNameRoundTrip(name: string, file: string)
    ensures StripSuffix(TreeFileName(name), TreeExtension) == Some(name)
    ensures StripSuffix(file, TreeExtension).Some? ==> TreeFileName(StripSuffix(file, TreeExtension).value) == file
  {
    var f := TreeFileName(name);
    assert f[|f| - |TreeExtension|..] == TreeExtension;
    assert f[..|f| - |TreeExtension|] == name;
  }

  /** Two trees never share a file. */
  lemma TreeFileNameInjective(a: string, b: string)
    requires TreeFileName(a) == TreeFileName(b)
    ensures a == b
  {
    TreeFileNameRoundTrip(a, TreeFileName(a));
    TreeFileNameRoundTrip(b, TreeFileName(b));
  }

  /**
   * The storage failures a commit meets: the trees (by position in the
   * transaction) whose file cannot be written, and whether appending to the
   * transaction log fails.
   */
  datatype CommitFaults = CommitFaults(failingTrees: set<nat>, logFails: bool)

  const NoFaults: CommitFaults := CommitFaults({}, false)

  /** Whether one of the first `count` trees fails to be written. */
  predicate SomeTreeFails(faults: CommitFaults, count: nat) {
    exists i :: i in faults.failingTrees && i < count
  }

  /** What `compare_and_swap` returns: success, `CompareAndSwapError::Conflict` with the stored value, or `CompareAndSwapError::Error`. */
  datatype CompareAndSwapResult = Swapped | Conflict(existing: Option<Value>) | Failed(error: Error)

  /** The shared state of one tree. */
  class TreeState {
    /** What readers outside a transaction see. */
    var published: Contents
    /** What the transaction holding the tree works on. */
    var current: Contents

    ghost predicate Valid()
      reads this
    {
      Sorted(published) && Sorted(current)
    }

    /** The default state of a tree that has no file yet: empty. */
    constructor ()
      ensures Valid() && published == [] && current == []
    {
      published := [];
      current := [];
    }

    /** Makes what the transaction wrote visible to readers. */
    method Publish()
      requires Valid()
      modifies this
      ensures Valid()
      ensures published == old(current) && current == old(current)
    {
      published := current;
    }

    /** Forgets what the transaction wrote. */
    method Rollback()
      requires Valid()
      modifies this
      ensures Valid()
      ensures current == old(published) && published == old(published)
    {
      current := published;
    }
  }

  /** A tree as an executing transaction sees it: reads and writes go to the state's `current` contents. */
  class TransactionTree {
    const transactionId: nat
    const name: string
    const state: TreeState

    constructor (transactionId: nat, name: string, state: TreeState)
      ensures this.transactionId == transactionId && this.name == name && this.state == state
    {
      this.transactionId := transactionId;
      this.name := name;
      this.state := state;
    }

    /** `TransactionTree::set`. */
    method Set(key: Key, value: Value)
      requires state.Valid()
      modifies state
      ensures state.Valid() && state.published == old(state.published)
      ensures state.current == Upsert(old(state.current), key, value)
      ensures forall k :: Find(state.current, k) == if k == key then Some(value) else Find(old(state.current), k)
    {
      UpsertSorted(state.current, key, value);
      forall k
        ensures Find(Upsert(state.current, key, value), k) == if k == key then Some(value) else Find(state.current, k)
      {
        FindUpsert(state.current, key, value, k);
      }
      state.current := Upsert(state.current, key, value);
    }

    /** `TransactionTree::replace`: sets the value and returns the one it replaced. */
    method Replace(key: Key, value: Value) returns (existing: Option<Value>)
      requires state.Valid()
      modifies state
      ensures state.Valid() && state.published == old(state.published)
      ensures existing == Find(old(state.current), key)
      ensures state.current == Upsert(old(state.current), key, value)
      ensures forall k :: Find(state.current, k) == if k == key then Some(value) else Find(old(state.current), k)
    {
      existing := Find(state.current, key);
      var operation := KeyOperation.Set(value);
      ApplySorted(state.current, key, operation);
      forall k
        ensures Find(Apply(state.current, key, operation), k) == if k == key then Some(value) else Find(state.current, k)
      {
        FindApply(state.current, key, operation, k);
      }
      state.current := Apply(state.current, key, operation);
    }

    /** `TransactionTree::get`: sees what this transaction has written. */
    method Get(key: Key) returns (r: Option<Value>)
      ensures r == Find(state.current, key)
    {
      r := Find(state.current, key);
    }

    /** `TransactionTree::remove`: deletes the key and returns the value it held. */
    method Remove(key: Key) returns (existing: Option<Value>)
      requires state.Valid()
      modifies state
      ensures state.Valid() && state.published == old(state.published)
      ensures existing == Find(old(state.current), key)
      ensures state.current == Delete(old(state.current), key)
      ensures forall k :: Find(state.current, k) == if k == key then None else Find(old(state.current), k)
    {
      existing := Find(state.current, key);
      var operation := KeyOperation.Remove;
      ApplySorted(state.current, key, operation);
      forall k
        ensures Find(Apply(state.current, key, operation), k) == if k == key then None else Find(state.current, k)
      {
        FindApply(state.current, key, operation, k);
      }
      state.current := Apply(state.current, key, operation);
    }

    /**
     * `TransactionTree::compare_and_swap`: when the key holds `expected`, it
     * is set to `replacement` (removed when that is `None`); otherwise the key
     * is left as it is and the stored value is reported as a conflict.
     */
    method CompareAndSwap(key: Key, expected: Option<Value>, replacement: Option<Value>) returns (r: CompareAndSwapResult)
      requires state.Valid()
      modifies state
      ensures state.Valid() && state.published == old(state.published)
      ensures r == if Find(old(state.current), key) == expected then Swapped else Conflict(Find(old(state.current), key))
      ensures state.current == Apply(old(state.current), key, CompareSwapDecision(Find(old(state.current), key), expected, replacement))
      ensures Find(state.current, key) == if r.Swapped? then replacement else Find(old(state.current), key)
      ensures forall k :: k != key ==> Find(state.current, k) == Find(old(state.current), k)
    {
      r := Swapped;
      var stored := Find(state.current, key);
      var operation;
      if stored == expected {
        if replacement.Some? {
          operation := KeyOperation.Set(replacement.value);
        } else {
          operation := KeyOperation.Remove;
        }
      } else {
        r := Conflict(stored);
        operation := KeyOperation.Skip;
      }
      assert operation == CompareSwapDecision(stored, expected, replacement);
      ApplySorted(state.current, key, operation);
      forall k
        ensures k != key ==> Find(Apply(state.current, key, operation), k) == Find(state.current, k)
      {
        FindApply(state.current, key, operation, k);
      }
      CompareSwapEffect(state.current, key, expected, replacement, key);
      state.current := Apply(state.current, key, operation);
    }

    /** `TransactionTree::get_multiple`: the stored pairs for the keys asked; missing keys are left out. */
    method GetMultiple(keys: seq<Key>) returns (r: Contents)
      ensures forall p :: p in r <==> p.0 in keys && Find(state.current, p.0) == Some(p.1)
    {
      r := FindAll(state.current, keys);
    }

    /**
     * `TransactionTree::last_key`: the greatest key, or `None` for an empty
     * tree. It scans outside the transaction, so it sees the published
     * contents and not this transaction's own writes.
     */
    method LastKey() returns (r: Option<Key>)
      requires state.Valid()
      ensures r.None? <==> forall k :: Find(state.published, k).None?
      ensures r.Some? ==> Find(state.published, r.value).Some?
      ensures r.Some? ==> forall k :: Find(state.published, k).Some? && k != r.value ==> Less(k, r.value)
    {
      LastIsGreatest(state.published);
      var last := OrderedContents.Last(state.published);
      r := if last.Some? then Some(last.value.0) else None;
    }

    /**
     * `TransactionTree::last`: the greatest key with its value, or `None` for
     * an empty tree; like `last_key`, it sees the published contents.
     */
    method Last() returns (r: Option<(Key, Value)>)
      requires state.Valid()
      ensures r.None? <==> forall k :: Find(state.published, k).None?
      ensures r.Some? ==> Find(state.published, r.value.0) == Some(r.value.1)
      ensures r.Some? ==> forall k :: Find(state.published, k).Some? && k != r.value.0 ==> Less(k, r.value.0)
    {
      LastIsGreatest(state.published);
      r := OrderedContents.Last(state.published);
    }
  }

  /** The registry of tree states and the transaction log. */
  class Roots {
    /** One state per tree name, created on first use. */
    var treeStates: map<string, TreeState>
    /** The ids of the committed transactions, oldest first. */
    var committed: seq<nat>
    /** The id the next transaction gets. */
    var nextTransactionId: nat

    ghost predicate Valid()
      reads this, treeStates.Values
    {
      && (forall n :: n in treeStates ==> treeStates[n].Valid())
      && (forall a, b :: a in treeStates && b in treeStates && a != b ==> treeStates[a] != treeStates[b])
    }

    /** What tree `name` currently holds for a transaction: empty when it has no state yet. */
    ghost function CurrentOf(name: string): Contents
      reads this, treeStates.Values
    {
      if name in treeStates then treeStates[name].current else []
    }

    /** What readers of tree `name` see: empty when it has no state yet. */
    ghost function PublishedOf(name: string): Contents
      reads this, treeStates.Values
    {
      if name in treeStates then treeStates[name].published else []
    }

    /** A database with no trees opened yet. */
    constructor ()
      ensures Valid() && treeStates == map[] && committed == [] && nextTransactionId == 0
    {
      treeStates := map[];
      committed := [];
      nextTransactionId := 0;
    }

    /** One step of `Roots::tree_states`: the state of tree `name`, registering an empty one if it has none. */
    method StateFor(name: string) returns (state: TreeState)
      requires Valid()
      modifies this
      ensures Valid()
      ensures name in treeStates && state == treeStates[name]
      ensures treeStates == if name in old(treeStates) then old(treeStates) else old(treeStates)[name := state]
      ensures treeStates.Keys == old(treeStates).Keys + {name}
      ensures forall n :: n in old(treeStates) ==> treeStates[n] == old(treeStates[n])
      ensures name !in old(treeStates) ==> fresh(state) && state.published == [] && state.current == []
      ensures committed == old(committed) && nextTransactionId == old(nextTransactionId)
    {
      if name !in treeStates {
        state := new TreeState();
        treeStates := treeStates[name := state];
      } else {
        state := treeStates[name];
      }
    }

    /** `Roots::tree_states`: the state of each named tree, registering an empty one for a name seen for the first time. */
    method TreeStates(names: seq<string>) returns (states: seq<TreeState>)
      requires Valid()
      modifies this
      ensures Valid()
      ensures |states| == |names|
      ensures forall i :: 0 <= i < |names| ==> names[i] in treeStates && states[i] == treeStates[names[i]]
      ensures forall n :: n in treeStates <==> n in old(treeStates) || n in names
      ensures forall n :: n in old(treeStates) ==> treeStates[n] == old(treeStates[n])
      ensures forall n :: n in treeStates && n !in old(treeStates) ==>
        fresh(treeStates[n]) && treeStates[n].published == [] && treeStates[n].current == []
      ensures committed == old(committed) && nextTransactionId == old(nextTransactionId)
    {
      states := [];
      var i := 0;
      while i < |names|
        invariant 0 <= i <= |names| && |states| == i
        invariant Valid()
        invariant forall j :: 0 <= j < i ==> names[j] in treeStates && states[j] == treeStates[names[j]]
        invariant forall n :: n in treeStates <==> n in old(treeStates) || exists j :: 0 <= j < i && names[j] == n
        invariant forall n :: n in old(treeStates) ==> treeStates[n] == old(treeStates[n])
        invariant forall n :: n in treeStates && n !in old(treeStates) ==>
          fresh(treeStates[n]) && treeStates[n].published == [] && treeStates[n].current == []
        invariant committed == old(committed) && nextTransactionId == old(nextTransactionId)
      {
        var state := StateFor(names[i]);
        states := states + [state];
        i := i + 1;
      }
    }

    /** `Roots::delete_tree`: forgets the tree's state; true exactly when one was registered. */
    method DeleteTree(name: string) returns (r: bool)
      requires Valid()
      modifies this
      ensures Valid()
      ensures r == (name in old(treeStates))
      ensures treeStates == old(treeStates) - {name}
      ensures committed == old(committed) && nextTransactionId == old(nextTransactionId)
    {
      r := name in treeStates;
      treeStates := treeStates - {name};
    }

    /** `Roots::tree`: a handle on tree `name`, sharing the registered state. */
    method Tree(name: string) returns (t: Tree)
      requires Valid()
      modifies this
      ensures Valid() && fresh(t)
      ensures t.roots == this && t.name == name
      ensures name in treeStates && t.state == treeStates[name]
      ensures treeStates.Keys == old(treeStates).Keys + {name}
      ensures forall n :: n in old(treeStates) ==> treeStates[n] == old(treeStates[n])
      ensures name !in old(treeStates) ==> fresh(t.state) && t.state.published == [] && t.state.current == []
      ensures committed == old(committed) && nextTransactionId == old(nextTransactionId)
    {
      var state := StateFor(name);
      t := new Tree(this, state, name);
    }

    /** `Roots::transaction`: a new transaction holding the named trees, in the order given. */
    method Transaction(names: seq<string>) returns (tx: ExecutingTransaction)
      requires Valid()
      modifies this
      ensures Valid() && fresh(tx) && tx.Valid()
      ensures tx.roots == this && tx.transaction == Some(old(nextTransactionId))
      ensures |tx.trees| == |names|
      ensures forall i :: 0 <= i < |names| ==>
        && fresh(tx.trees[i])
        && tx.trees[i].name == names[i]
        && tx.trees[i].transactionId == old(nextTransactionId)
        && names[i] in treeStates && tx.trees[i].state == treeStates[names[i]]
      ensures forall n :: n in treeStates <==> n in old(treeStates) || n in names
      ensures forall n :: n in old(treeStates) ==> treeStates[n] == old(treeStates[n])
      ensures forall n :: n in treeStates && n !in old(treeStates) ==>
        fresh(treeStates[n]) && treeStates[n].published == [] && treeStates[n].current == []
      ensures committed == old(committed) && nextTransactionId == old(nextTransactionId) + 1
    {
      var id := nextTransactionId;
      nextTransactionId := nextTransactionId + 1;
      var states := TreeStates(names);
      var trees := BeginTrees(id, names, states);
      tx := new ExecutingTransaction(this, trees, id);
    }

    /** `Roots::transaction` over the single tree `name`, as the tree handle's own operations begin one. */
    method TransactionOn(name: string) returns (tx: ExecutingTransaction)
      requires Valid()
      modifies this
      ensures Valid() && fresh(tx) && tx.Valid()
      ensures tx.roots == this && tx.transaction == Some(old(nextTransactionId)) && |tx.trees| == 1
      ensures name in treeStates && tx.trees[0].state == treeStates[name] && tx.States() == {treeStates[name]}
      ensures treeStates == if name in old(treeStates) then old(treeStates) else old(treeStates)[name := treeStates[name]]
      ensures name !in old(treeStates) ==>
        fresh(treeStates[name]) && treeStates[name].published == [] && treeStates[name].current == []
      ensures committed == old(committed) && nextTransactionId == old(nextTransactionId) + 1
    {
      tx := Transaction([name]);
      assert tx.States() == {tx.trees[0].state};
    }
  }

  /** The per-tree part of `Roots::transaction`: one transaction tree for each name, over its state. */
  method BeginTrees(id: nat, names: seq<string>, states: seq<TreeState>) returns (trees: seq<TransactionTree>)
    requires |states| == |names|
    ensures |trees| == |names|
    ensures forall j :: 0 <= j < |names| ==>
      fresh(trees[j]) && trees[j].name == names[j] && trees[j].transactionId == id && trees[j].state == states[j]
  {
    trees := [];
    var i := 0;
    while i < |names|
      invariant 0 <= i <= |names| && |trees| == i
      invariant forall j :: 0 <= j < i ==>
        fresh(trees[j]) && trees[j].name == names[j] && trees[j].transactionId == id && trees[j].state == states[j]
    {
      var t := new TransactionTree(id, names[i], states[i]);
      trees := trees + [t];
      i := i + 1;
    }
  }

  /** An executing transaction: it holds its trees until it is committed or dropped. */
  class ExecutingTransaction {
    const roots: Roots
    var trees: seq<TransactionTree>
    /** The transaction's handle, taken when it commits or is dropped. */
    var transaction: Option<nat>

    /** The states of the trees the transaction holds. */
    ghost function States(): set<TreeState>
      reads this
    {
      set i | 0 <= i < |trees| :: trees[i].state
    }

    ghost predicate Valid()
      reads this, States()
    {
      forall i :: 0 <= i < |trees| ==> trees[i].state.Valid()
    }

    constructor (roots: Roots, trees: seq<TransactionTree>, id: nat)
      ensures this.roots == roots && this.trees == trees && transaction == Some(id)
    {
      this.roots := roots;
      this.trees := trees;
      transaction := Some(id);
    }

    /** `ExecutingTransaction::tree`: the tree at `index`, in the order the transaction was begun with. */
    method Tree(index: nat) returns (r: Option<TransactionTree>)
      ensures r.Some? <==> index < |trees|
      ensures r.Some? ==> r.value == trees[index]
    {
      r := if index < |trees| then Some(trees[index]) else None;
    }

    /** `rollback_tree_states`: rolls back every held tree and lets go of them. */
    method RollbackTreeStates()
      requires Valid()
      modifies this, States()
      ensures Valid() && trees == [] && transaction == old(transaction)
      ensures forall i :: 0 <= i < |old(trees)| ==>
        && old(trees)[i].state.Valid()
        && old(trees)[i].state.current == old(trees[i].state.published)
        && old(trees)[i].state.published == old(trees[i].state.published)
    {
      var drained := trees;
      var i := 0;
      while i < |drained|
        invariant 0 <= i <= |drained| && trees == old(trees) == drained
        invariant forall j :: 0 <= j < |drained| ==>
          drained[j].state.Valid() && drained[j].state.published == old(drained[j].state.published)
        invariant forall j :: 0 <= j < i ==> drained[j].state.current == drained[j].state.published
        modifies States()
      {
        drained[i].state.Rollback();
        i := i + 1;
      }
      trees := [];
    }

    /** `Drop`: a transaction that still holds its handle is rolled back; otherwise nothing happens. */
    method Drop()
      requires Valid()
      modifies this, States()
      ensures Valid() && transaction.None?
      ensures old(transaction).Some? ==> trees == [] && forall i :: 0 <= i < |old(trees)| ==>
        && old(trees)[i].state.Valid()
        && old(trees)[i].state.current == old(trees[i].state.published)
        && old(trees)[i].state.published == old(trees[i].state.published)
      ensures old(transaction).None? ==> trees == old(trees) && unchanged(States())
    {
      if transaction.Some? {
        transaction := None;
        RollbackTreeStates();
        trees := [];
      }
    }

    /** `ThreadPool::commit_trees`, one tree after another: writes each tree, stopping at the first that fails. */
    static method CommitTrees(taken: seq<TransactionTree>, faults: CommitFaults) returns (r: Result<()>)
      ensures r.Ok? <==> !SomeTreeFails(faults, |taken|)
      ensures r.Err? ==> r.error == Io
    {
      var i := 0;
      while i < |taken|
        invariant 0 <= i <= |taken|
        invariant !SomeTreeFails(faults, i)
      {
        if i in faults.failingTrees {
          return Err(Io);
        }
        i := i + 1;
      }
      r := Ok(());
    }

    /** Publishes every tree in `taken`. */
    static method PublishAll(taken: seq<TransactionTree>)
      requires forall i :: 0 <= i < |taken| ==> taken[i].state.Valid()
      modifies set i | 0 <= i < |taken| :: taken[i].state
      ensures forall i :: 0 <= i < |taken| ==>
        && taken[i].state.Valid()
        && taken[i].state.published == old(taken[i].state.current)
        && taken[i].state.current == old(taken[i].state.current)
    {
      var i := 0;
      while i < |taken|
        invariant 0 <= i <= |taken|
        invariant forall j :: 0 <= j < |taken| ==>
          taken[j].state.Valid() && taken[j].state.current == old(taken[j].state.current)
        invariant forall j :: 0 <= j < i ==> taken[j].state.published == taken[j].state.current
      {
        taken[i].state.Publish();
        i := i + 1;
      }
    }

    /**
     * `ExecutingTransaction::commit` as written: the trees are taken out of
     * the transaction before they are written, so when writing them or the log
     * fails, the `Drop` that follows has nothing left to roll back and the
     * trees keep this transaction's writes in `current`.
     */
    method CommitAsWritten(faults: CommitFaults) returns (r: Result<()>)
      requires Valid() && transaction.Some?
      modifies this, roots, States()
      ensures trees == [] && transaction.None?
      ensures roots.treeStates == old(roots.treeStates) && roots.nextTransactionId == old(roots.nextTransactionId)
      ensures r.Ok? <==> !SomeTreeFails(faults, |old(trees)|) && !faults.logFails
      ensures r.Ok? ==> roots.committed == old(roots.committed) + [old(transaction).value]
      ensures r.Err? ==> r.error == Io && roots.committed == old(roots.committed)
      ensures forall i :: 0 <= i < |old(trees)| ==>
        && old(trees)[i].state.Valid()
        && old(trees)[i].state.current == old(trees[i].state.current)
        && old(trees)[i].state.published == if r.Ok? then old(trees[i].state.current) else old(trees[i].state.published)
    {
      var taken := trees;
      trees := [];
      var written := CommitTrees(taken, faults);
      if written.Err? {
        Drop();
        return written;
      }
      var handle := transaction.value;
      transaction := None;
      if faults.logFails {
        Drop();
        return Err(Io);
      }
      roots.committed := roots.committed + [handle];
      PublishAll(taken);
      Drop();
      r := Ok(());
    }

    /**
     * `ExecutingTransaction::commit` with the trees and the handle taken only
     * once writing the trees and the log has succeeded: a failed commit is
     * rolled back by the `Drop` that follows it.
     */
    method Commit(faults: CommitFaults) returns (r: Result<()>)
      requires Valid() && transaction.Some?
      modifies this, roots, States()
      ensures trees == [] && transaction.None?
      ensures roots.treeStates == old(roots.treeStates) && roots.nextTransactionId == old(roots.nextTransactionId)
      ensures r.Ok? <==> !SomeTreeFails(faults, |old(trees)|) && !faults.logFails
      ensures r.Ok? ==> roots.committed == old(roots.committed) + [old(transaction).value]
      ensures r.Err? ==> r.error == Io && roots.committed == old(roots.committed)
      ensures forall i :: 0 <= i < |old(trees)| ==>
        && old(trees)[i].state.Valid()
        && old(trees)[i].state.published == (if r.Ok? then old(trees[i].state.current) else old(trees[i].state.published))
        && old(trees)[i].state.current == old(trees)[i].state.published
    {
      var written := CommitTrees(trees, faults);
      if written.Err? {
        Drop();
        return written;
      }
      if faults.logFails {
        Drop();
        return Err(Io);
      }
      var handle := transaction.value;
      transaction := None;
      roots.committed := roots.committed + [handle];
      var taken := trees;
      trees := [];
      PublishAll(taken);
      Drop();
      r := Ok(());
    }
  }

  /**
   * A handle on one named tree. Reads see the published contents; each write
   * runs in a transaction of its own over this one tree.
   */
  class Tree {
    const roots: Roots
    const state: TreeState
    const name: string

    constructor (roots: Roots, state: TreeState, name: string)
      ensures this.roots == roots && this.state == state && this.name == name
    {
      this.roots := roots;
      this.state := state;
      this.name := name;
    }

    /**
     * `Tree::set`: sets the key in a transaction of its own and commits it.
     * When the commit fails, readers see what they saw before, but the write
     * stays in the tree's current contents (see `CommitAsWritten`).
     */
    method Set(key: Key, value: Value, faults: CommitFaults) returns (r: Result<()>)
      requires roots.Valid()
      modifies roots, roots.treeStates.Values
      ensures roots.Valid()
      ensures roots.treeStates.Keys == old(roots.treeStates).Keys + {name}
      ensures forall n :: n in old(roots.treeStates) ==> roots.treeStates[n] == old(roots.treeStates[n])
      ensures forall n :: n in old(roots.treeStates) && n != name ==> unchanged(old(roots.treeStates[n]))
      ensures r.Ok? <==> 0 !in faults.failingTrees && !faults.logFails
      ensures r.Err? ==> r.error == Io
      ensures roots.nextTransactionId == old(roots.nextTransactionId) + 1
      ensures roots.committed == old(roots.committed) + if r.Ok? then [old(roots.nextTransactionId)] else []
      ensures roots.CurrentOf(name) == Upsert(old(roots.CurrentOf(name)), key, value)
      ensures roots.PublishedOf(name) == if r.Ok? then roots.CurrentOf(name) else old(roots.PublishedOf(name))
    {
      var tx := roots.TransactionOn(name);
      ghost var state := tx.trees[0].state;
      ghost var states := roots.treeStates;
      r := SetAndCommit(tx, key, value, faults);
      assert roots.treeStates == states;
    }

    /** The body of `Tree::set` once its transaction has begun. */
    static method SetAndCommit(tx: ExecutingTransaction, key: Key, value: Value, faults: CommitFaults) returns (r: Result<()>)
      requires tx.Valid() && tx.transaction.Some? && |tx.trees| == 1
      modifies tx, tx.roots, tx.States()
      ensures tx.roots.treeStates == old(tx.roots.treeStates) && tx.roots.nextTransactionId == old(tx.roots.nextTransactionId)
      ensures r.Ok? <==> 0 !in faults.failingTrees && !faults.logFails
      ensures tx.roots.committed == old(tx.roots.committed) + if r.Ok? then [old(tx.transaction).value] else []
      ensures r.Err? ==> r.error == Io
      ensures var state := old(tx.trees[0].state);
        && state.Valid()
        && state.current == Upsert(old(state.current), key, value)
        && state.published == (if r.Ok? then state.current else old(state.published))
    {
      ghost var state := tx.trees[0].state;
      ghost var published := state.published;
      assert tx.States() == {state};
      var t := tx.Tree(0);
      t.value.Set(key, value);
      ghost var written := state.current;
      assert tx.Valid();
      r := tx.CommitAsWritten(faults);
      assert SomeTreeFails(faults, 1) <==> 0 in faults.failingTrees;
      assert state.Valid() && state.current == written;
      assert state.published == if r.Ok? then written else published;
    }

    /** `Tree::get`: the published value; writes of a transaction still executing are not seen. */
    method Get(key: Key) returns (r: Option<Value>)
      ensures r == Find(state.published, key)
    {
      r := Find(state.published, key);
    }

    /**
     * `Tree::remove`: removes the key in a transaction of its own, returning
     * the value it held. A failed commit leaves the removal in the current
     * contents only.
     */
    method Remove(key: Key, faults: CommitFaults) returns (r: Result<Option<Value>>)
      requires roots.Valid()
      modifies roots, roots.treeStates.Values
      ensures roots.Valid()
      ensures roots.treeStates.Keys == old(roots.treeStates).Keys + {name}
      ensures forall n :: n in old(roots.treeStates) ==> roots.treeStates[n] == old(roots.treeStates[n])
      ensures forall n :: n in old(roots.treeStates) && n != name ==> unchanged(old(roots.treeStates[n]))
      ensures r.Ok? <==> 0 !in faults.failingTrees && !faults.logFails
      ensures roots.nextTransactionId == old(roots.nextTransactionId) + 1
      ensures roots.committed == old(roots.committed) + if r.Ok? then [old(roots.nextTransactionId)] else []
      ensures r.Ok? ==> r.value == Find(old(roots.CurrentOf(name)), key)
      ensures r.Err? ==> r.error == Io
      ensures roots.CurrentOf(name) == Delete(old(roots.CurrentOf(name)), key)
      ensures roots.PublishedOf(name) == if r.Ok? then roots.CurrentOf(name) else old(roots.PublishedOf(name))
    {
      var tx := roots.TransactionOn(name);
      ghost var state := tx.trees[0].state;
      ghost var states := roots.treeStates;
      r := RemoveAndCommit(tx, key, faults);
      assert roots.treeStates == states;
    }

    /** The body of `Tree::remove` once its transaction has begun. */
    static method RemoveAndCommit(tx: ExecutingTransaction, key: Key, faults: CommitFaults) returns (r: Result<Option<Value>>)
      requires tx.Valid() && tx.transaction.Some? && |tx.trees| == 1
      modifies tx, tx.roots, tx.States()
      ensures tx.roots.treeStates == old(tx.roots.treeStates) && tx.roots.nextTransactionId == old(tx.roots.nextTransactionId)
      ensures r.Ok? <==> 0 !in faults.failingTrees && !faults.logFails
      ensures tx.roots.committed == old(tx.roots.committed) + if r.Ok? then [old(tx.transaction).value] else []
      ensures r.Ok? ==> r.value == Find(old(tx.trees[0].state.current), key)
      ensures r.Err? ==> r.error == Io
      ensures var state := old(tx.trees[0].state);
        && state.Valid()
        && state.current == Delete(old(state.current), key)
        && state.published == (if r.Ok? then state.current else old(state.published))
    {
      ghost var state := tx.trees[0].state;
      ghost var published := state.published;
      assert tx.States() == {state};
      var t := tx.Tree(0);
      var existing := t.value.Remove(key);
      ghost var written := state.current;
      assert tx.Valid();
      var committed := tx.CommitAsWritten(faults);
      assert SomeTreeFails(faults, 1) <==> 0 in faults.failingTrees;
      assert state.Valid() && state.current == written;
      assert state.published == if committed.Ok? then written else published;
      if committed.Err? {
        return Err(committed.error);
      }
      r := Ok(existing);
    }

    /**
     * `Tree::compare_and_swap` in a transaction of its own. A conflict is
     * returned before committing, and dropping the transaction rolls the tree
     * back. A swap whose commit fails stays in the current contents only.
     */
    method CompareAndSwap(key: Key, expected: Option<Value>, replacement: Option<Value>, faults: CommitFaults)
      returns (r: CompareAndSwapResult)
      requires roots.Valid()
      modifies roots, roots.treeStates.Values
      ensures roots.Valid()
      ensures roots.treeStates.Keys == old(roots.treeStates).Keys + {name}
      ensures forall n :: n in old(roots.treeStates) ==> roots.treeStates[n] == old(roots.treeStates[n])
      ensures forall n :: n in old(roots.treeStates) && n != name ==> unchanged(old(roots.treeStates[n]))
      ensures var stored := Find(old(roots.CurrentOf(name)), key);
        r == if stored != expected then Conflict(stored)
             else if 0 in faults.failingTrees || faults.logFails then Failed(Io)
             else Swapped
      ensures roots.nextTransactionId == old(roots.nextTransactionId) + 1
      ensures roots.committed == old(roots.committed) + if r.Swapped? then [old(roots.nextTransactionId)] else []
      ensures roots.CurrentOf(name) ==
        if r.Conflict? then old(roots.PublishedOf(name))
        else Apply(old(roots.CurrentOf(name)), key, CompareSwapDecision(Find(old(roots.CurrentOf(name)), key), expected, replacement))
      ensures roots.PublishedOf(name) == if r.Swapped? then roots.CurrentOf(name) else old(roots.PublishedOf(name))
    {
      ghost var before := roots.CurrentOf(name);
      ghost var publishedBefore := roots.PublishedOf(name);
      var tx := roots.TransactionOn(name);
      ghost var state := tx.trees[0].state;
      ghost var states := roots.treeStates;
      assert state.current == before && state.published == publishedBefore;
      r := SwapAndCommit(tx, key, expected, replacement, faults);
      assert roots.treeStates == states;
    }

    /** The body of `Tree::compare_and_swap` once its transaction has begun. */
    static method SwapAndCommit(tx: ExecutingTransaction, key: Key, expected: Option<Value>, replacement: Option<Value>, faults: CommitFaults)
      returns (r: CompareAndSwapResult)
      requires tx.Valid() && tx.transaction.Some? && |tx.trees| == 1
      modifies tx, tx.roots, tx.States()
      ensures tx.roots.treeStates == old(tx.roots.treeStates) && tx.roots.nextTransactionId == old(tx.roots.nextTransactionId)
      ensures tx.roots.committed == old(tx.roots.committed) + if r.Swapped? then [old(tx.transaction).value] else []
      ensures var stored := Find(old(tx.trees[0].state.current), key);
        r == if stored != expected then Conflict(stored)
             else if 0 in faults.failingTrees || faults.logFails then Failed(Io)
             else Swapped
      ensures var state := old(tx.trees[0].state);
        && state.Valid()
        && state.current ==
             (if r.Conflict? then old(state.published)
              else Apply(old(state.current), key, CompareSwapDecision(Find(old(state.current), key), expected, replacement)))
        && state.published == (if r.Swapped? then state.current else old(state.published))
    {
      ghost var state := tx.trees[0].state;
      ghost var published := state.published;
      assert tx.States() == {state};
      var t := tx.Tree(0);
      var swapped := t.value.CompareAndSwap(key, expected, replacement);
      assert tx.Valid();
      if swapped.Conflict? {
        tx.Drop();
        return swapped;
      }
      ghost var written := state.current;
      var committed := tx.CommitAsWritten(faults);
      assert SomeTreeFails(faults, 1) <==> 0 in faults.failingTrees;
      assert state.Valid() && state.current == written;
      assert state.published == if committed.Ok? then written else published;
      if committed.Err? {
        return Failed(committed.error);
      }
      r := Swapped;
    }

    /** `Tree::get_multiple`: the published pairs for the keys asked; missing keys are left out. */
    method GetMultiple(keys: seq<Key>) returns (r: Contents)
      ensures forall p :: p in r <==> p.0 in keys && Find(state.published, p.0) == Some(p.1)
    {
      r := FindAll(state.published, keys);
    }

    /** `Tree::last_key`: the greatest published key, or `None` for an empty tree. */
    method LastKey() returns (r: Option<Key>)
      requires state.Valid()
      ensures r.None? <==> forall k :: Find(state.published, k).None?
      ensures r.Some? ==> Find(state.published, r.value).Some?
      ensures r.Some? ==> forall k :: Find(state.published, k).Some? && k != r.value ==> Less(k, r.value)
    {
      LastIsGreatest(state.published);
      var last := OrderedContents.Last(state.published);
      r := if last.Some? then Some(last.value.0) else None;
    }

    /** `Tree::last`: the greatest published key with its value, or `None` for an empty tree. */
    method Last() returns (r: Option<(Key, Value)>)
      requires state.Valid()
      ensures r.None? <==> forall k :: Find(state.published, k).None?
      ensures r.Some? ==> Find(state.published, r.value.0) == Some(r.value.1)
      ensures r.Some? ==> forall k :: Find(state.published, k).Some? && k != r.value.0 ==> Less(k, r.value.0)
    {
      LastIsGreatest(state.published);
      r := OrderedContents.Last(state.published);
    }
  }
}
