/**
 * The behaviour the transaction tests of `roots.rs` check, as methods whose
 * postconditions are what those tests assert, plus the two runs that show what
 * a failed commit leaves behind.
 */
module Scenarios {
  import opened Errors
  import opened OrderedContents
  import opened Transactions

  const TestTree: string := "test"
  /** `b"test"` */
  const TestKey: Key := [116, 101, 115, 116]
  /** `b"value"` */
  const FirstValue: Value := [118, 97, 108, 117, 101]
  /** `b"updated value"` */
  const UpdatedValue: Value := [117, 112, 100, 97, 116, 101, 100, 32, 118, 97, 108, 117, 101]

  /** `basic_get_set`: a value set through the tree is read back. */
  method BasicGetSet() returns (result: Option<Value>)
    ensures result == Some(FirstValue)
  {
    var roots, tree := SeededTree();
    result := tree.Get(TestKey);
  }

  /**
   * `basic_transaction_isolation_test`: the transaction reads its own write,
   * readers outside it do not until it commits, and then they do.
   */
  method TransactionIsolation() returns (inTransaction: Option<Value>, beforeCommit: Option<Value>, afterCommit: Option<Value>)
    ensures inTransaction == Some(UpdatedValue)
    ensures beforeCommit == Some(FirstValue)
    ensures afterCommit == Some(UpdatedValue)
  {
    var roots, tree := SeededTree();
    var tx := WriteInTransaction(roots, tree);
    var t := tx.Tree(0);
    inTransaction := t.value.Get(TestKey);
    beforeCommit := tree.Get(TestKey);

    var committed := tx.CommitAsWritten(NoFaults);
    assert !SomeTreeFails(NoFaults, 1);
    afterCommit := tree.Get(TestKey);
  }

  /**
   * `basic_transaction_rollback_test`: dropping a transaction undoes its write
   * for readers and for the next transaction.
   */
  method TransactionRollback() returns (afterDrop: Option<Value>, inNextTransaction: Option<Value>)
    ensures afterDrop == Some(FirstValue)
    ensures inNextTransaction == Some(FirstValue)
  {
    var roots, tree := SeededTree();
    var tx := WriteInTransaction(roots, tree);
    tx.Drop();
    afterDrop := tree.Get(TestKey);
    assert roots.Valid();
    inNextTransaction := ReadInNextTransaction(roots, TestTree, TestKey);
  }

  /** A database whose only tree, `test`, holds `FirstValue` under `TestKey`, committed and with no transaction open. */
  method SeededTree() returns (roots: Roots, tree: Tree)
    ensures fresh(roots) && fresh(tree.state) && roots.Valid()
    ensures tree.roots == roots && tree.name == TestTree
    ensures roots.treeStates.Keys == {TestTree} && tree.state == roots.treeStates[TestTree]
    ensures tree.state.current == tree.state.published
    ensures Find(tree.state.published, TestKey) == Some(FirstValue)
  {
    roots := new Roots();
    tree := roots.Tree(TestTree);
    var stored := tree.Set(TestKey, FirstValue, NoFaults);
    FindUpsert([], TestKey, FirstValue, TestKey);
  }

  /** Begins a transaction on `test` and writes `UpdatedValue` under `TestKey` in it, without committing. */
  method WriteInTransaction(roots: Roots, tree: Tree) returns (tx: ExecutingTransaction)
    requires roots.Valid() && roots.treeStates.Keys == {TestTree} && tree.state == roots.treeStates[TestTree]
    modifies roots, tree.state
    ensures roots.Valid() && roots.treeStates == old(roots.treeStates)
    ensures fresh(tx) && tx.Valid() && tx.roots == roots && tx.transaction.Some?
    ensures |tx.trees| == 1 && tx.trees[0].state == tree.state
    ensures tree.state.published == old(tree.state.published)
    ensures Find(tree.state.current, TestKey) == Some(UpdatedValue)
  {
    tx := roots.Transaction([TestTree]);
    assert roots.treeStates == old(roots.treeStates);
    var t := tx.Tree(0);
    t.value.Set(TestKey, UpdatedValue);
  }

  /** Begins a transaction on tree `name` and reads `key` in it. */
  method ReadInNextTransaction(roots: Roots, name: string, key: Key) returns (r: Option<Value>)
    requires roots.Valid() && name in roots.treeStates
    modifies roots
    ensures roots.treeStates == old(roots.treeStates)
    ensures r == Find(roots.treeStates[name].current, key)
  {
    var next := roots.Transaction([name]);
    assert roots.treeStates == old(roots.treeStates);
    var u := next.Tree(0);
    r := u.value.Get(key);
  }

  /**
   * A commit whose tree write fails, with `commit` as written: readers keep
   * the old value, but the next transaction reads the write that was never
   * committed.
   */
  method FailedCommitAsWritten() returns (published: Option<Value>, inNextTransaction: Option<Value>)
    ensures published == Some(FirstValue)
    ensures inNextTransaction == Some(UpdatedValue)
  {
    var roots, tree := SeededTree();
    var tx := WriteInTransaction(roots, tree);
    var committed := tx.CommitAsWritten(CommitFaults({0}, false));
    assert SomeTreeFails(CommitFaults({0}, false), 1);
    published := tree.Get(TestKey);
    assert roots.Valid();
    inNextTransaction := ReadInNextTransaction(roots, TestTree, TestKey);
  }

  /** The same run with `Commit`, which rolls a failed commit back: the next transaction reads the committed value. */
  method FailedCommit() returns (published: Option<Value>, inNextTransaction: Option<Value>)
    ensures published == Some(FirstValue)
    ensures inNextTransaction == Some(FirstValue)
  {
    var roots, tree := SeededTree();
    var tx := WriteInTransaction(roots, tree);
    var committed := tx.Commit(CommitFaults({0}, false));
    assert SomeTreeFails(CommitFaults({0}, false), 1);
    published := tree.Get(TestKey);
    assert roots.Valid();
    inNextTransaction := ReadInNextTransaction(roots, TestTree, TestKey);
  }
}
