/**
 * The extended client calls around the reconciler: the process-wide cache
 * that `initialize` fills on first use, and `account_history`, which looks
 * the account's frontier up in that cache before reconciling.
 */
module Session {
  import opened Wrappers
  import opened History

  type Account = string

  /** The count the façade's `history` and `chain` calls send when given none. */
  const DefaultCount := 4096

  /**
   * The node's answers to the read calls the extended functions make; each
   * call is a network round trip, given here as data.
   */
  datatype Node = Node(
    frontierTable: map<Account, Hash>,
    history: (Hash, nat) -> seq<Entry>,
    chain: (Hash, nat) -> seq<Hash>,
    block: Hash -> Block)

  /** The global `RaiBlocks` object: its frontier table is undefined until `initialize` runs. */
  class Cache {
    var frontiers: Option<map<Account, Hash>>

    constructor ()
      ensures frontiers == None
    {
      frontiers := None;
    }

    /** `initialize`: fetch and store the node's frontier table. */
    method Initialize(node: Node)
      modifies this
      ensures frontiers == Some(node.frontierTable)
    {
      frontiers := Some(node.frontierTable);
    }
  }

  /** `account_history` returns undefined for an account with no frontier. */
  datatype AccountHistory = EmptyAccount | Found(frontier: Hash, result: Result)

  /**
   * `account_history(account, count)`. The cache is filled only when it is
   * still undefined. `count` is never passed on: both data sources are read
   * with their default count.
   */
  method AccountHistoryOf(cache: Cache, node: Node, account: Account, count: Option<nat>)
    returns (r: AccountHistory)
    modifies cache
    ensures old(cache.frontiers).Some? ==> cache.frontiers == old(cache.frontiers)
    ensures old(cache.frontiers).None? ==> cache.frontiers == Some(node.frontierTable)
    ensures account !in cache.frontiers.value ==> r == EmptyAccount
    ensures account in cache.frontiers.value ==>
      var hash := cache.frontiers.value[account];
      r == Found(hash, Reconcile(node.history(hash, DefaultCount), node.chain(hash, DefaultCount), node.block))
  {
    if cache.frontiers.None? {
      cache.Initialize(node);
    }
    var table := cache.frontiers.value;
    if account in table {
      var hash := table[account];
      var history := node.history(hash, DefaultCount);
      var chain := node.chain(hash, DefaultCount);
      var result := ReconcileHistory(history, chain, node.block);
      r := Found(hash, result);
    } else {
      r := EmptyAccount;
    }
  }
}
