/**
 * History reconciliation (`Rai.prototype.account_history`).
 *
 * The node's `history` call omits representative-change blocks, while its
 * `chain` call lists every block hash. The reconciler walks the chain by
 * index; wherever the history entry at the same index has another hash it
 * fetches that block, and when the block is a `change` block it splices a
 * synthetic entry into the history at that index, shifting later entries.
 */
module History {

  type Hash = string

  /** One history entry, `{account, amount, hash, type}`. */
  datatype Entry = Entry(account: string, amount: int, hash: Hash, kind: string)

  /** The fields of a fetched block that the reconciler reads. */
  datatype Block = Block(kind: string, representative: string)

  const Change := "change"

  /** The entry spliced in for a change block: its new representative, amount 0. */
  function ChangeEntry(hash: Hash, b: Block): Entry
  {
    Entry(b.representative, 0, hash, b.kind)
  }

  /** `e` is the entry synthesised for the change block `h`. */
  ghost predicate Synthesised(e: Entry, h: Hash, block: Hash -> Block)
  {
    block(h).kind == Change && e == ChangeEntry(h, block(h))
  }

  /** `splice(k, 0, x)`: insert `x` at index `k`, shifting the rest up by one. */
  function Insert<T>(s: seq<T>, k: nat, x: T): (r: seq<T>)
    requires k <= |s|
    ensures |r| == |s| + 1 && r[k] == x
    ensures forall i :: 0 <= i < k ==> r[i] == s[i]
    ensures forall i :: k < i < |r| ==> r[i] == s[i - 1]
  {
    s[..k] + [x] + s[k..]
  }

  /**
   * The state of a walk: the history as spliced so far, which of its entries
   * were inserted, and the hashes whose blocks were requested, in order.
   */
  datatype Walk = Walk(entries: seq<Entry>, inserted: seq<bool>, fetched: seq<Hash>)

  /** The walk either finishes, or reads past the end of the history at `key` (a TypeError in the JavaScript client). */
  datatype Result = Ok(walk: Walk) | IndexError(key: nat)

  function Initial(history: seq<Entry>): (w: Walk)
  {
    Walk(history, seq(|history|, _ => false), [])
  }

  /** One iteration of the walk, at chain index `key`. */
  function Step(w: Walk, chain: seq<Hash>, block: Hash -> Block, key: nat): (r: Walk)
    requires key < |chain| && key < |w.entries| && |w.inserted| == |w.entries|
    ensures |r.inserted| == |r.entries| >= |w.entries|
  {
    if w.entries[key].hash == chain[key] then w
    else
      var b := block(chain[key]);
      var fetched := w.fetched + [chain[key]];
      if b.kind == Change then
        Walk(Insert(w.entries, key, ChangeEntry(chain[key], b)), Insert(w.inserted, key, true), fetched)
      else
        w.(fetched := fetched)
  }

  /** The walk from chain index `key` to the end of the chain. */
  function Run(w: Walk, chain: seq<Hash>, block: Hash -> Block, key: nat): Result
    requires key <= |chain| && |w.inserted| == |w.entries|
    decreases |chain| - key
  {
    if key == |chain| then Ok(w)
    else if key >= |w.entries| then IndexError(key)
    else Run(Step(w, chain, block, key), chain, block, key + 1)
  }

  /** The whole reconciliation of a history against a chain. */
  function Reconcile(history: seq<Entry>, chain: seq<Hash>, block: Hash -> Block): Result
  {
    Run(Initial(history), chain, block, 0)
  }

  // ----- What the walk keeps true -----

  /** The entries not marked as inserted, in order. */
  function Keep<T>(s: seq<T>, mask: seq<bool>): seq<T>
    requires |s| == |mask|
  {
    if s == [] then [] else (if mask[0] then [] else [s[0]]) + Keep(s[1..], mask[1..])
  }

  /** The number of marked positions. */
  function Count(mask: seq<bool>): (n: nat)
    ensures n <= |mask|
  {
    if mask == [] then 0 else (if mask[0] then 1 else 0) + Count(mask[1..])
  }

  /** The hashes fetched by the first `n` steps: those where the result is inserted or disagrees with the chain. */
  function Divergent(entries: seq<Entry>, inserted: seq<bool>, chain: seq<Hash>, n: nat): seq<Hash>
    requires n <= |chain| && n <= |entries| && n <= |inserted|
  {
    if n == 0 then []
    else
      Divergent(entries, inserted, chain, n - 1) +
      (if inserted[n - 1] || entries[n - 1].hash != chain[n - 1] then [chain[n - 1]] else [])
  }

  /**
   * The insertion at `k` displaced an original entry: the one at position
   * `k - Count(inserted[..k])` of the history, whose hash is not `chain[k]`.
   */
  ghost predicate PushedAside(history: seq<Entry>, inserted: seq<bool>, chain: seq<Hash>, k: nat)
    requires k < |inserted| && k < |chain|
  {
    k - Count(inserted[..k]) < |history| && history[k - Count(inserted[..k])].hash != chain[k]
  }

  /**
   * The state after the first `key` steps: the original history survives in
   * order, every inserted entry is a change entry for the chain hash at its
   * own index and pushed aside an original entry whose hash differs from that
   * chain hash, at most `key` entries were inserted, every index before `key`
   * either agrees with the chain or belongs to a chain block that is not a
   * change block, and exactly the diverging hashes were fetched.
   */
  ghost predicate Inv(history: seq<Entry>, chain: seq<Hash>, block: Hash -> Block, w: Walk, key: nat)
  {
    key <= |chain| && key <= |w.entries| && |w.inserted| == |w.entries| &&
    Keep(w.entries, w.inserted) == history &&
    |w.entries| == |history| + Count(w.inserted) &&
    Count(w.inserted) <= key &&
    (forall k :: 0 <= k < |w.inserted| && w.inserted[k] ==> k < key && Synthesised(w.entries[k], chain[k], block)) &&
    (forall k :: 0 <= k < |w.inserted| && w.inserted[k] ==> k < key && PushedAside(history, w.inserted, chain, k)) &&
    (forall k :: 0 <= k < key ==>
      w.entries[k].hash == chain[k] || (!w.inserted[k] && block(chain[k]).kind != Change)) &&
    w.fetched == Divergent(w.entries, w.inserted, chain, key)
  }

  /** What a finished reconciliation guarantees. */
  ghost predicate Reconciled(history: seq<Entry>, chain: seq<Hash>, block: Hash -> Block, w: Walk)
  {
    Inv(history, chain, block, w, |chain|)
  }

  lemma {:induction false} KeepInsert<T>(s: seq<T>, mask: seq<bool>, k: nat, x: T)
    requires |s| == |mask| && k <= |s|
    ensures Keep(Insert(s, k, x), Insert(mask, k, true)) == Keep(s, mask)
    ensures Count(Insert(mask, k, true)) == Count(mask) + 1
  {
    var s', m' := Insert(s, k, x), Insert(mask, k, true);
    if k == 0 {
      assert s'[1..] == s && m'[1..] == mask;
    } else {
      assert s'[1..] == Insert(s[1..], k - 1, x);
      assert m'[1..] == Insert(mask[1..], k - 1, true);
      KeepInsert(s[1..], mask[1..], k - 1, x);
    }
  }

  /** An original entry at position `k` is entry `k - Count(mask[..k])` of the kept sequence. */
  lemma {:induction false} KeepIndex<T>(s: seq<T>, mask: seq<bool>, k: nat)
    requires |s| == |mask| && k < |s| && !mask[k]
    ensures k - Count(mask[..k]) < |Keep(s, mask)|
    ensures Keep(s, mask)[k - Count(mask[..k])] == s[k]
  {
    if k > 0 {
      assert mask[..k][1..] == mask[1..][..k - 1];
      KeepIndex(s[1..], mask[1..], k - 1);
    }
  }

  lemma {:induction false} KeepNone<T>(s: seq<T>)
    ensures Keep(s, seq(|s|, _ => false)) == s
    ensures Count(seq(|s|, _ => false)) == 0
  {
    if s != [] {
      var m := seq(|s|, _ => false);
      assert m[1..] == seq(|s[1..]|, _ => false);
      KeepNone(s[1..]);
      assert [s[0]] + s[1..] == s;
    }
  }

  lemma {:induction false} DivergentPrefix(e: seq<Entry>, m: seq<bool>, e': seq<Entry>, m': seq<bool>, chain: seq<Hash>, n: nat)
    requires n <= |chain| && n <= |e| && n <= |m| && n <= |e'| && n <= |m'|
    requires e[..n] == e'[..n] && m[..n] == m'[..n]
    ensures Divergent(e, m, chain, n) == Divergent(e', m', chain, n)
  {
    if n > 0 {
      assert e[..n - 1] == e'[..n - 1] && m[..n - 1] == m'[..n - 1];
      assert e[n - 1] == e[..n][n - 1] && m[n - 1] == m[..n][n - 1];
      DivergentPrefix(e, m, e', m', chain, n - 1);
    }
  }

  lemma InitialInv(history: seq<Entry>, chain: seq<Hash>, block: Hash -> Block)
    ensures Inv(history, chain, block, Initial(history), 0)
  {
    KeepNone(history);
  }

  /** A splice at `key` pushes aside the original entry then at `key`, which disagreed with the chain. */
  lemma StepPushedAside(history: seq<Entry>, chain: seq<Hash>, block: Hash -> Block, w: Walk, key: nat)
    requires Inv(history, chain, block, w, key)
    requires key < |chain| && key < |w.entries|
    requires w.entries[key].hash != chain[key] && block(chain[key]).kind == Change
    ensures forall k :: 0 <= k < |Step(w, chain, block, key).inserted| && Step(w, chain, block, key).inserted[k] ==>
      k < key + 1 && PushedAside(history, Step(w, chain, block, key).inserted, chain, k)
  {
    var w' := Step(w, chain, block, key);
    assert !w.inserted[key];
    KeepIndex(w.entries, w.inserted, key);
    forall k | 0 <= k < |w'.inserted| && w'.inserted[k]
      ensures k < key + 1 && PushedAside(history, w'.inserted, chain, k)
    {
      if k < key {
        assert w'.inserted[..k] == w.inserted[..k];
      } else if k == key {
        assert w'.inserted[..key] == w.inserted[..key];
      }
    }
  }

  /** One step keeps the invariant, one index further. */
  lemma StepInv(history: seq<Entry>, chain: seq<Hash>, block: Hash -> Block, w: Walk, key: nat)
    requires Inv(history, chain, block, w, key)
    requires key < |chain| && key < |w.entries|
    ensures Inv(history, chain, block, Step(w, chain, block, key), key + 1)
  {
    assert !w.inserted[key];
    if w.entries[key].hash != chain[key] && block(chain[key]).kind == Change {
      StepSpliceInv(history, chain, block, w, key);
    }
  }

  /** The splicing case of `StepInv`. */
  lemma StepSpliceInv(history: seq<Entry>, chain: seq<Hash>, block: Hash -> Block, w: Walk, key: nat)
    requires Inv(history, chain, block, w, key)
    requires key < |chain| && key < |w.entries|
    requires w.entries[key].hash != chain[key] && block(chain[key]).kind == Change
    ensures Inv(history, chain, block, Step(w, chain, block, key), key + 1)
  {
    var w' := Step(w, chain, block, key);
    assert !w.inserted[key];
    KeepInsert(w.entries, w.inserted, key, ChangeEntry(chain[key], block(chain[key])));
    assert w'.entries[..key] == w.entries[..key] && w'.inserted[..key] == w.inserted[..key];
    DivergentPrefix(w.entries, w.inserted, w'.entries, w'.inserted, chain, key);
    StepPushedAside(history, chain, block, w, key);
  }

  /** The invariant carries from any index to the end of a walk that finishes. */
  lemma {:induction false} RunInv(history: seq<Entry>, chain: seq<Hash>, block: Hash -> Block, w: Walk, key: nat)
    requires Inv(history, chain, block, w, key)
    ensures Run(w, chain, block, key).Ok? ==> Reconciled(history, chain, block, Run(w, chain, block, key).walk)
    ensures Run(w, chain, block, key).IndexError? ==>
      |history| <= Run(w, chain, block, key).key < |chain|
    decreases |chain| - key
  {
    if key < |chain| && key < |w.entries| {
      StepInv(history, chain, block, w, key);
      RunInv(history, chain, block, Step(w, chain, block, key), key + 1);
    }
  }

  /**
   * Reconciliation only inserts: the original entries survive in order; each
   * inserted entry is the change entry of the chain hash at its own index;
   * the result grows by the number of insertions, at most one per chain hash;
   * at every chain index the result agrees with the chain unless that block
   * is not a change block; and a block was fetched exactly at the indices
   * where the history diverged.
   */
  lemma ReconcileSound(history: seq<Entry>, chain: seq<Hash>, block: Hash -> Block)
    ensures Reconcile(history, chain, block).Ok? ==>
      Reconciled(history, chain, block, Reconcile(history, chain, block).walk)
  {
    InitialInv(history, chain, block);
    RunInv(history, chain, block, Initial(history), 0);
  }

  /** A change entry spliced in front of an entry that already matches the chain is not a reconciliation. */
  lemma NoSpliceBeforeMatch(e: Entry, block: Hash -> Block)
    requires block(e.hash).kind == Change
    ensures !Reconciled([e], [e.hash], block, Walk([ChangeEntry(e.hash, block(e.hash)), e], [true, false], [e.hash]))
  {
    var ins := [true, false];
    assert ins[..0] == [];
  }

  /** The walk reads past the history only when the history is shorter than the chain. */
  lemma IndexErrorOnlyWhenShort(history: seq<Entry>, chain: seq<Hash>, block: Hash -> Block)
    ensures Reconcile(history, chain, block).IndexError? ==>
      |history| <= Reconcile(history, chain, block).key < |chain|
    ensures |history| >= |chain| ==> Reconcile(history, chain, block).Ok?
  {
    InitialInv(history, chain, block);
    RunInv(history, chain, block, Initial(history), 0);
  }

  lemma {:induction false} RunAligned(w: Walk, chain: seq<Hash>, block: Hash -> Block, key: nat)
    requires key <= |chain| <= |w.entries| && |w.inserted| == |w.entries|
    requires forall i :: key <= i < |chain| ==> w.entries[i].hash == chain[i]
    ensures Run(w, chain, block, key) == Ok(w)
    decreases |chain| - key
  {
    if key < |chain| {
      RunAligned(w, chain, block, key + 1);
    }
  }

  /** A history already aligned with the chain is returned unchanged, and no block is fetched. */
  lemma AlignedUnchanged(history: seq<Entry>, chain: seq<Hash>, block: Hash -> Block)
    requires |chain| <= |history|
    requires forall i :: 0 <= i < |chain| ==> history[i].hash == chain[i]
    ensures Reconcile(history, chain, block) == Ok(Initial(history))
    ensures Reconcile(history, chain, block).walk.entries == history
    ensures Reconcile(history, chain, block).walk.fetched == []
  {
    RunAligned(Initial(history), chain, block, 0);
  }

  /**
   * A history that skips a change block: chain `[h1, h2, h3]`, history with
   * the entries of `h1` and `h3`. The change entry for `h2` lands between them.
   */
  lemma RecoversSkippedChange(e1: Entry, e3: Entry, h2: Hash, block: Hash -> Block)
    requires e3.hash != h2 && block(h2).kind == Change
    ensures Reconcile([e1, e3], [e1.hash, h2, e3.hash], block) ==
      Ok(Walk([e1, ChangeEntry(h2, block(h2)), e3], [false, true, false], [h2]))
  {
    var chain := [e1.hash, h2, e3.hash];
    var w0 := Initial([e1, e3]);
    assert w0.inserted == [false, false];
    var w1 := Step(w0, chain, block, 0);
    assert w1 == w0;
    var w2 := Step(w1, chain, block, 1);
    assert w2 == Walk([e1, ChangeEntry(h2, block(h2)), e3], [false, true, false], [h2]);
    assert Step(w2, chain, block, 2) == w2;
    assert Run(w2, chain, block, 3) == Ok(w2);
    assert Run(w2, chain, block, 2) == Ok(w2);
    assert Run(w1, chain, block, 1) == Ok(w2);
    assert Run(w0, chain, block, 0) == Ok(w2);
  }

  /**
   * The reconciler as the JavaScript client runs it: a loop over the chain indices that
   * splices change entries into the history sequence at each step.
   */
  method ReconcileHistory(history: seq<Entry>, chain: seq<Hash>, block: Hash -> Block) returns (r: Result)
    ensures r == Reconcile(history, chain, block)
    ensures r.Ok? ==> Reconciled(history, chain, block, r.walk)
    ensures r.IndexError? ==> |history| <= r.key < |chain|
  {
    var entries := history;
    var inserted := seq(|history|, _ => false);
    var fetched: seq<Hash> := [];
    var key := 0;
    while key < |chain|
      invariant key <= |chain| && |inserted| == |entries|
      invariant Run(Walk(entries, inserted, fetched), chain, block, key) == Reconcile(history, chain, block)
    {
      if key >= |entries| {
        r := IndexError(key);
        IndexErrorOnlyWhenShort(history, chain, block);
        return;
      }
      if entries[key].hash != chain[key] {
        var b := block(chain[key]);
        fetched := fetched + [chain[key]];
        if b.kind == Change {
          entries := entries[..key] + [ChangeEntry(chain[key], b)] + entries[key..];
          inserted := inserted[..key] + [true] + inserted[key..];
        }
      }
      key := key + 1;
    }
    r := Ok(Walk(entries, inserted, fetched));
    ReconcileSound(history, chain, block);
  }
}
