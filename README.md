# RaiBlocksJS client core, modelled in Dafny

RaiBlocksJS is a browser client for the JSON RPC interface of a RaiBlocks
ledger node. This project models the parts of it that contain decisions
rather than request plumbing:

- **Unit conversion** (`Rai.unit`, `units.dfy`). An amount is an exact decimal,
  an integer mantissa times a power of ten. It is shifted up by the input
  unit's exponent, then down by the output unit's exponent. The result is
  rendered as a whole number. The denomination table is raw 0, prai 15,
  urai 18, mrai 21, rai 24, krai 27, Mrai 30, Grai 33, Trai 36 and Prai 39.
  Unit names are case-sensitive, and an unknown name shifts by 0.
- **Transport decisions** (`Rai.rpc`, `transport.dfy`). These cover how the endpoint is
  chosen from `url_base`, with port 7076 by default. They also cover how a settled
  response `(readyState, status, body)` is classified in blocking mode (payload,
  `false`, or nothing) and in callback mode (callback with the body, or no call).
  They also cover the alert and console output each path writes.
- **Façade compositions** (`facade.dfy`): `send` converts the caller's amount to raw,
  and `account_balance` converts the raw balance to the caller's unit.
  Both default the unit to `raw`.
- **History reconciliation** (`Rai.prototype.account_history`, `history.dfy`,
  `session.dfy`). The reconciler walks the `chain` hash list by index.
  Wherever the history entry at that index has a different hash, it fetches the block.
  For a `change` block it splices the entry
  `{account: representative, amount: 0, hash, type: 'change'}` into the
  history at that index. `ReconcileHistory` is the loop that does this, splicing
  the sequence at each step, proved equal to the step-by-step definition `Reconcile`.
  The invariant `Inv` is proved about that definition.
  The frontier lookup goes through a `Cache` object, the global `RaiBlocks`.
  That cache's table is filled only while it is still undefined.

Modelling choices:

- Rounding in `toFixed(0)` is a parameter `round`. The model only assumes it is
  `Admissible`: it lands between the floor and the next integer, it is exact
  when the quotient is exact, and it depends only on the value, not on how the
  decimal is written. Rounding toward zero is shown admissible.
- The block lookup, the `history`/`chain` results and the frontier table are
  passed in as data (`Node`).
- The anchor's URL parser is a function parameter `parse`.
- A history that runs out before the chain makes the JavaScript client read `undefined.hash`
  and throw a TypeError. The model returns this as the explicit outcome `IndexError(key)`.
- `Walk` also records two things about a run: which entries were inserted, and which
  hashes were fetched with `block`. The properties are stated over these records.

Behaviour of the code that a reader might not expect, which the model keeps:

- `toFixed(0)` uses bignumber.js's configured rounding, which is not pinned here,
  so conversions are proved for every admissible rounding rather than for one mode.
- In callback mode a 400 response calls the callback with the error JSON itself,
  while the blocking call returns `false`.
- `account_history` throws a TypeError when the history runs out before the chain.
  That happens, for example, after a differing block that is not a change block.
- A base URL that does not start with `http` keeps only its text after the last `/`.
  For example, `example.com:7077/node` becomes `http://node`. A relative base that
  happens to start with `http`, such as `httpdocs/node.html`, is kept as given.

## Model

| member | source | states |
|---|---|---|
| `Units.Unit` | rai.rpc.js:96-132 | `Rai.unit` itself: `toFixed(0)` of the input shifted by the two switches; its laws are `UnitExact`, `UnknownUnitIsRaw`, `UnitIdentity`, `ToRawExact`, `RoundTripThroughRaw` and `RoundTrip` |
| `Units.ToRawShift` | rai.rpc.js:101-113 | the first switch, case by case; `SwitchesFollowTable` ties it to the table |
| `Units.FromRawShift` | rai.rpc.js:116-128 | the second switch, case by case; `SwitchesFollowTable` ties it to the table with the opposite sign |
| `Units.ToFixed0` | rai.rpc.js:130 | `toFixed(0)`: exact for a non-negative exponent, otherwise the rounding parameter; `RenderExact` states that exact values render exactly |
| `Units.Exponent` | rai.rpc.js:101-128 | every unit's exponent is a multiple of 3 between 0 and 39; any name outside the table has exponent 0 |
| `Units.SwitchesFollowTable` | rai.rpc.js:101-128 | the first switch shifts by +e and the second by -e for the same table entry e, for every unit name |
| `Units.ExponentInjective` | rai.rpc.js:101-111 | distinct known units have distinct exponents, so the table is invertible |
| `Units.Convert` | rai.rpc.js:98-128 | the two switch-selected shifts compose into one net shift: the result is v·10^(e_in − e_out), with the mantissa untouched |
| `Units.TruncateAdmissible` | rai.rpc.js:130 | rounding toward zero is a rounding the model admits for `toFixed(0)` |
| `Units.RenderExact` | rai.rpc.js:130 | a decimal that is exactly a whole number n is rendered as n under any admissible rounding |
| `Units.UnitExact` | rai.rpc.js:96-132 | when v·10^(e_in − e_out) is a whole number n, `unit` returns n |
| `Units.UnknownUnitIsRaw` | rai.rpc.js:101-128 | an unrecognised unit name, as input or as output, gives the same result as "raw" |
| `Units.UnitIdentity` | rai.rpc.js:96-132 | converting a whole number from a unit to the same unit returns it unchanged, for any rounding |
| `Units.ToRawExact` | rai.rpc.js:96-132 | v whole units of A convert to exactly v·10^e_A raw |
| `Units.RoundTripThroughRaw` | rai.rpc.js:96-132 | converting a whole number of A to raw and back to A returns it |
| `Units.RoundTrip` | rai.rpc.js:96-132 | converting A→B→A returns v whenever A→B leaves no fractional remainder |
| `Units.OneRawInMrai` | rai.rpc.js:116-130 | 1 raw in Mrai renders as 0 under truncation |
| `Units.OneMraiInRaw` | rai.rpc.js:116-130 | 10^30 raw is exactly 1 Mrai under any admissible rounding |
| `Transport.LastSegment` | rai.rpc.js:34 | the result is the suffix of the input after its last '/', holds no '/', and is the whole input when there is none |
| `Transport.EndpointHref` | rai.rpc.js:33-35 | an unset base gives `http://localhost`; a base starting with "http" is kept verbatim; any other base gives `http://` plus its last '/' segment; every result starts with "http" |
| `Transport.Endpoint` | rai.rpc.js:32-37 | the anchor after `href` and the default port are set; its laws are `EndpointPort`, `EndpointIsHttp`, `EndpointDefault` and `EndpointBareHost` |
| `Transport.Classify` | rai.rpc.js:44-58 | the three-way test on `(readyState, status)` shared by both modes; `SyncCallClassifies` and `AsyncCallbackAtMostOnce` state it as if-and-only-if |
| `Transport.Diagnostics` | rai.rpc.js:49-57 | the alert and console output of each outcome; `SyncCallClassifies` and `FailuresAreLogged` state it |
| `Transport.SyncCall` | rai.rpc.js:70-91 | the blocking call's returned value and output; its laws are `SyncCallClassifies` and `ModesAgree` |
| `Transport.AsyncCall` | rai.rpc.js:43-63 | the callback-mode invocations and output, `onerror` included; its laws are `AsyncCallbackAtMostOnce`, `ModesAgree` and `FailuresAreLogged` |
| `Transport.EndpointPort` | rai.rpc.js:37 | the endpoint port is never empty: an explicit port is kept and an empty one becomes 7076 |
| `Transport.EndpointIsHttp` | rai.rpc.js:33-37 | the text handed to the URL parser always begins with "http", and the endpoint's address is what the parser makes of that text |
| `Transport.EndpointDefault` | rai.rpc.js:33-37 | with no base URL the endpoint is `http://localhost` on port 7076 |
| `Transport.EndpointBareHost` | rai.rpc.js:34 | a bare host name without scheme or '/' is reached as `http://` plus that host |
| `Transport.SyncCallClassifies` | rai.rpc.js:76-90 | a blocking call returns the payload iff (4, 200), `false` iff (4, 400), and nothing otherwise; it writes diagnostics iff it did not succeed: on (4, 400) an alert and a console error of the body's `error` field, otherwise the console error 'XHR Failure' |
| `Transport.AsyncCallbackAtMostOnce` | rai.rpc.js:43-63 | the callback runs at most once; it runs iff the load completed with (4, 200) or (4, 400), and then with the response body itself; it never runs after a transport error, which only logs the status text |
| `Transport.ModesAgree` | rai.rpc.js:43-90 | for the same response both modes write the same diagnostics; the callback gets the blocking call's payload on success, the error body where the blocking call returns `false`, and nothing where it returns nothing |
| `Transport.FailuresAreLogged` | rai.rpc.js:43-63 | every outcome other than success writes at least one console error |
| `Facade.SendAmount` | rai.rpc.js:387-390 | the raw amount `send` puts into its request; its laws are `DefaultUnitIsRaw`, `SendScales` and `BalanceSendRoundTrip` |
| `Facade.AccountBalance` | rai.rpc.js:136-141 | the balance `account_balance` returns; its laws are `DefaultUnitIsRaw` and `BalanceSendRoundTrip` |
| `Facade.DefaultUnitIsRaw` | rai.rpc.js:136-141 | with no unit given, a whole amount is sent unchanged and a raw balance is returned unchanged |
| `Facade.SendScales` | rai.rpc.js:387-393 | sending v whole units of A sends v·10^e_A raw |
| `Facade.BalanceSendRoundTrip` | rai.rpc.js:136-141 | a balance read in unit A and sent back in A is the original raw balance, when it divides evenly |
| `History.ChangeEntry` | rai.extended.js:38 | the entry synthesised for a change block; `ReconcileSound` and `RecoversSkippedChange` state where it lands |
| `History.Step` | rai.extended.js:35-41 | one iteration of the loop; the result never shrinks and keeps the mask aligned, and `StepInv` states what it preserves |
| `History.Run` | rai.extended.js:34-42 | the loop from one chain index to the end, or the TypeError index; `RunInv` carries the invariant through it |
| `History.Reconcile` | rai.extended.js:34-42 | the whole loop from index 0; its laws are `ReconcileSound`, `IndexErrorOnlyWhenShort`, `AlignedUnchanged` and `RecoversSkippedChange` |
| `History.Insert` | rai.extended.js:39 | `splice(key, 0, x)` puts x at index key, keeps the entries before it and shifts the rest up by one |
| `History.KeepInsert` | rai.extended.js:39 | a splice marked as inserted leaves the original entries, read in order, unchanged, and adds one to the insertion count |
| `History.KeepIndex` | rai.extended.js:39 | an original entry at position k of the spliced history is entry k − (insertions before k) of the original history |
| `History.StepPushedAside` | rai.extended.js:35-39 | a splice at key happens only where the original entry then at key has a hash different from chain[key] |
| `History.StepInv` | rai.extended.js:34-42 | one iteration preserves the reconciliation invariant, one index further |
| `History.ReconcileSound` | rai.extended.js:34-42 | after reconciliation the original history survives in order and only insertions happened; each inserted entry is `{representative, 0, chain[k], 'change'}` at its chain index k, for a change block, and it pushed aside the original entry `history[k − insertions before k]`, whose hash differs from chain[k]; length = original + insertions ≤ original + |chain|; every chain index agrees with the result unless its block is not a change block; a block was fetched, in order, at every index where an entry was inserted or the result still differs from the chain, and nowhere else |
| `History.NoSpliceBeforeMatch` | rai.extended.js:35-39 | a change entry spliced in front of an entry that already matches the chain is not accepted as a reconciliation |
| `History.IndexErrorOnlyWhenShort` | rai.extended.js:35 | reading past the end of the history happens only at an index between the original history length and the chain length; a history at least as long as the chain never fails |
| `History.AlignedUnchanged` | rai.extended.js:35 | a history whose hashes already match the chain is returned unchanged and no block is fetched |
| `History.RecoversSkippedChange` | rai.extended.js:34-42 | for chain [h1, h2, h3] and history [h1, h3] with h2 a change block, the result is [h1, change entry for h2, h3], with only h2 fetched |
| `History.ReconcileHistory` | rai.extended.js:30-42 | the in-place splicing loop returns exactly `Reconcile`, and so satisfies everything `ReconcileSound` and `IndexErrorOnlyWhenShort` state |
| `Session.Cache.constructor` | rai.extended.js:11 | the global cache starts without a frontier table |
| `Session.Cache.Initialize` | rai.extended.js:13-19 | initialisation stores the node's frontier table in the cache |
| `Session.AccountHistoryOf` | rai.extended.js:23-49 | the frontier table is fetched only while the cache has none, and is reused otherwise; an account without a frontier gives the undefined result and reconciles nothing; otherwise the result is `Reconcile` of the history and chain read at the account's frontier with the default count 4096, whatever `count` was passed |

## Left out

- XMLHttpRequest `open`/`send` and the event loop are not modelled (rai.rpc.js:42-74). Only the classification of a settled response is modelled.
- When the async callback runs relative to the call's return is not modelled, because that is event-loop timing.
- The browser anchor's URL parsing is the parameter `parse`. Setting `port` on the anchor also rewrites its `href`, and that rewrite is not modelled: only the `port` field changes.
- `JSON.parse` and `JSON.stringify` are foreign library calls. A response body is an already-parsed opaque value, and reading its `error` field is the parameter `errorField`.
- `alert` and `console.error` output is returned as a list of diagnostics rather than performed.
- The "Empty account" console message (rai.extended.js:45) is not modelled. That path is only the `EmptyAccount` result.
- bignumber.js parsing of the input is not modelled: the input is given already parsed as a `Decimal`. The rounding mode behind `toFixed` is not pinned either.
- The numeral string that `toFixed(0)` returns is modelled as the integer it denotes.
- The roughly forty other façade methods (rai.rpc.js:144-472) are one-line request and response field mappings, so they are not modelled. `rpc_version`, `store_version` and `node_vendor` are field projections and are left out too.
- `wallet_accounts_info` (rai.extended.js:53-68) is only a composition of RPC calls, through an undeclared global, so it is not modelled.
- `initialize` also fetches the available supply, the block and frontier counts and the peers. Those are network reads with no logic, so only the frontier table is kept in the cache.
- The node's `block` answer is a total function from hash to `{type, representative}`. A failed block request, where `JSON.parse` of an undefined `contents` throws, is not modelled. Neither is a `history` or `chain` call returning no list.
- The node reports history amounts as decimal strings, while the synthesised entry has the number 0. The model gives every amount as an integer.
