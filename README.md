# Unconfirmed-transaction pool (skycoin `visor` mempool)

A Dafny model of the node's pool of unconfirmed transactions,
`src/visor/unconfirmed.go`. It has three parts:

- **Admission policy check.** `VerifyTransaction` checks the size limit and the burn-factor fee minimum.
- **Predicted-unspent index.** `TxnUnspents` maps a transaction hash to the outputs that transaction would create. Its query `AllForAddress` returns the predicted outputs of one address.
- **The pool.** `UnconfirmedTxnPool` keeps two maps keyed by transaction hash: the pending entries (`Txns`) and their predicted outputs (`Unspent`). Its operations:
  - admission (`RecordTxn`);
  - the announcement timestamp update (`SetAnnounced`);
  - removal (`removeTxn`, `removeTxns`, `RemoveTransactions`);
  - periodic re-validation and age-based eviction (`Refresh`);
  - membership queries (`FilterKnown`, `GetKnown`, `RawTxns`);
  - the address-scoped spend join (`SpendsForAddresses`, `SpendsForAddress`).

Layout:

- `coin.dfy` (module `Coin`): the ledger types the pool reads. The ledger's operations are kept abstract: `Blockchain` is a datatype whose fields are the head header and three function values:
  - consensus validation;
  - the fee;
  - the derivation of predicted outputs.

  Every lemma therefore holds for every ledger.
- `collections.dfy` (module `Collections`): how a result built by ranging over a Go map is specified. Go leaves the iteration order unspecified, so such a result is `Flatten(order, f)` for *some* `order` with `Enumerates(order, keys)`, meaning each key exactly once. `FlattenPermutation` shows that any two such orders give results that are permutations of each other.
- `unconfirmed.dfy` (module `Visor`): the model of the pool.
  - The policy check is a pure function.
  - `AllForAddress` is a method with the source's nested loop; the inner loop is `AppendOwned`.
  - The datatype `Pool` is the abstract value of the two maps. Its member functions give the effect of each operation.
  - The class `UnconfirmedTxnPool` holds `txns` and `unspent` as map fields. Each method is proved to move `Model()` exactly as the matching `Pool` function says, and to keep the key-set invariant `Valid()`.
  - The lemmas between the datatype and the class state what the operations promise.

## Model

| member | source | states |
|---|---|---|
| Visor.VerifyTransaction | src/visor/unconfirmed.go:14-25 | Passes iff all three hold: size <= maxSize, the fee oracle succeeds, and burnFactor is 0 or OutputHours/burnFactor <= fee (unsigned division). Which error is returned: too large first, then the fee oracle's own error, then fee minimum not met. |
| Visor.SizeBoundaryInclusive | src/visor/unconfirmed.go:16-18 | The size limit is inclusive. At size == maxSize only the fee rule decides; at maxSize = size - 1 the result is "too large". |
| Visor.FeeBoundaryInclusive | src/visor/unconfirmed.go:21-22 | The fee limit is inclusive. OutputHours/burnFactor == fee passes; one unit more fails with "fee minimum not met". |
| Visor.VerifyTransactionMonotone | src/visor/unconfirmed.go:14-25 | A transaction accepted under some limits is still accepted under looser ones: a larger maxSize, a larger burn factor, or a burn factor of 0. |
| Visor.DivisorMonotone | src/visor/unconfirmed.go:21 | A larger burn factor never raises the fee minimum OutputHours/burnFactor. |
| Visor.OwnedByMember | src/visor/unconfirmed.go:35-39 | The filter of the inner loop keeps exactly the outputs whose address is `a`. |
| Visor.AppendOwned | src/visor/unconfirmed.go:35-39 | The inner loop appends the outputs of one predicted set that are owned by `a`, in their order. |
| Visor.AllForAddressExact | src/visor/unconfirmed.go:32-42 | Whatever the map order, an output is in the result iff its address is `a` and some index entry contains it. |
| Visor.AllForAddress | src/visor/unconfirmed.go:32-42 | The result is the concatenation over some enumeration of the index. Every output in it has address `a`, and every indexed output of `a` is in it. |
| Visor.ResolveMember | src/visor/unconfirmed.go:216-217 | An output is among the resolved inputs iff one of the inputs names it in the ledger's unspent set. |
| Visor.GroupByAddressAppend | src/visor/unconfirmed.go:218-220 | Appending an output extends its owner's list when the owner is requested, and changes nothing otherwise. |
| Visor.AppendSpends | src/visor/unconfirmed.go:216-222 | The inner loop adds, to the grouping by owner, the resolved inputs of one transaction that belong to requested addresses. |
| Visor.EmptyPoolValid | src/visor/unconfirmed.go:68-73 | A new pool has the same (empty) key set in both maps. |
| Visor.RecordTxnRejected | src/visor/unconfirmed.go:100-105 | States the rejection branches of `Pool.RecordTxn`. If the policy check fails, the result is (that error, false) with the pool unchanged. If the policy check passes but consensus validation fails, the result is (the ledger's error as is, false) with the pool unchanged. |
| Visor.RecordTxnKnown | src/visor/unconfirmed.go:107-116 | The known-hash branch of `Pool.RecordTxn`. A known hash gives (nil, true). Only that entry's received and checked times change, both to `now`. Its transaction, its announcement time, the predicted outputs and the pool size are unchanged. |
| Visor.RecordTxnNew | src/visor/unconfirmed.go:83-123 | The new-hash branch of `Pool.RecordTxn`, with the entry built by `CreateUnconfirmedTxn`. A new hash gives (nil, false). It inserts one entry (received = checked = now, announced = zero time) and the predicted outputs computed from the current head. Both maps gain exactly that key, every other entry stays as it was, and the pool grows by one. |
| Visor.RecordTxnTwice | src/visor/unconfirmed.go:97-124 | Recording the same valid transaction twice reports new, then known. The second call does not grow the pool and does not move the check time back. |
| Visor.RecordTxnPreservesValid | src/visor/unconfirmed.go:119-121 | Admission keeps both maps on the same key set, with every entry stored under its own hash (`UnconfirmedTxn.Hash`, the transaction's hash). |
| Visor.SetAnnouncedEffect | src/visor/unconfirmed.go:75-80 | States `Pool.SetAnnounced`. Only the announcement time of an existing entry changes. An unknown hash leaves the pool unchanged. |
| Visor.SetAnnouncedPreservesValid | src/visor/unconfirmed.go:75-80 | `SetAnnounced` keeps the key-set invariant. |
| Visor.RemoveTxnsEffect | src/visor/unconfirmed.go:138-152 | States `Pool.RemoveTxns`. The listed hashes are in neither map afterwards. Every other entry and predicted set is unchanged. Nothing is added. |
| Visor.RemoveTxnsPreservesValid | src/visor/unconfirmed.go:138-152 | Removal keeps the key-set invariant. |
| Visor.RefreshEffect | src/visor/unconfirmed.go:167-184 | States `Pool.Refresh` entry by entry, and with it the per-entry rule of `Review` and `Rescan`. Entries aged maxAge or more are removed from both maps. Otherwise, an entry due for a check is kept with checked = now if it still validates, and removed if not. Every other entry is untouched, and nothing is added. |
| Visor.RefreshPreservesValid | src/visor/unconfirmed.go:167-184 | `Refresh` keeps the key-set invariant. |
| Visor.ScanStep | src/visor/unconfirmed.go:171-182 | One step of the scan rescans the visited entry and marks it exactly when it must be evicted. |
| Visor.ScanDone | src/visor/unconfirmed.go:183 | After the whole scan, the table and the marks are those that `Pool.Refresh` removes from. |
| Visor.FilterKnownConcat | src/visor/unconfirmed.go:187-195 | `Pool.FilterKnown` works element by element in input order: it distributes over concatenation. |
| Visor.FilterKnownSingle | src/visor/unconfirmed.go:190-192 | One hash is kept iff it has no entry. |
| Visor.FilterKnownCount | src/visor/unconfirmed.go:187-195 | Each unknown hash is kept as many times as it occurs in the input. Known hashes are dropped. |
| Visor.FilterKnownMember | src/visor/unconfirmed.go:187-195 | A hash is in the result iff it is in the input and has no entry. |
| Visor.GetKnownConcat | src/visor/unconfirmed.go:198-206 | `Pool.GetKnown` works element by element in input order: it distributes over concatenation. |
| Visor.GetKnownExact | src/visor/unconfirmed.go:198-206 | The result holds exactly the transactions of input hashes that have an entry. Its length plus that of `FilterKnown` is the input length. |
| Visor.GetKnownSound | src/visor/unconfirmed.go:198-206 | In a consistent pool, every returned transaction has its hash in the input and is the entry stored under that hash. |
| Visor.RecordThenRemove | src/visor/unconfirmed.go:97-152 | Recording a valid transaction into an empty pool and then removing its hash leaves an empty pool, and the hash is unknown again. |
| Visor.RawTxnsExact | src/visor/unconfirmed.go:127-135 | For every map order, the result has |Txns| elements and holds exactly the entries' transactions. In a consistent pool it holds none twice, so its multiset is that of the entries' transactions. |
| Visor.FlattenSingletons | src/visor/unconfirmed.go:130-133 | Position i of the result is the transaction of the i-th visited entry. |
| Visor.RawTxnsDistinct | src/visor/unconfirmed.go:127-135 | In a consistent pool the result lists no transaction twice. |
| Visor.RawTxnsMultiset | src/visor/unconfirmed.go:127-135 | In a consistent pool, for every map order, the multiset of the result is the multiset of the entries' transactions. |
| Collections.DistinctMultiset | src/visor/unconfirmed.go:130-133 | A sequence with no repeated element has the multiset of its set of elements. |
| Visor.SpendsForAddressesExact | src/visor/unconfirmed.go:212-225 | For every map order, only requested addresses are keys. Each listed output belongs to that key and is the ledger output of an input of a pending transaction. Every such output of a requested address is listed under it. |
| Collections.FlattenPermutation | src/visor/unconfirmed.go:130-133 | Any two orders over one key set give results that are permutations of each other, so a map-loop result is determined up to order. |
| Collections.EnumeratesDistinct | src/visor/unconfirmed.go:130 | A map iteration visits no key twice. |
| Visor.UnconfirmedTxnPool.constructor | src/visor/unconfirmed.go:68-73 | A new pool has two empty maps and satisfies the invariant. |
| Visor.UnconfirmedTxnPool.SetAnnounced | src/visor/unconfirmed.go:75-80 | Updates the entry in place, exactly as `Pool.SetAnnounced`, and keeps the invariant. |
| Visor.UnconfirmedTxnPool.RecordTxn | src/visor/unconfirmed.go:97-124 | The new state, error and known flag are exactly those of `Pool.RecordTxn`, and the invariant is kept. |
| Visor.UnconfirmedTxnPool.RawTxns | src/visor/unconfirmed.go:127-135 | The result is the entries' transactions in some map order. It has |Txns| elements, holds exactly those transactions, and in a consistent pool holds none twice. The model states the multiset equality for a consistent pool, where it follows from `RawTxnsMultiset` applied to the order the ensures names. |
| Visor.UnconfirmedTxnPool.CopyTxns | src/visor/unconfirmed.go:128-134 | The loop fills a slice of length |Txns| with the transaction of each visited entry, in visiting order. |
| Visor.UnconfirmedTxnPool.RemoveTxn | src/visor/unconfirmed.go:138-142 | Deletes one hash from both maps and keeps the invariant. |
| Visor.UnconfirmedTxnPool.RemoveTxns | src/visor/unconfirmed.go:146-152 | Deletes every listed hash from both maps (absent hashes are no-ops) and keeps the invariant. |
| Visor.UnconfirmedTxnPool.RemoveTransactions | src/visor/unconfirmed.go:155-162 | Deletes the hashes of the given transactions from both maps and keeps the invariant. |
| Visor.UnconfirmedTxnPool.Refresh | src/visor/unconfirmed.go:167-184 | The new state is exactly `Pool.Refresh` of the old one, whatever the scan order, and the invariant is kept. |
| Visor.UnconfirmedTxnPool.RefreshEntry | src/visor/unconfirmed.go:172-181 | One scanned entry, decided by `Review` and stored as `Rescan` of it: it is marked for eviction iff expired or due and invalid, and stamped checked = now iff due and valid. |
| Visor.UnconfirmedTxnPool.FilterKnown | src/visor/unconfirmed.go:187-195 | The result is the unknown input hashes in input order. A hash is in it iff it is in the input and unknown, each as often as in the input. |
| Visor.UnconfirmedTxnPool.GetKnown | src/visor/unconfirmed.go:198-206 | The result is the transactions of the known input hashes, in input order, and exactly those. |
| Visor.UnconfirmedTxnPool.SpendsForAddresses | src/visor/unconfirmed.go:212-225 | The result tells, per requested address, which pending inputs spend that address's ledger outputs. Only requested addresses are keys. Each listed output has its key's address and is spent by a pending input. Every such spend of a requested address is listed. |
| Visor.UnconfirmedTxnPool.SpendsForAddress | src/visor/unconfirmed.go:227-232 | Equals the entry for `a` of `SpendsForAddresses` on the one-address set, or empty when there is none. Every listed output has address `a` and is spent by a pending input, and every ledger output of `a` that a pending input spends is listed. |

## Left out

- Ledger internals are kept abstract. `Blockchain.VerifyTransaction`, `Blockchain.TransactionFee` and `coin.CreateUnspents` are function-valued fields of `Blockchain`. `Blockchain.Head()` is its plain field `head`, the header of the head block. `UnspentPool.Get` is a map lookup. Their logic is not part of this model.
- `Transaction.Hash()`, `Size()` and `OutputHours()` are fields of `Transaction`. This makes the hash deterministic in the transaction; how it is computed from the serialised body is not modelled.
- The clock. `util.Now()` is the integer parameter `now`, and `util.ZeroTime()` is 0. `time.Duration` comparisons use unbounded integers, so saturation and overflow of `Sub` are not modelled.
- Unused parameters are dropped:
  - `addrs` and `bcUnsp` of `createUnconfirmedTxn`;
  - `addrs` of `RecordTxn`;
  - `bc` of `removeTxn`, `removeTxns` and `RemoveTransactions`.
- The address parameter of `SpendsForAddresses` is a set of addresses: the source's `map[coin.Address]byte` values are never read.
- Go map iteration order is not fixed. Results built by ranging over a map are specified for some enumeration of the keys. `Refresh`'s outcome is proved not to depend on that enumeration.
- `bc.Head()` on a chain without blocks (a panic in the ledger) is not modelled: the head is always present in `Blockchain`.
- The inner loops of `AllForAddress` and `SpendsForAddresses` are separate methods, and so are the loop of `RawTxns` and the per-entry step of `Refresh`. The order of work and the updates in place are the same as in the source.
- Mutators do not require the invariant: the source's fields are exported and its code runs on any pair of (non-nil) maps. Each mutator instead promises to keep the invariant when it held before.
- Nil maps are not modelled: a pool that was not built by `NewUnconfirmedTxnPool` (the zero value `UnconfirmedTxnPool{}`) can have nil `Txns` or `Unspent`. There `RecordTxn`'s new-entry branch panics at src/visor/unconfirmed.go:119, or at :121 after already storing `Txns[h]` when only `Unspent` is nil. The model's maps are always present.
- Concurrency and locking: the source has none.
