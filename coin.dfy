/**
 * The parts of the ledger package (`coin`) that the unconfirmed-transaction
 * pool depends on. Everything here is an external collaborator of the pool:
 * the types are reduced to the fields the pool reads, and the ledger's
 * operations are function-valued fields of `Blockchain`, so every lemma about
 * the pool holds for every ledger.
 */
module Coin {

  /** Go's `uint64`. */
  newtype uint64 = x: int | 0 <= x < 0x1_0000_0000_0000_0000

  /** A transaction or output hash (32 bytes in the ledger; the length is never relied on). */
  type SHA256 = seq<bv8>

  /** An address: a version byte and a public-key hash. */
  datatype Address = Address(version: bv8, key: seq<bv8>)

  datatype UxHead = UxHead(time: uint64, bkSeq: uint64)

  datatype UxBody = UxBody(srcTransaction: SHA256, address: Address, coins: uint64, hours: uint64)

  /** An unspent output. The pool only ever looks at `body.address`. */
  datatype UxOut = UxOut(head: UxHead, body: UxBody)

  type UxArray = seq<UxOut>

  /**
   * A transaction as the pool sees it: the output hashes it spends and the
   * values of its `Hash()`, `Size()` and `OutputHours()` methods. How those
   * three are computed from the serialised body is not part of this model;
   * keeping them as fields makes `Hash` a deterministic function of the
   * transaction, as content addressing requires.
   */
  datatype Transaction = Transaction(inputs: seq<SHA256>, hash: SHA256, size: int, outputHours: uint64)

  datatype BlockHeader = BlockHeader(version: uint64, time: uint64, bkSeq: uint64, prevHash: SHA256)

  /** The ledger's live unspent-output set; `UnspentPool.Get(h)` is a lookup in it. */
  type UnspentPool = map<SHA256, UxOut>

  /** Errors of the pool's own policy check, and whatever the ledger reports. */
  datatype Error =
    | TransactionTooLarge
    | FeeMinimumNotMet
    | LedgerError(reason: string)

  /** A Go `error` result: `Pass` is `nil`. */
  datatype Outcome = Pass | Fail(error: Error)

  /** A Go `(value, error)` pair. */
  datatype Result<T> = Success(value: T) | Failure(error: Error)

  /**
   * The ledger, as an oracle: the head block's header, consensus validation
   * (`Blockchain.VerifyTransaction`), fee computation
   * (`Blockchain.TransactionFee`) and the derivation of the outputs a
   * transaction would create (`coin.CreateUnspents`).
   */
  datatype Blockchain = Blockchain(
    head: BlockHeader,
    verifyTransaction: Transaction -> Outcome,
    transactionFee: Transaction -> Result<uint64>,
    createUnspents: (BlockHeader, Transaction) -> UxArray)
}
