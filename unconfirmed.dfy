/**
 * The unconfirmed-transaction pool of the node (`visor` package): the
 * admission policy check, the index of predicted unspent outputs, and the
 * pool that keeps pending transactions and their predicted outputs in two
 * maps with the same key set.
 *
 * The abstract value of the pool is the datatype `Pool`; its member functions
 * say what each operation does to that value, and the lemmas below them state
 * what the operations promise. The class `UnconfirmedTxnPool` holds the two
 * maps as fields and its methods update them in place, each proved to move
 * `Model()` exactly as the corresponding `Pool` function says.
 */
module Visor {
  import opened Coin
  import opened Collections

  /** `util.ZeroTime()`. Timestamps are integers supplied by the caller. */
  const ZeroTime: int := 0

  // ---------------------------------------------------------------------
  // Admission policy
  // ---------------------------------------------------------------------

  /**
   * The pool's own admission rules, checked before consensus validation:
   * a size limit and, unless `burnFactor` is 0, a minimum fee of
   * `OutputHours() / burnFactor` (unsigned integer division).
   */
  function VerifyTransaction(bc: Blockchain, t: Transaction, maxSize: int, burnFactor: uint64): (r: Outcome)
    ensures r.Pass? <==>
      && t.size <= maxSize
      && bc.transactionFee(t).Success?
      && (burnFactor == 0 || t.outputHours / burnFactor <= bc.transactionFee(t).value)
    ensures t.size > maxSize ==> r == Fail(TransactionTooLarge)
    ensures t.size <= maxSize && bc.transactionFee(t).Failure? ==> r == Fail(bc.transactionFee(t).error)
    ensures t.size <= maxSize && bc.transactionFee(t).Success? && r.Fail? ==> r == Fail(FeeMinimumNotMet)
  {
    if t.size > maxSize then Fail(TransactionTooLarge)
    else match bc.transactionFee(t)
      case Failure(e) => Fail(e)
      case Success(fee) =>
        if burnFactor != 0 && t.outputHours / burnFactor > fee then Fail(FeeMinimumNotMet) else Pass
  }

  /**
   * The size limit is inclusive: at the limit only the fee rule decides, one
   * byte over is rejected as too large.
   */
  lemma SizeBoundaryInclusive(bc: Blockchain, t: Transaction, burnFactor: uint64)
    ensures VerifyTransaction(bc, t, t.size, burnFactor).Pass? <==>
      bc.transactionFee(t).Success? &&
      (burnFactor == 0 || t.outputHours / burnFactor <= bc.transactionFee(t).value)
    ensures VerifyTransaction(bc, t, t.size - 1, burnFactor) == Fail(TransactionTooLarge)
  {
  }

  /** The fee limit is inclusive: `OutputHours() / burnFactor == fee` passes, one unit more fails. */
  lemma FeeBoundaryInclusive(bc: Blockchain, t: Transaction, maxSize: int, burnFactor: uint64)
    requires t.size <= maxSize && burnFactor != 0 && bc.transactionFee(t).Success?
    ensures t.outputHours / burnFactor == bc.transactionFee(t).value ==>
      VerifyTransaction(bc, t, maxSize, burnFactor) == Pass
    ensures (t.outputHours / burnFactor) as int == bc.transactionFee(t).value as int + 1 ==>
      VerifyTransaction(bc, t, maxSize, burnFactor) == Fail(FeeMinimumNotMet)
  {
  }

  lemma MulMonotone(a: int, b: int, c: int)
    requires 0 <= a <= b && 0 <= c
    ensures a * c <= b * c
  {
    assert b * c - a * c == (b - a) * c;
  }

  lemma MulCancelStrict(d: int, x: int, y: int)
    requires 0 < d && d * x < d * y
    ensures x < y
  {
    if y <= x {
      MulMonotone(y - y, x - y, d);
    }
  }

  /** Dividing by a larger divisor gives a quotient no larger. */
  lemma DivisorMonotone(n: int, d: int, d': int)
    requires 0 <= n && 0 < d <= d'
    ensures n / d' <= n / d
  {
    var q, q' := n / d, n / d';
    MulMonotone(d, d', q');
    assert d' * q' <= n;
    assert n < d * (q + 1);
    MulCancelStrict(d, q', q + 1);
  }

  /**
   * Loosening the policy never rejects a transaction it used to accept: a
   * larger size limit, a larger burn factor (a smaller fee minimum) or
   * switching the fee check off keep every accepted transaction accepted.
   */
  lemma VerifyTransactionMonotone(bc: Blockchain, t: Transaction, maxSize: int, maxSize': int,
                                  burnFactor: uint64, burnFactor': uint64)
    requires maxSize <= maxSize'
    requires burnFactor' == 0 || (burnFactor != 0 && burnFactor <= burnFactor')
    requires VerifyTransaction(bc, t, maxSize, burnFactor) == Pass
    ensures VerifyTransaction(bc, t, maxSize', burnFactor') == Pass
  {
    if burnFactor' != 0 {
      DivisorMonotone(t.outputHours as int, burnFactor as int, burnFactor' as int);
    }
  }

  // ---------------------------------------------------------------------
  // Predicted unspent outputs
  // ---------------------------------------------------------------------

  /** Transaction hash to the outputs that transaction would create. */
  type TxnUnspents = map<SHA256, UxArray>

  /** The outputs of `uxa` owned by `a`, in their order in `uxa`. */
  function OwnedBy(uxa: UxArray, a: Address): UxArray {
    if uxa == [] then []
    else OwnedBy(uxa[..|uxa| - 1], a) + (if uxa[|uxa| - 1].body.address == a then [uxa[|uxa| - 1]] else [])
  }

  lemma {:induction false} OwnedByMember(uxa: UxArray, a: Address, ux: UxOut)
    ensures ux in OwnedBy(uxa, a) <==> ux in uxa && ux.body.address == a
  {
    if uxa != [] {
      var init := uxa[..|uxa| - 1];
      OwnedByMember(init, a, ux);
      assert uxa == init + [uxa[|uxa| - 1]];
    }
  }

  /** For each hash of `u`, the outputs it predicts for address `a`. */
  function OwnedIn(u: TxnUnspents, a: Address): SHA256 -> UxArray {
    h => if h in u then OwnedBy(u[h], a) else []
  }

  /**
   * Whatever order the index is scanned in, the result holds exactly the
   * predicted outputs owned by `a`.
   */
  lemma AllForAddressExact(u: TxnUnspents, a: Address, order: seq<SHA256>, ux: UxOut)
    requires Enumerates(order, u.Keys)
    ensures ux in Flatten(order, OwnedIn(u, a)) <==>
      ux.body.address == a && exists h :: h in u && ux in u[h]
  {
    FlattenMember(order, OwnedIn(u, a), ux);
    if ux in Flatten(order, OwnedIn(u, a)) {
      var i :| 0 <= i < |order| && ux in OwnedIn(u, a)(order[i]);
      OwnedByMember(u[order[i]], a, ux);
    }
    if ux.body.address == a && exists h :: h in u && ux in u[h] {
      var h :| h in u && ux in u[h];
      EnumeratesMember(order, u.Keys, h);
      var i :| 0 <= i < |order| && order[i] == h;
      OwnedByMember(u[h], a, ux);
    }
  }

  lemma AllForAddressFacts(u: TxnUnspents, a: Address, order: seq<SHA256>)
    requires Enumerates(order, u.Keys)
    ensures var uxo := Flatten(order, OwnedIn(u, a));
      && (forall i :: 0 <= i < |uxo| ==> uxo[i].body.address == a)
      && (forall h, i :: h in u && 0 <= i < |u[h]| && u[h][i].body.address == a ==> u[h][i] in uxo)
  {
    var uxo := Flatten(order, OwnedIn(u, a));
    forall i | 0 <= i < |uxo|
      ensures uxo[i].body.address == a
    {
      AllForAddressExact(u, a, order, uxo[i]);
    }
    forall h, i | h in u && 0 <= i < |u[h]| && u[h][i].body.address == a
      ensures u[h][i] in uxo
    {
      AllForAddressExact(u, a, order, u[h][i]);
    }
  }

  /** The inner loop of `AllForAddress`: append the outputs of one predicted set that `a` owns. */
  method AppendOwned(prefix: UxArray, uxa: UxArray, a: Address) returns (uxo: UxArray)
    ensures uxo == prefix + OwnedBy(uxa, a)
  {
    uxo := prefix;
    for i := 0 to |uxa|
      invariant uxo == prefix + OwnedBy(uxa[..i], a)
    {
      assert uxa[..i + 1][..i] == uxa[..i];
      if uxa[i].body.address == a {
        uxo := uxo + [uxa[i]];
      }
    }
    assert uxa[..|uxa|] == uxa;
  }

  /** `TxnUnspents.AllForAddress`: all predicted outputs for one address. */
  method AllForAddress(u: TxnUnspents, a: Address) returns (uxo: UxArray)
    ensures exists order :: Enumerates(order, u.Keys) && uxo == Flatten(order, OwnedIn(u, a))
    ensures forall i :: 0 <= i < |uxo| ==> uxo[i].body.address == a
    ensures forall h, i :: h in u && 0 <= i < |u[h]| && u[h][i].body.address == a ==> u[h][i] in uxo
  {
    uxo := [];
    var remaining := u.Keys;
    ghost var order: seq<SHA256> := [];
    ghost var owned := OwnedIn(u, a);
    EnumeratesEmpty(u.Keys);
    while remaining != {}
      invariant remaining <= u.Keys
      invariant Enumerates(order, u.Keys - remaining)
      invariant uxo == Flatten(order, owned)
      decreases |remaining|
    {
      var h :| h in remaining;
      var uxa := u[h];
      uxo := AppendOwned(uxo, uxa, a);
      assert owned(h) == OwnedBy(uxa, a);
      EnumeratesStep(order, u.Keys, remaining, h);
      FlattenSnoc(order, h, owned);
      order := order + [h];
      remaining := remaining - {h};
    }
    assert u.Keys - {} == u.Keys;
    AllForAddressFacts(u, a, order);
  }

  // ---------------------------------------------------------------------
  // Pending entries and the abstract pool
  // ---------------------------------------------------------------------

  /** A pending transaction with the times it was last received, checked against the chain and announced. */
  datatype UnconfirmedTxn = UnconfirmedTxn(txn: Transaction, received: int, checked: int, announced: int) {
    function Hash(): SHA256 {
      txn.hash
    }
  }

  /** `createUnconfirmedTxn`: a fresh entry, received and checked now, never announced. */
  function CreateUnconfirmedTxn(t: Transaction, now: int): UnconfirmedTxn {
    UnconfirmedTxn(t, now, now, ZeroTime)
  }

  /** What one scan of `Refresh` does with an entry. */
  datatype Verdict = Untouched | Rechecked | Evicted

  function Review(e: UnconfirmedTxn, bc: Blockchain, checkPeriod: int, maxAge: int, now: int): Verdict {
    if now - e.received >= maxAge then Evicted
    else if now - e.checked >= checkPeriod then
      (if bc.verifyTransaction(e.txn).Pass? then Rechecked else Evicted)
    else Untouched
  }

  /** An entry as `Refresh` leaves it in the table before the evictions are applied. */
  function Rescan(e: UnconfirmedTxn, bc: Blockchain, checkPeriod: int, maxAge: int, now: int): UnconfirmedTxn {
    if Review(e, bc, checkPeriod, maxAge, now) == Rechecked then e.(checked := now) else e
  }

  /** The outputs that the inputs of a transaction resolve to in the ledger's unspent set, in input order. */
  function Resolve(inputs: seq<SHA256>, bcUnspent: UnspentPool): UxArray {
    if inputs == [] then []
    else
      var h := inputs[|inputs| - 1];
      Resolve(inputs[..|inputs| - 1], bcUnspent) + (if h in bcUnspent then [bcUnspent[h]] else [])
  }

  lemma {:induction false} ResolveMember(inputs: seq<SHA256>, bcUnspent: UnspentPool, ux: UxOut)
    ensures ux in Resolve(inputs, bcUnspent) <==>
      exists j :: 0 <= j < |inputs| && inputs[j] in bcUnspent && bcUnspent[inputs[j]] == ux
  {
    if inputs != [] {
      var init := inputs[..|inputs| - 1];
      ResolveMember(init, bcUnspent, ux);
      if exists j :: 0 <= j < |init| && init[j] in bcUnspent && bcUnspent[init[j]] == ux {
        var j :| 0 <= j < |init| && init[j] in bcUnspent && bcUnspent[init[j]] == ux;
        assert inputs[j] == init[j];
      }
      if j :| 0 <= j < |inputs| && inputs[j] in bcUnspent && bcUnspent[inputs[j]] == ux {
        if j < |init| {
          assert init[j] == inputs[j];
        }
      }
    }
  }

  /** A list of outputs grouped by owner, keeping only the owners in `a` that own at least one of them. */
  function GroupByAddress(uxs: UxArray, a: set<Address>): map<Address, UxArray> {
    map x | x in a && OwnedBy(uxs, x) != [] :: OwnedBy(uxs, x)
  }

  /** Appending one output to the list extends its owner's group, as the loop of `SpendsForAddresses` does. */
  lemma GroupByAddressAppend(uxs: UxArray, ux: UxOut, a: set<Address>)
    ensures GroupByAddress(uxs + [ux], a) ==
      var g, x := GroupByAddress(uxs, a), ux.body.address;
      if x in a then g[x := (if x in g then g[x] else []) + [ux]] else g
  {
    var s := uxs + [ux];
    assert s[..|s| - 1] == uxs;
    var g, g', x := GroupByAddress(uxs, a), GroupByAddress(s, a), ux.body.address;
    var rhs := if x in a then g[x := (if x in g then g[x] else []) + [ux]] else g;
    forall y ensures OwnedBy(s, y) == OwnedBy(uxs, y) + (if x == y then [ux] else []) {
    }
    assert g'.Keys == rhs.Keys;
    forall y | y in g' ensures g'[y] == rhs[y] {
    }
  }

  /**
   * The inner loop of `SpendsForAddresses`: add to the grouping the source
   * outputs of one transaction's inputs that resolve and belong to `a`.
   */
  method AppendSpends(auxs: map<Address, UxArray>, ghost prior: UxArray, inputs: seq<SHA256>,
                      bcUnspent: UnspentPool, a: set<Address>)
    returns (auxs': map<Address, UxArray>)
    requires auxs == GroupByAddress(prior, a)
    ensures auxs' == GroupByAddress(prior + Resolve(inputs, bcUnspent), a)
  {
    auxs' := auxs;
    assert prior + Resolve(inputs[..0], bcUnspent) == prior;
    for i := 0 to |inputs|
      invariant auxs' == GroupByAddress(prior + Resolve(inputs[..i], bcUnspent), a)
    {
      assert inputs[..i + 1][..i] == inputs[..i];
      ghost var done := prior + Resolve(inputs[..i], bcUnspent);
      var h := inputs[i];
      if h in bcUnspent {
        var ux := bcUnspent[h];
        GroupByAddressAppend(done, ux, a);
        assert done + [ux] == prior + Resolve(inputs[..i + 1], bcUnspent);
        if ux.body.address in a {
          var owner := ux.body.address;
          auxs' := auxs'[owner := (if owner in auxs' then auxs'[owner] else []) + [ux]];
        }
      } else {
        assert done == prior + Resolve(inputs[..i + 1], bcUnspent);
      }
    }
    assert inputs[..|inputs|] == inputs;
  }

  /** The result of `RecordTxn`: the new pool, the error and whether the transaction was already known. */
  datatype Recorded = Recorded(pool: Pool, err: Outcome, known: bool)

  /**
   * The two maps of the pool: the pending entries and the predicted unspent
   * outputs, both keyed by transaction hash.
   */
  datatype Pool = Pool(txns: map<SHA256, UnconfirmedTxn>, unspent: TxnUnspents) {

    /** The maps have the same keys, and every entry is stored under its own transaction's hash. */
    ghost predicate Valid() {
      && txns.Keys == unspent.Keys
      && forall h :: h in txns ==> txns[h].Hash() == h
    }

    /** `RecordTxn`: validate, then refresh a known entry or insert a new one with its predicted outputs. */
    function RecordTxn(bc: Blockchain, t: Transaction, maxSize: int, burnFactor: uint64, now: int): Recorded {
      var policy := VerifyTransaction(bc, t, maxSize, burnFactor);
      if policy.Fail? then Recorded(this, policy, false)
      else
        var consensus := bc.verifyTransaction(t);
        if consensus.Fail? then Recorded(this, consensus, false)
        else
          var h := t.hash;
          if h in txns then
            Recorded(Pool(txns[h := txns[h].(received := now, checked := now)], unspent), Pass, true)
          else
            Recorded(Pool(txns[h := CreateUnconfirmedTxn(t, now)],
                          unspent[h := bc.createUnspents(bc.head, t)]), Pass, false)
    }

    /** `SetAnnounced`: set the announcement time of a known entry; nothing for an unknown hash. */
    function SetAnnounced(h: SHA256, at: int): Pool {
      if h in txns then Pool(txns[h := txns[h].(announced := at)], unspent) else this
    }

    /** `removeTxns`: delete the given hashes from both maps. */
    function RemoveTxns(hashes: set<SHA256>): Pool {
      Pool(txns - hashes, unspent - hashes)
    }

    /** `Refresh`: re-check entries that are due, then delete the expired and the invalidated ones. */
    function Refresh(bc: Blockchain, checkPeriod: int, maxAge: int, now: int): Pool {
      var scanned := map k | k in txns :: Rescan(txns[k], bc, checkPeriod, maxAge, now);
      var evicted := set k | k in txns && Review(txns[k], bc, checkPeriod, maxAge, now) == Evicted;
      Pool(scanned, unspent).RemoveTxns(evicted)
    }

    /** `FilterKnown`: the hashes of `hs` with no entry, in input order. */
    function FilterKnown(hs: seq<SHA256>): seq<SHA256> {
      if hs == [] then []
      else
        var h := hs[|hs| - 1];
        FilterKnown(hs[..|hs| - 1]) + (if h in txns then [] else [h])
    }

    /** `GetKnown`: the transactions of the hashes of `hs` that have an entry, in input order. */
    function GetKnown(hs: seq<SHA256>): seq<Transaction> {
      if hs == [] then []
      else
        var h := hs[|hs| - 1];
        GetKnown(hs[..|hs| - 1]) + (if h in txns then [txns[h].txn] else [])
    }

    /** What `RawTxns` contributes for one key. */
    function TxnOf(): SHA256 -> seq<Transaction> {
      h => if h in txns then [txns[h].txn] else []
    }

    /** What `SpendsForAddresses` looks up for one key: the resolved inputs of its transaction. */
    function SpendsOf(bcUnspent: UnspentPool): SHA256 -> UxArray {
      h => if h in txns then Resolve(txns[h].txn.inputs, bcUnspent) else []
    }

    /** `ux` is the source output of some input of some pending transaction. */
    ghost predicate SpentByPending(bcUnspent: UnspentPool, ux: UxOut) {
      exists h, j :: h in txns && 0 <= j < |txns[h].txn.inputs| &&
        txns[h].txn.inputs[j] in bcUnspent && bcUnspent[txns[h].txn.inputs[j]] == ux
    }
  }

  const EmptyPool: Pool := Pool(map[], map[])

  // ---------------------------------------------------------------------
  // What the pool operations promise
  // ---------------------------------------------------------------------

  lemma EmptyPoolValid()
    ensures EmptyPool.Valid()
  {
  }

  /** A transaction that fails the policy check or consensus validation is reported and changes nothing. */
  lemma RecordTxnRejected(p: Pool, bc: Blockchain, t: Transaction, maxSize: int, burnFactor: uint64, now: int)
    requires VerifyTransaction(bc, t, maxSize, burnFactor).Fail? || bc.verifyTransaction(t).Fail?
    ensures var r := p.RecordTxn(bc, t, maxSize, burnFactor, now);
      r.pool == p && r.err.Fail? && !r.known
    ensures VerifyTransaction(bc, t, maxSize, burnFactor).Fail? ==>
      p.RecordTxn(bc, t, maxSize, burnFactor, now) == Recorded(p, VerifyTransaction(bc, t, maxSize, burnFactor), false)
    ensures VerifyTransaction(bc, t, maxSize, burnFactor).Pass? && bc.verifyTransaction(t).Fail? ==>
      p.RecordTxn(bc, t, maxSize, burnFactor, now) == Recorded(p, bc.verifyTransaction(t), false)
  {
  }

  /** Re-admitting a known transaction refreshes only its receive and check times. */
  lemma RecordTxnKnown(p: Pool, bc: Blockchain, t: Transaction, maxSize: int, burnFactor: uint64, now: int)
    requires VerifyTransaction(bc, t, maxSize, burnFactor) == Pass && bc.verifyTransaction(t) == Pass
    requires t.hash in p.txns
    ensures var r := p.RecordTxn(bc, t, maxSize, burnFactor, now);
      && r.err == Pass && r.known
      && r.pool.txns.Keys == p.txns.Keys && |r.pool.txns| == |p.txns|
      && r.pool.unspent == p.unspent
      && var e, e' := p.txns[t.hash], r.pool.txns[t.hash];
      && e'.txn == e.txn && e'.announced == e.announced && e'.received == now && e'.checked == now
      && forall k :: k in p.txns && k != t.hash ==> r.pool.txns[k] == p.txns[k]
  {
  }

  /** Admitting a new transaction adds one fresh entry and its predicted outputs from the current head. */
  lemma RecordTxnNew(p: Pool, bc: Blockchain, t: Transaction, maxSize: int, burnFactor: uint64, now: int)
    requires VerifyTransaction(bc, t, maxSize, burnFactor) == Pass && bc.verifyTransaction(t) == Pass
    requires t.hash !in p.txns
    ensures p.RecordTxn(bc, t, maxSize, burnFactor, now).err == Pass
    ensures !p.RecordTxn(bc, t, maxSize, burnFactor, now).known
    ensures var q := p.RecordTxn(bc, t, maxSize, burnFactor, now).pool;
      && q.txns.Keys == p.txns.Keys + {t.hash} && |q.txns| == |p.txns| + 1
      && q.unspent.Keys == p.unspent.Keys + {t.hash}
      && q.txns[t.hash] == UnconfirmedTxn(t, now, now, ZeroTime)
      && q.unspent[t.hash] == bc.createUnspents(bc.head, t)
      && (forall k :: k in p.txns ==> q.txns[k] == p.txns[k])
      && (forall k :: k in p.unspent && k != t.hash ==> q.unspent[k] == p.unspent[k])
  {
    var h := t.hash;
    var q := Pool(p.txns[h := CreateUnconfirmedTxn(t, now)], p.unspent[h := bc.createUnspents(bc.head, t)]);
    var r := p.RecordTxn(bc, t, maxSize, burnFactor, now);
    assert r == Recorded(q, Pass, false);
    MapInsertSize(p.txns, h, CreateUnconfirmedTxn(t, now));
    assert |r.pool.txns| == |p.txns| + 1;
  }

  lemma MapInsertSize<K, V>(m: map<K, V>, k: K, v: V)
    requires k !in m
    ensures |m[k := v]| == |m| + 1
  {
    assert m[k := v].Keys == m.Keys + {k};
  }

  /**
   * Recording the same transaction twice reports "new" and then "known", the
   * second call does not grow the pool, and the check time never goes back.
   */
  lemma RecordTxnTwice(p: Pool, bc: Blockchain, t: Transaction, maxSize: int, burnFactor: uint64,
                       now: int, now': int)
    requires VerifyTransaction(bc, t, maxSize, burnFactor) == Pass && bc.verifyTransaction(t) == Pass
    requires t.hash !in p.txns && now <= now'
    ensures var r := p.RecordTxn(bc, t, maxSize, burnFactor, now);
      var r' := r.pool.RecordTxn(bc, t, maxSize, burnFactor, now');
      && r.err == Pass && !r.known
      && r'.err == Pass && r'.known
      && |r'.pool.txns| == |r.pool.txns|
      && r.pool.txns[t.hash].checked <= r'.pool.txns[t.hash].checked
  {
    var r := p.RecordTxn(bc, t, maxSize, burnFactor, now);
    RecordTxnNew(p, bc, t, maxSize, burnFactor, now);
    RecordTxnKnown(r.pool, bc, t, maxSize, burnFactor, now');
  }

  lemma RecordTxnPreservesValid(p: Pool, bc: Blockchain, t: Transaction, maxSize: int, burnFactor: uint64, now: int)
    requires p.Valid()
    ensures p.RecordTxn(bc, t, maxSize, burnFactor, now).pool.Valid()
  {
  }

  /** `SetAnnounced` changes only the announcement time of an existing entry. */
  lemma SetAnnouncedEffect(p: Pool, h: SHA256, at: int)
    ensures var q := p.SetAnnounced(h, at);
      && q.unspent == p.unspent
      && q.txns.Keys == p.txns.Keys
      && (h !in p.txns ==> q == p)
      && forall k :: k in p.txns ==>
           && q.txns[k].txn == p.txns[k].txn
           && q.txns[k].received == p.txns[k].received
           && q.txns[k].checked == p.txns[k].checked
           && q.txns[k].announced == (if k == h then at else p.txns[k].announced)
  {
  }

  lemma SetAnnouncedPreservesValid(p: Pool, h: SHA256, at: int)
    requires p.Valid()
    ensures p.SetAnnounced(h, at).Valid()
  {
  }

  /** Removal deletes the listed hashes from both maps and keeps every other entry as it was. */
  lemma RemoveTxnsEffect(p: Pool, hashes: set<SHA256>)
    ensures var q := p.RemoveTxns(hashes);
      && (forall h :: h in hashes ==> h !in q.txns && h !in q.unspent)
      && (forall k :: k in p.txns && k !in hashes ==> k in q.txns && q.txns[k] == p.txns[k])
      && (forall k :: k in p.unspent && k !in hashes ==> k in q.unspent && q.unspent[k] == p.unspent[k])
      && q.txns.Keys <= p.txns.Keys && q.unspent.Keys <= p.unspent.Keys
  {
  }

  lemma RemoveTxnsPreservesValid(p: Pool, hashes: set<SHA256>)
    requires p.Valid()
    ensures p.RemoveTxns(hashes).Valid()
  {
  }

  /** What `Refresh` does with each entry, and that it adds nothing. */
  lemma RefreshEffect(p: Pool, bc: Blockchain, checkPeriod: int, maxAge: int, now: int)
    ensures var q := p.Refresh(bc, checkPeriod, maxAge, now);
      && q.txns.Keys <= p.txns.Keys
      && q.unspent.Keys <= p.unspent.Keys
      && forall k :: k in p.txns ==>
           var e := p.txns[k];
           && (now - e.received >= maxAge ==> k !in q.txns && k !in q.unspent)
           && (now - e.received < maxAge && now - e.checked >= checkPeriod ==>
                 if bc.verifyTransaction(e.txn).Pass?
                 then k in q.txns && q.txns[k] == e.(checked := now)
                      && (k in p.unspent ==> k in q.unspent && q.unspent[k] == p.unspent[k])
                 else k !in q.txns && k !in q.unspent)
           && (now - e.received < maxAge && now - e.checked < checkPeriod ==>
                 k in q.txns && q.txns[k] == e
                 && (k in p.unspent ==> k in q.unspent && q.unspent[k] == p.unspent[k]))
  {
  }

  lemma RefreshPreservesValid(p: Pool, bc: Blockchain, checkPeriod: int, maxAge: int, now: int)
    requires p.Valid()
    ensures p.Refresh(bc, checkPeriod, maxAge, now).Valid()
  {
  }

  /**
   * `FilterKnown` works element by element and keeps the input order: on a
   * concatenation it is the concatenation of its results, and on one hash it
   * keeps it exactly when it has no entry.
   */
  lemma {:induction false} FilterKnownConcat(p: Pool, hs: seq<SHA256>, hs': seq<SHA256>)
    ensures p.FilterKnown(hs + hs') == p.FilterKnown(hs) + p.FilterKnown(hs')
    decreases |hs'|
  {
    if hs' == [] {
      assert hs + hs' == hs;
    } else {
      var init := hs'[..|hs'| - 1];
      assert (hs + hs')[..|hs + hs'| - 1] == hs + init;
      FilterKnownConcat(p, hs, init);
    }
  }

  lemma FilterKnownSingle(p: Pool, h: SHA256)
    ensures p.FilterKnown([h]) == if h in p.txns then [] else [h]
  {
    assert [h][..0] == [];
  }

  /** `FilterKnown` keeps each unknown hash as often as it occurs in the input and drops every known one. */
  lemma {:induction false} FilterKnownCount(p: Pool, hs: seq<SHA256>, h: SHA256)
    ensures multiset(p.FilterKnown(hs))[h] == if h in p.txns then 0 else multiset(hs)[h]
  {
    if hs != [] {
      var init := hs[..|hs| - 1];
      FilterKnownCount(p, init, h);
      assert hs == init + [hs[|hs| - 1]];
    }
  }

  lemma FilterKnownMember(p: Pool, hs: seq<SHA256>, h: SHA256)
    ensures h in p.FilterKnown(hs) <==> h in hs && h !in p.txns
  {
    FilterKnownCount(p, hs, h);
    assert h in p.FilterKnown(hs) <==> multiset(p.FilterKnown(hs))[h] > 0;
    assert h in hs <==> multiset(hs)[h] > 0;
  }

  /** `GetKnown` keeps the input order too: it distributes over concatenation. */
  lemma {:induction false} GetKnownConcat(p: Pool, hs: seq<SHA256>, hs': seq<SHA256>)
    ensures p.GetKnown(hs + hs') == p.GetKnown(hs) + p.GetKnown(hs')
    decreases |hs'|
  {
    if hs' == [] {
      assert hs + hs' == hs;
    } else {
      var init := hs'[..|hs'| - 1];
      assert (hs + hs')[..|hs + hs'| - 1] == hs + init;
      GetKnownConcat(p, hs, init);
    }
  }

  /**
   * `GetKnown` returns, in input order, the transaction of each input hash
   * that has an entry; together with `FilterKnown` it splits the input.
   */
  lemma {:induction false} GetKnownExact(p: Pool, hs: seq<SHA256>)
    ensures |p.GetKnown(hs)| + |p.FilterKnown(hs)| == |hs|
    ensures forall t :: t in p.GetKnown(hs) <==> exists i :: 0 <= i < |hs| && hs[i] in p.txns && p.txns[hs[i]].txn == t
  {
    if hs != [] {
      var init, h := hs[..|hs| - 1], hs[|hs| - 1];
      GetKnownExact(p, init);
      forall t ensures t in p.GetKnown(hs) <==> exists i :: 0 <= i < |hs| && hs[i] in p.txns && p.txns[hs[i]].txn == t {
        if t in p.GetKnown(init) {
          var i :| 0 <= i < |init| && init[i] in p.txns && p.txns[init[i]].txn == t;
          assert hs[i] == init[i];
        }
        if i :| 0 <= i < |hs| && hs[i] in p.txns && p.txns[hs[i]].txn == t {
          if i < |init| {
            assert init[i] == hs[i];
          }
        }
      }
    }
  }

  /** In a consistent pool every transaction `GetKnown` returns is stored under its own hash. */
  lemma GetKnownSound(p: Pool, hs: seq<SHA256>)
    requires p.Valid()
    ensures forall t :: t in p.GetKnown(hs) ==> t.hash in hs && t.hash in p.txns && p.txns[t.hash].txn == t
  {
    GetKnownExact(p, hs);
  }

  /** A transaction recorded into an empty pool and then confirmed leaves the pool empty and unknown again. */
  lemma RecordThenRemove(bc: Blockchain, t: Transaction, maxSize: int, burnFactor: uint64, now: int)
    requires VerifyTransaction(bc, t, maxSize, burnFactor) == Pass && bc.verifyTransaction(t) == Pass
    ensures var q := EmptyPool.RecordTxn(bc, t, maxSize, burnFactor, now).pool.RemoveTxns({t.hash});
      q == EmptyPool && q.FilterKnown([t.hash]) == [t.hash]
  {
    var q := EmptyPool.RecordTxn(bc, t, maxSize, burnFactor, now).pool.RemoveTxns({t.hash});
    assert q.txns == map[];
    assert q.unspent == map[];
    assert [t.hash][..0] == [];
  }

  /** Whatever the scan order, `RawTxns` lists each entry's transaction once. */
  lemma {:induction false} RawTxnsExact(p: Pool, order: seq<SHA256>)
    requires Enumerates(order, p.txns.Keys)
    ensures |Flatten(order, p.TxnOf())| == |p.txns|
    ensures forall t :: t in Flatten(order, p.TxnOf()) <==> exists h :: h in p.txns && p.txns[h].txn == t
    ensures p.Valid() ==> var r := Flatten(order, p.TxnOf());
      forall i, j :: 0 <= i < j < |r| ==> r[i] != r[j]
  {
    if p.Valid() {
      RawTxnsDistinct(p, order);
    }
    EnumeratesLength(order, p.txns.Keys);
    forall h | h in order ensures h in p.txns {
      EnumeratesMember(order, p.txns.Keys, h);
    }
    FlattenSingletons(order, p);
    forall t ensures t in Flatten(order, p.TxnOf()) <==> exists h :: h in p.txns && p.txns[h].txn == t {
      FlattenMember(order, p.TxnOf(), t);
      if exists h :: h in p.txns && p.txns[h].txn == t {
        var h :| h in p.txns && p.txns[h].txn == t;
        EnumeratesMember(order, p.txns.Keys, h);
        var i :| 0 <= i < |order| && order[i] == h;
        assert t in p.TxnOf()(order[i]);
      }
    }
  }

  lemma {:induction false} FlattenSingletons(order: seq<SHA256>, p: Pool)
    requires forall h :: h in order ==> h in p.txns
    ensures |Flatten(order, p.TxnOf())| == |order|
    ensures forall i :: 0 <= i < |order| ==> Flatten(order, p.TxnOf())[i] == p.txns[order[i]].txn
  {
    if order != [] {
      var init, h := order[..|order| - 1], order[|order| - 1];
      FlattenSingletons(init, p);
      var r := Flatten(order, p.TxnOf());
      assert r == Flatten(init, p.TxnOf()) + [p.txns[h].txn];
      forall i | 0 <= i < |order| ensures r[i] == p.txns[order[i]].txn {
        if i < |init| {
          assert order[i] == init[i];
        }
      }
    }
  }

  /**
   * In a consistent pool `RawTxns` lists no transaction twice: together with
   * `RawTxnsExact` its multiset is that of the entries' transactions.
   */
  lemma RawTxnsDistinct(p: Pool, order: seq<SHA256>)
    requires p.Valid() && Enumerates(order, p.txns.Keys)
    ensures var r := Flatten(order, p.TxnOf());
      forall i, j :: 0 <= i < j < |r| ==> r[i] != r[j]
  {
    forall h | h in order ensures h in p.txns {
      EnumeratesMember(order, p.txns.Keys, h);
    }
    FlattenSingletons(order, p);
    var r := Flatten(order, p.TxnOf());
    forall i, j | 0 <= i < j < |r| ensures r[i] != r[j] {
      EnumeratesDistinct(order, p.txns.Keys, i, j);
    }
  }

  /**
   * In a consistent pool the multiset of `RawTxns`'s result, in whatever
   * order the table was scanned, is that of the entries' transactions.
   */
  lemma RawTxnsMultiset(p: Pool, order: seq<SHA256>)
    requires p.Valid() && Enumerates(order, p.txns.Keys)
    ensures multiset(Flatten(order, p.TxnOf())) == multiset(set h | h in p.txns :: p.txns[h].txn)
  {
    var r := Flatten(order, p.TxnOf());
    RawTxnsExact(p, order);
    DistinctMultiset(r);
    assert Elements(r) == set h | h in p.txns :: p.txns[h].txn;
  }

  /**
   * Whatever the scan order, `SpendsForAddresses` lists under each requested
   * address exactly the ledger outputs of that address that pending inputs
   * spend, and lists no other address.
   */
  lemma SpendsForAddressesExact(p: Pool, bcUnspent: UnspentPool, a: set<Address>, order: seq<SHA256>)
    requires Enumerates(order, p.txns.Keys)
    ensures var g := GroupByAddress(Flatten(order, p.SpendsOf(bcUnspent)), a);
      && g.Keys <= a
      && (forall x, i :: x in g && 0 <= i < |g[x]| ==>
            g[x][i].body.address == x && p.SpentByPending(bcUnspent, g[x][i]))
      && (forall h, j ::
            (h in p.txns && 0 <= j < |p.txns[h].txn.inputs| &&
             p.txns[h].txn.inputs[j] in bcUnspent && bcUnspent[p.txns[h].txn.inputs[j]].body.address in a) ==>
              var ux := bcUnspent[p.txns[h].txn.inputs[j]];
              ux.body.address in g && ux in g[ux.body.address])
  {
    var flat: UxArray := Flatten(order, p.SpendsOf(bcUnspent));
    var g: map<Address, UxArray> := GroupByAddress(flat, a);
    forall x: Address, i: int | x in g && 0 <= i < |g[x]|
      ensures g[x][i].body.address == x && p.SpentByPending(bcUnspent, g[x][i])
    {
      var ux := g[x][i];
      OwnedByMember(flat, x, ux);
      FlattenMember(order, p.SpendsOf(bcUnspent), ux);
      var k :| 0 <= k < |order| && ux in p.SpendsOf(bcUnspent)(order[k]);
      EnumeratesMember(order, p.txns.Keys, order[k]);
      ResolveMember(p.txns[order[k]].txn.inputs, bcUnspent, ux);
    }
    forall h, j | h in p.txns && 0 <= j < |p.txns[h].txn.inputs| &&
        p.txns[h].txn.inputs[j] in bcUnspent && bcUnspent[p.txns[h].txn.inputs[j]].body.address in a
      ensures var ux := bcUnspent[p.txns[h].txn.inputs[j]];
        ux.body.address in g && ux in g[ux.body.address]
    {
      var ux := bcUnspent[p.txns[h].txn.inputs[j]];
      ResolveMember(p.txns[h].txn.inputs, bcUnspent, ux);
      EnumeratesMember(order, p.txns.Keys, h);
      var k :| 0 <= k < |order| && order[k] == h;
      FlattenMember(order, p.SpendsOf(bcUnspent), ux);
      OwnedByMember(flat, ux.body.address, ux);
    }
  }

  /** The table part-way through the scan of `Refresh`: the entries of `done` rescanned, the rest as they were. */
  function ScanPart(m: map<SHA256, UnconfirmedTxn>, done: set<SHA256>, bc: Blockchain,
                    checkPeriod: int, maxAge: int, now: int): map<SHA256, UnconfirmedTxn> {
    map k | k in m :: if k in done then Rescan(m[k], bc, checkPeriod, maxAge, now) else m[k]
  }

  /** The hashes of `done` that the scan of `Refresh` has marked for eviction. */
  function EvictedIn(m: map<SHA256, UnconfirmedTxn>, done: set<SHA256>, bc: Blockchain,
                     checkPeriod: int, maxAge: int, now: int): set<SHA256> {
    set k | k in m && k in done && Review(m[k], bc, checkPeriod, maxAge, now) == Evicted
  }

  /** Scanning one more entry rescans it and, if it is due for eviction, marks it. */
  lemma ScanStep(m: map<SHA256, UnconfirmedTxn>, remaining: set<SHA256>, k: SHA256, bc: Blockchain,
                 checkPeriod: int, maxAge: int, now: int)
    requires remaining <= m.Keys && k in remaining
    ensures var done, done' := m.Keys - remaining, m.Keys - (remaining - {k});
      && ScanPart(m, done', bc, checkPeriod, maxAge, now) ==
           ScanPart(m, done, bc, checkPeriod, maxAge, now)[k := Rescan(m[k], bc, checkPeriod, maxAge, now)]
      && ScanPart(m, done, bc, checkPeriod, maxAge, now)[k] == m[k]
      && EvictedIn(m, done', bc, checkPeriod, maxAge, now) ==
           EvictedIn(m, done, bc, checkPeriod, maxAge, now) +
           (if Review(m[k], bc, checkPeriod, maxAge, now) == Evicted then {k} else {})
  {
    var done, done' := m.Keys - remaining, m.Keys - (remaining - {k});
    assert done' == done + {k};
  }

  /**
   * Once every entry is scanned, the table and the marks are those of `Pool.Refresh`.
   * The visited set is written `p.txns.Keys - {}`, the loop invariant's `Keys - remaining`
   * at exit, where `remaining == {}`.
   */
  lemma ScanDone(p: Pool, bc: Blockchain, checkPeriod: int, maxAge: int, now: int)
    ensures var done := p.txns.Keys - {};
      && ScanPart(p.txns, done, bc, checkPeriod, maxAge, now) ==
           (map k | k in p.txns :: Rescan(p.txns[k], bc, checkPeriod, maxAge, now))
      && EvictedIn(p.txns, done, bc, checkPeriod, maxAge, now) ==
           (set k | k in p.txns && Review(p.txns[k], bc, checkPeriod, maxAge, now) == Evicted)
  {
    assert p.txns.Keys - {} == p.txns.Keys;
  }

  /** Write `x` at index `i` of `buf`, extending the written prefix by one element. */
  method Store<T>(buf: array<T>, i: nat, x: T)
    requires i < buf.Length
    modifies buf
    ensures buf[..i + 1] == old(buf[..i]) + [x]
    ensures buf[i + 1..] == old(buf[i + 1..])
  {
    buf[i] := x;
    assert buf[..i + 1] == buf[..i] + [buf[i]];
  }

  // ---------------------------------------------------------------------
  // The pool object
  // ---------------------------------------------------------------------

  /** `UnconfirmedTxnPool`: the pending-entry table and the predicted-unspent index, updated in place. */
  class UnconfirmedTxnPool {
    var txns: map<SHA256, UnconfirmedTxn>
    var unspent: TxnUnspents

    function Model(): Pool
      reads this
    {
      Pool(txns, unspent)
    }

    ghost predicate Valid()
      reads this
    {
      Model().Valid()
    }

    /** `NewUnconfirmedTxnPool`. */
    constructor ()
      ensures Model() == EmptyPool && Valid()
    {
      txns := map[];
      unspent := map[];
    }

    method SetAnnounced(h: SHA256, at: int)
      modifies this
      ensures Model() == old(Model()).SetAnnounced(h, at)
      ensures old(Valid()) ==> Valid()
    {
      ghost var before := Model();
      if h in txns {
        var tx := txns[h];
        tx := tx.(announced := at);
        txns := txns[h := tx];
      }
      if before.Valid() {
        SetAnnouncedPreservesValid(before, h, at);
      }
    }

    method RecordTxn(bc: Blockchain, t: Transaction, maxSize: int, burnFactor: uint64, now: int)
      returns (err: Outcome, known: bool)
      modifies this
      ensures Recorded(Model(), err, known) == old(Model()).RecordTxn(bc, t, maxSize, burnFactor, now)
      ensures old(Valid()) ==> Valid()
    {
      ghost var before := Model();
      known := false;
      err := VerifyTransaction(bc, t, maxSize, burnFactor);
      if err.Pass? {
        err := bc.verifyTransaction(t);
        if err.Pass? {
          var h := t.hash;
          if h in txns {
            var ut := txns[h];
            ut := ut.(received := now, checked := now);
            txns := txns[h := ut];
            known := true;
          } else {
            txns := txns[h := CreateUnconfirmedTxn(t, now)];
            unspent := unspent[h := bc.createUnspents(bc.head, t)];
          }
        }
      }
      if before.Valid() {
        RecordTxnPreservesValid(before, bc, t, maxSize, burnFactor, now);
      }
    }

    /** `RawTxns`: every pending transaction, once each, in map iteration order. */
    method RawTxns() returns (r: seq<Transaction>)
      ensures exists order :: Enumerates(order, txns.Keys) && r == Flatten(order, Model().TxnOf())
      ensures |r| == |txns|
      ensures forall t :: t in r <==> exists h :: h in txns && txns[h].txn == t
      ensures Valid() ==> forall i, j :: 0 <= i < j < |r| ==> r[i] != r[j]
    {
      ghost var order;
      r, order := CopyTxns();
      RawTxnsExact(Model(), order);
    }

    /** The loop of `RawTxns`: copy the transaction of each entry into a slice of the table's size. */
    method CopyTxns() returns (r: seq<Transaction>, ghost order: seq<SHA256>)
      ensures Enumerates(order, txns.Keys) && r == Flatten(order, Model().TxnOf())
    {
      var buf := new Transaction[|txns|];
      var i := 0;
      var remaining := txns.Keys;
      order := [];
      ghost var txnOf := Model().TxnOf();
      EnumeratesEmpty(txns.Keys);
      while remaining != {}
        invariant remaining <= txns.Keys
        invariant i + |remaining| == |txns|
        invariant Enumerates(order, txns.Keys - remaining)
        invariant buf[..i] == Flatten(order, txnOf)
        decreases |remaining|
      {
        var h :| h in remaining;
        Store(buf, i, txns[h].txn);
        EnumeratesStep(order, txns.Keys, remaining, h);
        FlattenSnoc(order, h, txnOf);
        order := order + [h];
        remaining := remaining - {h};
        i := i + 1;
      }
      assert txns.Keys - {} == txns.Keys;
      r := buf[..];
      assert r == buf[..i];
    }

    method RemoveTxn(h: SHA256)
      modifies this
      ensures Model() == old(Model()).RemoveTxns({h})
      ensures old(Valid()) ==> Valid()
    {
      txns := txns - {h};
      unspent := unspent - {h};
    }

    method RemoveTxns(hashes: seq<SHA256>)
      modifies this
      ensures Model() == old(Model()).RemoveTxns(Elements(hashes))
      ensures old(Valid()) ==> Valid()
    {
      for i := 0 to |hashes|
        invariant Model() == old(Model()).RemoveTxns(Elements(hashes[..i]))
      {
        assert Elements(hashes[..i + 1]) == Elements(hashes[..i]) + {hashes[i]} by {
          assert hashes[..i + 1] == hashes[..i] + [hashes[i]];
        }
        txns := txns - {hashes[i]};
        unspent := unspent - {hashes[i]};
      }
      assert hashes[..|hashes|] == hashes;
    }

    /** `RemoveTransactions`: drop the entries of transactions a new block confirmed. */
    method RemoveTransactions(ts: seq<Transaction>)
      modifies this
      ensures Model() == old(Model()).RemoveTxns(set t | t in ts :: t.hash)
      ensures old(Valid()) ==> Valid()
    {
      var toRemove := new SHA256[|ts|];
      for i := 0 to |ts|
        invariant Model() == old(Model())
        invariant forall j :: 0 <= j < i ==> toRemove[j] == ts[j].hash
      {
        toRemove[i] := ts[i].hash;
      }
      assert Elements(toRemove[..]) == (set t | t in ts :: t.hash) by {
        forall h | h in toRemove[..] ensures h in (set t | t in ts :: t.hash) {
          var j :| 0 <= j < |ts| && toRemove[j] == h;
          assert ts[j] in ts;
        }
        forall h | h in (set t | t in ts :: t.hash) ensures h in toRemove[..] {
          var t :| t in ts && t.hash == h;
          var j :| 0 <= j < |ts| && ts[j] == t;
          assert toRemove[..][j] == h;
        }
      }
      RemoveTxns(toRemove[..]);
    }

    /**
     * `Refresh`: evict entries older than `maxAge`, re-validate entries not
     * checked for `checkPeriod` and evict those that no longer validate.
     */
    method Refresh(bc: Blockchain, checkPeriod: int, maxAge: int, now: int)
      modifies this
      ensures Model() == old(Model()).Refresh(bc, checkPeriod, maxAge, now)
      ensures old(Valid()) ==> Valid()
    {
      ghost var before := Model();
      ghost var keys := txns.Keys;
      var toRemove: seq<SHA256> := [];
      var remaining := txns.Keys;
      while remaining != {}
        invariant remaining <= keys
        invariant unspent == before.unspent
        invariant txns == ScanPart(before.txns, keys - remaining, bc, checkPeriod, maxAge, now)
        invariant Elements(toRemove) == EvictedIn(before.txns, keys - remaining, bc, checkPeriod, maxAge, now)
        decreases |remaining|
      {
        var k :| k in remaining;
        ScanStep(before.txns, remaining, k, bc, checkPeriod, maxAge, now);
        var evict := RefreshEntry(k, bc, checkPeriod, maxAge, now);
        if evict {
          ElementsSnoc(toRemove, k);
          toRemove := toRemove + [k];
        }
        remaining := remaining - {k};
      }
      ScanDone(before, bc, checkPeriod, maxAge, now);
      assert keys - {} == keys;
      RemoveTxns(toRemove);
      if before.Valid() {
        RefreshPreservesValid(before, bc, checkPeriod, maxAge, now);
      }
    }

    /** One step of the scan of `Refresh`: re-check the entry of `k` if it is due, and say whether it must go. */
    method RefreshEntry(k: SHA256, bc: Blockchain, checkPeriod: int, maxAge: int, now: int) returns (evict: bool)
      requires k in txns
      modifies this
      ensures evict <==> Review(old(txns[k]), bc, checkPeriod, maxAge, now) == Evicted
      ensures txns == old(txns)[k := Rescan(old(txns[k]), bc, checkPeriod, maxAge, now)]
      ensures unspent == old(unspent)
    {
      evict := false;
      var t := txns[k];
      if now - t.received >= maxAge {
        evict := true;
      } else if now - t.checked >= checkPeriod {
        if bc.verifyTransaction(t.txn).Pass? {
          t := t.(checked := now);
          txns := txns[k := t];
        } else {
          evict := true;
        }
      }
    }

    /** `FilterKnown`: the input hashes that have no entry, in input order. */
    method FilterKnown(hs: seq<SHA256>) returns (unknown: seq<SHA256>)
      ensures unknown == Model().FilterKnown(hs)
      ensures forall h :: h in unknown <==> h in hs && h !in txns
      ensures forall h :: multiset(unknown)[h] == if h in txns then 0 else multiset(hs)[h]
    {
      unknown := [];
      for i := 0 to |hs|
        invariant unknown == Model().FilterKnown(hs[..i])
      {
        assert hs[..i + 1][..i] == hs[..i];
        if hs[i] !in txns {
          unknown := unknown + [hs[i]];
        }
      }
      assert hs[..|hs|] == hs;
      forall h ensures h in unknown <==> h in hs && h !in txns {
        FilterKnownMember(Model(), hs, h);
      }
      forall h ensures multiset(unknown)[h] == if h in txns then 0 else multiset(hs)[h] {
        FilterKnownCount(Model(), hs, h);
      }
    }

    /** `GetKnown`: the transactions of the input hashes that have an entry, in input order. */
    method GetKnown(hs: seq<SHA256>) returns (known: seq<Transaction>)
      ensures known == Model().GetKnown(hs)
      ensures forall t :: t in known <==> exists i :: 0 <= i < |hs| && hs[i] in txns && txns[hs[i]].txn == t
    {
      known := [];
      for i := 0 to |hs|
        invariant known == Model().GetKnown(hs[..i])
      {
        assert hs[..i + 1][..i] == hs[..i];
        if hs[i] in txns {
          known := known + [txns[hs[i]].txn];
        }
      }
      assert hs[..|hs|] == hs;
      GetKnownExact(Model(), hs);
    }

    /**
     * `SpendsForAddresses`: for each address of `a`, the ledger outputs of
     * that address that inputs of pending transactions spend.
     */
    method SpendsForAddresses(bcUnspent: UnspentPool, a: set<Address>) returns (auxs: map<Address, UxArray>)
      ensures exists order ::
        (Enumerates(order, txns.Keys) && auxs == GroupByAddress(Flatten(order, Model().SpendsOf(bcUnspent)), a))
      ensures auxs.Keys <= a
      ensures forall x, i :: x in auxs && 0 <= i < |auxs[x]| ==>
        auxs[x][i].body.address == x && Model().SpentByPending(bcUnspent, auxs[x][i])
      ensures forall h, j ::
        (h in txns && 0 <= j < |txns[h].txn.inputs| &&
         txns[h].txn.inputs[j] in bcUnspent && bcUnspent[txns[h].txn.inputs[j]].body.address in a) ==>
          var ux := bcUnspent[txns[h].txn.inputs[j]];
          ux.body.address in auxs && ux in auxs[ux.body.address]
    {
      auxs := map[];
      var remaining := txns.Keys;
      ghost var order: seq<SHA256> := [];
      ghost var spends := Model().SpendsOf(bcUnspent);
      EnumeratesEmpty(txns.Keys);
      assert auxs == GroupByAddress([], a);
      while remaining != {}
        invariant remaining <= txns.Keys
        invariant Enumerates(order, txns.Keys - remaining)
        invariant auxs == GroupByAddress(Flatten(order, spends), a)
        decreases |remaining|
      {
        var k :| k in remaining;
        var ins := txns[k].txn.inputs;
        auxs := AppendSpends(auxs, Flatten(order, spends), ins, bcUnspent, a);
        assert spends(k) == Resolve(ins, bcUnspent);
        EnumeratesStep(order, txns.Keys, remaining, k);
        FlattenSnoc(order, k, spends);
        order := order + [k];
        remaining := remaining - {k};
      }
      assert txns.Keys - {} == txns.Keys;
      SpendsForAddressesExact(Model(), bcUnspent, a, order);
    }

    /** `SpendsForAddress`: the spends of one address, the one-address case of `SpendsForAddresses`. */
    method SpendsForAddress(bcUnspent: UnspentPool, a: Address) returns (uxs: UxArray)
      ensures exists order ::
        (Enumerates(order, txns.Keys) &&
         var g := GroupByAddress(Flatten(order, Model().SpendsOf(bcUnspent)), {a});
         uxs == (if a in g then g[a] else []))
      ensures forall i :: 0 <= i < |uxs| ==> uxs[i].body.address == a && Model().SpentByPending(bcUnspent, uxs[i])
      ensures forall h, j ::
        (h in txns && 0 <= j < |txns[h].txn.inputs| &&
         txns[h].txn.inputs[j] in bcUnspent && bcUnspent[txns[h].txn.inputs[j]].body.address == a) ==>
          bcUnspent[txns[h].txn.inputs[j]] in uxs
    {
      var auxs := SpendsForAddresses(bcUnspent, {a});
      uxs := if a in auxs then auxs[a] else [];
    }
  }
}
