/** The transaction pool: pending transactions per sender in nonce order, an index of all of
    them by hash, and a memory of rejected hashes. Each locked section is one method. */
module TxPool {
  import opened Wrappers
  import opened Words
  import opened Sets

  const MAX_TX_POOL_SIZE := 100000
  const MAX_REJECTED_TXS_SIZE := 10000
  const MIN_GAS_PRICE := 1

  /** In seconds. */
  const TX_EXPIRATION := 30 * 60
  const MAX_FUTURE_TIME_DRIFT := 15 * 60

  /** `sender` is what recovering the signature gives; nil pointers are None. */
  datatype Tx = Tx(sender: Option<Address>, nonce: U64, gasPrice: Option<int>, gas: U64, to: Option<Address>,
                   timestamp: U64, body: nat)

  /** Hashes are injective: a hash is identified with the transaction it was taken of. */
  type Hash = Tx

  datatype PoolError = PreviouslyRejected | InvalidTx | GasLimitExceeded | GasPriceTooLow | BadSignature
                     | TxPoolOverflow | TimestampTooFar | ReplacementUnderpriced

  // ---------------------------------------------------------------------------
  // Transactions
  // ---------------------------------------------------------------------------

  /** big.Int.Uint64 keeps the low 64 bits of the magnitude. */
  function Low64(x: int): nat { (if x < 0 then -x else x) % TWO64 }

  /** int64(timestamp) */
  function UnixTime(t: U64): int { if t < TWO63 then t else t - TWO64 }

  function ValidateTransaction(tx: Tx, blockGasLimit: U64): Option<PoolError>
  {
    if tx.gas == 0 || tx.gasPrice.None? || tx.to.None? then Some(InvalidTx)
    else if tx.gas > blockGasLimit then Some(GasLimitExceeded)
    else if Low64(tx.gasPrice.value) < MIN_GAS_PRICE then Some(GasPriceTooLow)
    else if tx.sender.None? then Some(BadSignature)
    else None
  }

  /** What a transaction must have: gas within the limit, a price whose low 64 bits are not all
      zero, a recipient and a recoverable sender. */
  ghost predicate Sound(tx: Tx, limit: U64)
  {
    && 0 < tx.gas <= limit && tx.gasPrice.Some? && tx.gasPrice.value % TWO64 != 0
    && tx.to.Some? && tx.sender.Some?
  }

  /** A transaction is valid exactly when it is sound; else the error names the first thing it
      lacks. */
  lemma ValidIffSound(tx: Tx, limit: U64)
    ensures ValidateTransaction(tx, limit).None? <==> Sound(tx, limit)
    ensures ValidateTransaction(tx, limit) == Some(InvalidTx) <==> tx.gas == 0 || tx.gasPrice.None? || tx.to.None?
    ensures ValidateTransaction(tx, limit) == Some(GasLimitExceeded) <==>
            tx.gas > limit && tx.gas != 0 && tx.gasPrice.Some? && tx.to.Some?
    ensures ValidateTransaction(tx, limit) == Some(GasPriceTooLow) <==>
            0 < tx.gas <= limit && tx.gasPrice.Some? && tx.gasPrice.value % TWO64 == 0 && tx.to.Some?
    ensures ValidateTransaction(tx, limit) == Some(BadSignature) <==>
            0 < tx.gas <= limit && tx.gasPrice.Some? && tx.gasPrice.value % TWO64 != 0 && tx.to.Some? && tx.sender.None?
  {
  }

  /** The age of a transaction by a timestamp that is read as a signed number. */
  ghost function Age(tx: Tx, now: int): int
  {
    if tx.timestamp < TWO63 then now - tx.timestamp else now - tx.timestamp + TWO64
  }

  predicate TooFarInFuture(tx: Tx, now: int) { UnixTime(tx.timestamp) > now + MAX_FUTURE_TIME_DRIFT }
  predicate Fresh(tx: Tx, now: int) { now - UnixTime(tx.timestamp) < TX_EXPIRATION }

  // ---------------------------------------------------------------------------
  // Lists in nonce order
  // ---------------------------------------------------------------------------

  ghost predicate Increasing(l: seq<Tx>)
  {
    forall i, j :: 0 <= i < j < |l| ==> l[i].nonce < l[j].nonce
  }

  /** A list the pool may hold for a sender. */
  ghost predicate ListOk(a: Address, l: seq<Tx>)
  {
    && Increasing(l)
    && forall i :: 0 <= i < |l| ==> l[i].sender == Some(a) && l[i].gasPrice.Some?
  }

  /** Behind the last entry whose nonce is not larger, as a stable sort leaves it. */
  function InsertByNonce(l: seq<Tx>, tx: Tx): (r: seq<Tx>)
    ensures forall t :: t in r <==> t in l || t == tx
  {
    if l == [] || l[|l| - 1].nonce <= tx.nonce then l + [tx]
    else
      assert l == l[..|l| - 1] + [l[|l| - 1]];
      InsertByNonce(l[..|l| - 1], tx) + [l[|l| - 1]]
  }

  /** The stable sort by nonce. */
  function SortByNonce(l: seq<Tx>): seq<Tx>
  {
    if l == [] then [] else InsertByNonce(SortByNonce(l[..|l| - 1]), l[|l| - 1])
  }

  lemma {:induction false} SortOfSorted(l: seq<Tx>)
    requires Increasing(l)
    ensures SortByNonce(l) == l
  {
    if l != [] {
      SortOfSorted(l[..|l| - 1]);
      assert l == l[..|l| - 1] + [l[|l| - 1]];
    }
  }

  lemma {:induction false} InsertKeepsIncreasing(l: seq<Tx>, tx: Tx)
    requires Increasing(l) && forall i :: 0 <= i < |l| ==> l[i].nonce != tx.nonce
    ensures Increasing(InsertByNonce(l, tx))
  {
    if l != [] && l[|l| - 1].nonce > tx.nonce {
      var n := |l| - 1;
      InsertKeepsIncreasing(l[..n], tx);
      var r := InsertByNonce(l[..n], tx);
      forall i | 0 <= i < |r|
        ensures r[i].nonce < l[n].nonce
      {
        assert r[i] in l[..n] || r[i] == tx;
      }
    }
  }

  lemma SortAppended(a: Address, l: seq<Tx>, tx: Tx)
    requires ListOk(a, l) && tx.sender == Some(a) && tx.gasPrice.Some?
    requires forall i :: 0 <= i < |l| ==> l[i].nonce != tx.nonce
    ensures ListOk(a, SortByNonce(l + [tx])) && forall t :: t in SortByNonce(l + [tx]) <==> t in l || t == tx
  {
    assert (l + [tx])[..|l + [tx]| - 1] == l;
    SortOfSorted(l);
    InsertKeepsIncreasing(l, tx);
    var r := InsertByNonce(l, tx);
    forall i | 0 <= i < |r|
      ensures r[i].sender == Some(a) && r[i].gasPrice.Some?
    {
      assert r[i] in l || r[i] == tx;
    }
  }

  // ---------------------------------------------------------------------------
  // The index
  // ---------------------------------------------------------------------------

  type Pending = map<Address, seq<Tx>>
  type Index = map<Hash, Tx>

  function ListOf(pending: Pending, a: Address): seq<Tx> { if a in pending then pending[a] else [] }

  /** The transaction is in the list of its sender. */
  ghost predicate Holds(pending: Pending, t: Tx)
  {
    t.sender.Some? && t in ListOf(pending, t.sender.value)
  }

  /** Every list is non-empty, in order and of its sender; the index holds exactly the
      pending transactions, each under its own hash. */
  ghost predicate Indexed(pending: Pending, all: Index)
  {
    && (forall a :: a in pending ==> pending[a] != [] && ListOk(a, pending[a]))
    && (forall h :: h in all ==> all[h] == h)
    && (forall t :: t in all <==> Holds(pending, t))
  }

  /** No hash is both rejected and pooled. */
  ghost predicate Apart(rejected: set<Hash>, all: Index)
  {
    forall h :: h in rejected ==> h !in all
  }

  lemma ApartShrinks(rejected: set<Hash>, all: Index, all': Index)
    requires Apart(rejected, all) && forall h :: h in all' ==> h in all
    ensures Apart(rejected, all')
  {
  }

  lemma ApartGrows(rejected: set<Hash>, all: Index, tx: Tx)
    requires Apart(rejected, all) && tx !in all
    ensures Apart(rejected + {tx}, all) && Apart({} + {tx}, all)
  {
  }

  /** The lists with the list of one sender replaced; an empty list is dropped. */
  function WithList(pending: Pending, a: Address, l: seq<Tx>): Pending
  {
    if l == [] then pending - {a} else pending[a := l]
  }

  /** Replacing one list, with the index following, changes what is held by that list only. */
  lemma ReplaceList(pending: Pending, all: Index, a: Address, l: seq<Tx>, all': Index)
    requires Indexed(pending, all) && ListOk(a, l)
    requires forall h :: h in all' ==> all'[h] == h
    requires forall t :: t in all' <==> (t in all && t !in ListOf(pending, a)) || t in l
    ensures Indexed(WithList(pending, a, l), all')
    ensures forall t :: Holds(WithList(pending, a, l), t) <==> (Holds(pending, t) && t !in ListOf(pending, a)) || t in l
  {
    hide Increasing;
    var pending' := WithList(pending, a, l);
    forall t
      ensures Holds(pending', t) <==> (Holds(pending, t) && t !in ListOf(pending, a)) || t in l
    {
      if t.sender == Some(a) {
        assert Holds(pending', t) <==> t in l;
      } else {
        assert t !in l && t !in ListOf(pending, a);
      }
    }
  }

  /** The gas price on offer for a sender's nonce. */
  ghost predicate Offers(pending: Pending, a: Address, nonce: U64, price: int)
  {
    exists t :: Holds(pending, t) && t.sender == Some(a) && t.nonce == nonce && t.gasPrice == Some(price)
  }

  /** No slot that is occupied before and after got cheaper. */
  ghost predicate PricesKept(before: Pending, after: Pending)
  {
    forall a: Address, n: U64, p: int, p': int :: Offers(before, a, n, p) && Offers(after, a, n, p') ==> p <= p'
  }

  /** One transaction per slot. */
  lemma OnePerSlot(pending: Pending, t: Tx, u: Tx)
    requires forall a :: a in pending ==> ListOk(a, pending[a])
    requires Holds(pending, t) && Holds(pending, u) && t.sender == u.sender && t.nonce == u.nonce
    ensures t == u
  {
  }

  lemma FewerKeepsPrices(before: Pending, all: Index, after: Pending, all': Index)
    requires Indexed(before, all) && Indexed(after, all') && (forall t :: Holds(after, t) ==> Holds(before, t))
    ensures PricesKept(before, after)
  {
    forall a: Address, n: U64, p: int, p': int | Offers(before, a, n, p) && Offers(after, a, n, p')
      ensures p <= p'
    {
      var t :| Holds(before, t) && t.sender == Some(a) && t.nonce == n && t.gasPrice == Some(p);
      var u :| Holds(after, u) && u.sender == Some(a) && u.nonce == n && u.gasPrice == Some(p');
      OnePerSlot(before, t, u);
    }
  }

  // ---------------------------------------------------------------------------
  // The pool
  // ---------------------------------------------------------------------------

  predicate SameSlot(t: Tx, u: Tx) { t.sender == u.sender && t.nonce == u.nonce }

  /** The transaction outbids whatever holds its slot. */
  ghost predicate Outbids(pending: Pending, tx: Tx)
  {
    forall t :: Holds(pending, t) && SameSlot(t, tx) ==>
      t.gasPrice.Some? && tx.gasPrice.Some? && tx.gasPrice.value > t.gasPrice.value
  }

  /** In a pool in order: every pooled transaction of the same sender and nonce is cheaper. */
  lemma OutbidsIffDearer(pending: Pending, all: Index, tx: Tx)
    requires Indexed(pending, all) && tx.gasPrice.Some?
    ensures forall t :: Holds(pending, t) ==> t.gasPrice.Some?
    ensures Outbids(pending, tx) <==>
            forall t :: Holds(pending, t) && t.sender == tx.sender && t.nonce == tx.nonce ==>
              t.gasPrice.Some? && t.gasPrice.value < tx.gasPrice.value
  {
    forall t | Holds(pending, t)
      ensures t.gasPrice.Some?
    {
      assert ListOk(t.sender.value, pending[t.sender.value]);
    }
  }

  lemma OutbidKeepsPrices(before: Pending, all: Index, after: Pending, all': Index, tx: Tx)
    requires Indexed(before, all) && Indexed(after, all') && Outbids(before, tx)
    requires forall t :: Holds(after, t) ==> Holds(before, t) || t == tx
    ensures PricesKept(before, after)
  {
    forall a: Address, n: U64, p: int, p': int | Offers(before, a, n, p) && Offers(after, a, n, p')
      ensures p <= p'
    {
      var t :| Holds(before, t) && t.sender == Some(a) && t.nonce == n && t.gasPrice == Some(p);
      var u :| Holds(after, u) && u.sender == Some(a) && u.nonce == n && u.gasPrice == Some(p');
      if Holds(before, u) {
        OnePerSlot(before, t, u);
      } else {
        assert SameSlot(t, tx);
      }
    }
  }

  /** Where the slot of the nonce is in the list, if anywhere. */
  method FindNonce(l: seq<Tx>, nonce: U64) returns (i: nat)
    ensures i <= |l| && (i < |l| ==> l[i].nonce == nonce)
    ensures forall j :: 0 <= j < i ==> l[j].nonce != nonce
  {
    i := 0;
    while i < |l| && l[i].nonce != nonce
      invariant i <= |l| && forall j :: 0 <= j < i ==> l[j].nonce != nonce
    {
      i := i + 1;
    }
  }

  /** Where the transaction is in the list, if anywhere. */
  method FindTx(l: seq<Tx>, tx: Tx) returns (i: nat)
    ensures i <= |l| && (i < |l| ==> l[i] == tx)
    ensures forall j :: 0 <= j < i ==> l[j] != tx
  {
    i := 0;
    while i < |l| && l[i] != tx
      invariant i <= |l| && forall j :: 0 <= j < i ==> l[j] != tx
    {
      i := i + 1;
    }
  }

  /** Which transactions of a sender stay. */
  datatype Rule = FreshAt(now: int) | NonceFrom(nonce: U64)

  predicate Keeps(rule: Rule, tx: Tx)
  {
    match rule
    case FreshAt(now) => Fresh(tx, now)
    case NonceFrom(nonce) => tx.nonce >= nonce
  }

  /** Of the sender, exactly the transactions that the rule keeps are left. */
  ghost predicate SiftedTo(before: Pending, after: Pending, a: Address, rule: Rule)
  {
    forall t :: Holds(after, t) <==> Holds(before, t) && (t.sender == Some(a) ==> Keeps(rule, t))
  }

  /** Exactly the one transaction is gone. */
  ghost predicate Without(before: Pending, after: Pending, tx: Tx)
  {
    forall t :: Holds(after, t) <==> Holds(before, t) && t != tx
  }

  /** The rejected hashes after another one, with the memory reset when it is full. */
  ghost function Remembered(rejected: set<Hash>, tx: Tx): set<Hash>
  {
    (if |rejected| >= MAX_REJECTED_TXS_SIZE then {} else rejected) + {tx}
  }

  class Pool {
    const blockGasLimit: U64
    var pending: Pending
    var allTxs: Index
    var rejected: set<Hash>
    var nonceCache: map<Address, U64>
    var lastCleanup: int

    ghost function Now(): State
      reads this
    {
      State(pending, allTxs, rejected, nonceCache, lastCleanup)
    }

    ghost predicate Valid()
      reads this
    {
      StateOk(Now())
    }

    constructor (blockGasLimit: U64, now: int)
      ensures Valid() && (forall t :: !Holds(pending, t)) && rejected == {} && this.blockGasLimit == blockGasLimit
    {
      this.blockGasLimit := blockGasLimit;
      pending, allTxs, rejected, nonceCache, lastCleanup := map[], map[], {}, map[], now;
    }

    /** Accepts a known transaction again, and a new one exactly when it was not rejected
        before, is valid, timely, fits in and outbids the holder of its slot; then it is the
        only transaction of its slot. A refused transaction changes no list. */
    method AddTransaction(tx: Tx, now: int) returns (error: Option<PoolError>)
      requires Valid()
      modifies this`pending, this`allTxs, this`rejected
      ensures Valid() && PricesKept(old(pending), pending)
      ensures error ==
              if tx in old(allTxs) then None
              else if tx in old(rejected) then Some(PreviouslyRejected)
              else if !Sound(tx, blockGasLimit) then ValidateTransaction(tx, blockGasLimit)
              else if |old(allTxs)| >= 100000 then Some(TxPoolOverflow)
              else if Age(tx, now) < -900 then Some(TimestampTooFar)
              else if !Outbids(old(pending), tx) then Some(ReplacementUnderpriced)
              else None
      ensures error.None? && tx !in old(allTxs) ==>
                forall t :: Holds(pending, t) <==> (Holds(old(pending), t) && !SameSlot(t, tx)) || t == tx
      ensures error.Some? || tx in old(allTxs) ==> pending == old(pending) && allTxs == old(allTxs)
      ensures rejected ==
              if tx in old(allTxs) || tx in old(rejected) then old(rejected)
              else if !Sound(tx, blockGasLimit) then Remembered(old(rejected), tx)
              else if |old(allTxs)| < MAX_TX_POOL_SIZE && Age(tx, now) < -900 then old(rejected) + {tx}
              else old(rejected)
    {
      ValidIffSound(tx, blockGasLimit);
      assert TooFarInFuture(tx, now) <==> Age(tx, now) < -900;
      hide Increasing, ListOk, Indexed, Apart, PricesKept, Outbids, Holds, ValidateTransaction, TooFarInFuture;
      FewerKeepsPrices(pending, allTxs, pending, allTxs);
      if tx in allTxs {
        return None;
      }
      error := Screen(tx, now);
      if error.None? {
        error := Place(tx);
      }
    }

    /** The checks on a new transaction alone, with what they leave in the memory of rejected
        hashes. */
    method Screen(tx: Tx, now: int) returns (error: Option<PoolError>)
      requires Valid() && tx !in allTxs
      modifies this`rejected
      ensures Valid()
      ensures error ==
              if tx in old(rejected) then Some(PreviouslyRejected)
              else if ValidateTransaction(tx, blockGasLimit).Some? then ValidateTransaction(tx, blockGasLimit)
              else if |allTxs| >= MAX_TX_POOL_SIZE then Some(TxPoolOverflow)
              else if TooFarInFuture(tx, now) then Some(TimestampTooFar)
              else None
      ensures rejected ==
              if tx in old(rejected) then old(rejected)
              else if ValidateTransaction(tx, blockGasLimit).Some? then Remembered(old(rejected), tx)
              else if |allTxs| < MAX_TX_POOL_SIZE && TooFarInFuture(tx, now) then old(rejected) + {tx}
              else old(rejected)
    {
      hide Increasing, ListOk, Indexed, Apart, ValidateTransaction, TooFarInFuture;
      ApartGrows(rejected, allTxs, tx);
      if tx in rejected {
        return Some(PreviouslyRejected);
      }
      var invalid := ValidateTransaction(tx, blockGasLimit);
      if invalid.Some? {
        if |rejected| >= MAX_REJECTED_TXS_SIZE {
          rejected := {};
        }
        rejected := rejected + {tx};
        return invalid;
      }
      if |allTxs| >= MAX_TX_POOL_SIZE {
        return Some(TxPoolOverflow);
      }
      if TooFarInFuture(tx, now) {
        rejected := rejected + {tx};
        return Some(TimestampTooFar);
      }
      return None;
    }

    /** Replaces the holder of the slot if outbid, else adds the transaction in nonce order. */
    method Place(tx: Tx) returns (error: Option<PoolError>)
      requires Valid() && tx !in allTxs && tx !in rejected && |allTxs| < MAX_TX_POOL_SIZE
      requires tx.sender.Some? && tx.gasPrice.Some?
      modifies this`pending, this`allTxs
      ensures Valid() && PricesKept(old(pending), pending)
      ensures error == if Outbids(old(pending), tx) then None else Some(ReplacementUnderpriced)
      ensures error.None? ==> forall t :: Holds(pending, t) <==> (Holds(old(pending), t) && !SameSlot(t, tx)) || t == tx
      ensures error.Some? ==> pending == old(pending) && allTxs == old(allTxs)
    {
      hide Increasing, ListOk, Indexed, SortByNonce;
      var from := tx.sender.value;
      var l := ListOf(pending, from);
      var i := FindNonce(l, tx.nonce);
      SlotInList(pending, allTxs, tx, i);
      ghost var before, all := pending, allTxs;
      if i < |l| {
        var holder := l[i];
        if !(tx.gasPrice.value > holder.gasPrice.value) {
          FewerKeepsPrices(before, all, before, all);
          return Some(ReplacementUnderpriced);
        }
        allTxs := (allTxs - {holder})[tx := tx];
        pending := pending[from := l[i := tx]];
        SwapInList(before, all, tx, i);
      } else {
        pending := pending[from := SortByNonce(l + [tx])];
        allTxs := allTxs[tx := tx];
        AddToList(before, all, tx);
      }
      OutbidKeepsPrices(before, all, pending, allTxs, tx);
      return None;
    }

    /** Drops the transactions of one sender that are not to be kept, and the sender with the
        last of them. */
    method Sift(a: Address, rule: Rule)
      requires Valid()
      modifies this`pending, this`allTxs
      ensures Valid() && SiftedTo(old(pending), pending, a, rule)
    {
      hide Increasing, ListOk, Indexed, Apart, Sifted, SiftedList, SiftedTo, WithList;
      IndexedList(pending, allTxs, a);
      var kept := SiftEntries(a, ListOf(pending, a), rule);
      pending := WithList(pending, a, kept);
      SiftReplaces(old(pending), old(allTxs), a, rule, allTxs, kept);
      ApartShrinks(rejected, old(allTxs), allTxs);
    }

    /** Unindexes the entries that are not to be kept and returns the others. */
    method SiftEntries(a: Address, l: seq<Tx>, rule: Rule) returns (kept: seq<Tx>)
      requires ListOk(a, l) && forall h :: h in allTxs ==> allTxs[h] == h
      modifies this`allTxs
      ensures Sifted(old(allTxs), l, rule, allTxs) && SiftedList(a, l, |l|, rule, kept)
    {
      hide Increasing, ListOk, Sifted, SiftedList;
      SiftStart(allTxs, a, l, rule);
      kept := [];
      var i := 0;
      while i < |l|
        invariant i <= |l| && Sifted(old(allTxs), l[..i], rule, allTxs) && SiftedList(a, l, i, rule, kept)
      {
        var tx := l[i];
        SiftOne(old(allTxs), a, l, i, rule, allTxs, kept);
        if Keeps(rule, tx) {
          kept := kept + [tx];
        } else {
          allTxs := allTxs - {tx};
        }
        i := i + 1;
      }
      assert l[..i] == l;
    }

    /** Exactly the expired transactions go. */
    method RemoveStale(now: int)
      requires Valid()
      modifies this`pending, this`allTxs, this`rejected, this`lastCleanup
      ensures Valid() && PricesKept(old(pending), pending)
      ensures forall t :: Holds(pending, t) <==> Holds(old(pending), t) && Age(t, now) < 1800
      ensures rejected == if now - old(lastCleanup) > TX_EXPIRATION && |old(rejected)| >= MAX_REJECTED_TXS_SIZE then {}
                          else old(rejected)
      ensures lastCleanup == if now - old(lastCleanup) > TX_EXPIRATION then now else old(lastCleanup)
    {
      hide Increasing, ListOk, Indexed, Apart, PricesKept;
      var senders := pending.Keys;
      while senders != {}
        invariant Valid() && rejected == old(rejected) && lastCleanup == old(lastCleanup)
        invariant forall t :: Holds(pending, t) <==>
                    Holds(old(pending), t) && (Fresh(t, now) || t.sender.value in senders)
        decreases senders
      {
        hide Holds;
        var a :| a in senders;
        Sift(a, FreshAt(now));
        senders := senders - {a};
      }
      FewerKeepsPrices(old(pending), old(allTxs), pending, allTxs);
      if now - lastCleanup > TX_EXPIRATION {
        PruneRejected();
        lastCleanup := now;
      }
    }

    /** The memory of rejected hashes is reset when full. */
    method PruneRejected()
      requires Valid()
      modifies this`rejected
      ensures Valid() && rejected == if |old(rejected)| >= 10000 then {} else old(rejected)
    {
      if |rejected| >= MAX_REJECTED_TXS_SIZE {
        rejected := {};
      }
    }

    /** Exactly the listed transactions go; those that are not pooled are ignored. */
    method RemoveTransactions(txs: seq<Tx>)
      requires Valid()
      modifies this`pending, this`allTxs
      ensures Valid() && PricesKept(old(pending), pending)
      ensures forall t :: Holds(pending, t) <==> Holds(old(pending), t) && t !in txs
    {
      hide Increasing, ListOk, Indexed, Apart, PricesKept, Holds;
      var i := 0;
      while i < |txs|
        invariant i <= |txs| && Valid()
        invariant forall t :: Holds(pending, t) <==> Holds(old(pending), t) && t !in txs[..i]
      {
        if txs[i] in allTxs {
          Drop(txs[i]);
        } else {
          NotIndexed(pending, allTxs, txs[i]);
        }
        assert txs[..i + 1] == txs[..i] + [txs[i]];
        i := i + 1;
      }
      assert txs[..i] == txs;
      FewerKeepsPrices(old(pending), old(allTxs), pending, allTxs);
    }

    /** Takes one transaction out of its sender's list and out of the index. */
    method Drop(tx: Tx)
      requires Valid() && tx in allTxs
      modifies this`pending, this`allTxs
      ensures Valid() && Without(old(pending), pending, tx)
    {
      hide Increasing, ListOk, Indexed, Apart, Without;
      IndexedHasSender(pending, allTxs, tx);
      if tx.sender.Some? {
        var from := tx.sender.value;
        var l := ListOf(pending, from);
        var i := FindTx(l, tx);
        DropFromList(pending, allTxs, tx, i);
        if i < |l| {
          pending := pending[from := l[..i] + l[i + 1..]];
        }
        if |ListOf(pending, from)| == 0 {
          pending := pending - {from};
        }
        assert pending == WithList(old(pending), from, l[..i] + l[i + 1..]);
      }
      allTxs := allTxs - {tx};
      ApartShrinks(rejected, old(allTxs), allTxs);
    }

    /** Exactly the sender's transactions below the nonce go, and the nonce is remembered. */
    method UpdateNonce(a: Address, nonce: U64)
      requires Valid()
      modifies this`pending, this`allTxs, this`nonceCache
      ensures Valid() && PricesKept(old(pending), pending)
      ensures nonceCache == old(nonceCache)[a := nonce]
      ensures forall t :: Holds(pending, t) <==> Holds(old(pending), t) && (t.sender == Some(a) ==> t.nonce >= nonce)
    {
      nonceCache := nonceCache[a := nonce];
      Sift(a, NonceFrom(nonce));
      FewerKeepsPrices(old(pending), old(allTxs), pending, allTxs);
    }

    /** Nothing stays pooled, and what was rejected stays rejected. */
    method Clear()
      requires Valid()
      modifies this`pending, this`allTxs
      ensures Valid() && PricesKept(old(pending), pending) && forall t :: !Holds(pending, t)
    {
      pending, allTxs := map[], map[];
      FewerKeepsPrices(old(pending), old(allTxs), pending, allTxs);
    }

    method Perform(op: Op)
      requires Valid()
      modifies this
      ensures Valid() && Step(blockGasLimit, old(Now()), op, Now())
    {
      hide Increasing, ListOk, Indexed, Apart, PricesKept, Holds, Outbids, ValidateTransaction, TooFarInFuture;
      match op {
        case Add(tx, now) =>
          ValidIffSound(tx, blockGasLimit);
          var _ := AddTransaction(tx, now);
        case Remove(txs) => RemoveTransactions(txs);
        case Expire(now) => RemoveStale(now);
        case SetNonce(a, nonce) => UpdateNonce(a, nonce);
        case Reset => Clear();
      }
    }

    /** Any sequence of operations is a run: every state on the way meets the invariant, and each
        follows from the one before it by its operation. */
    method Replay(ops: seq<Op>) returns (ghost run: seq<State>)
      requires Valid()
      modifies this
      ensures IsRun(blockGasLimit, run, ops)
      ensures run[0] == old(Now()) && run[|ops|] == Now()
    {
      hide StateOk, Step;
      run := [Now()];
      for i := 0 to |ops|
        invariant |run| == i + 1 && run[0] == old(Now()) && run[i] == Now()
        invariant forall k :: 0 <= k <= i ==> StateOk(run[k])
        invariant forall k :: 0 <= k < i ==> Step(blockGasLimit, run[k], ops[k], run[k + 1])
      {
        Perform(ops[i]);
        run := run + [Now()];
      }
    }
  }

  // ---------------------------------------------------------------------------
  // Runs
  // ---------------------------------------------------------------------------

  datatype Op = Add(tx: Tx, now: int) | Remove(txs: seq<Tx>) | Expire(now: int)
              | SetNonce(a: Address, nonce: U64) | Reset

  datatype State = State(pending: Pending, all: Index, rejected: set<Hash>, nonceCache: map<Address, U64>,
                         lastCleanup: int)

  /** The index is exact, every list non-empty and in order, the size within the maximum, and no
      hash both rejected and pooled. */
  ghost predicate StateOk(s: State)
  {
    Indexed(s.pending, s.all) && |s.all| <= MAX_TX_POOL_SIZE && Apart(s.rejected, s.all)
  }

  /** A new transaction that gets into the pool. */
  ghost predicate Accepts(limit: U64, s: State, tx: Tx, now: int)
  {
    && tx !in s.all && tx !in s.rejected && Sound(tx, limit)
    && |s.all| < MAX_TX_POOL_SIZE && Age(tx, now) >= -MAX_FUTURE_TIME_DRIFT && Outbids(s.pending, tx)
  }

  ghost function RejectedAfter(limit: U64, s: State, tx: Tx, now: int): set<Hash>
  {
    if tx in s.all || tx in s.rejected then s.rejected
    else if !Sound(tx, limit) then Remembered(s.rejected, tx)
    else if |s.all| < MAX_TX_POOL_SIZE && Age(tx, now) < -MAX_FUTURE_TIME_DRIFT then s.rejected + {tx}
    else s.rejected
  }

  ghost predicate PooledAfter(limit: U64, s: State, op: Op, t: Tx)
  {
    match op
    case Add(tx, now) =>
      if Accepts(limit, s, tx, now) then (Holds(s.pending, t) && !SameSlot(t, tx)) || t == tx else Holds(s.pending, t)
    case Remove(txs) => Holds(s.pending, t) && t !in txs
    case Expire(now) => Holds(s.pending, t) && Age(t, now) < TX_EXPIRATION
    case SetNonce(a, nonce) => Holds(s.pending, t) && (t.sender == Some(a) ==> t.nonce >= nonce)
    case Reset => false
  }

  /** What an operation does: exactly which transactions are pooled after it, and the rest of
      the state. */
  ghost predicate Step(limit: U64, s: State, op: Op, s': State)
  {
    && (forall t :: Holds(s'.pending, t) <==> PooledAfter(limit, s, op, t))
    && s'.rejected ==
         (match op
          case Add(tx, now) => RejectedAfter(limit, s, tx, now)
          case Expire(now) =>
            if now - s.lastCleanup > TX_EXPIRATION && |s.rejected| >= MAX_REJECTED_TXS_SIZE then {} else s.rejected
          case _ => s.rejected)
    && s'.nonceCache == (if op.SetNonce? then s.nonceCache[op.a := op.nonce] else s.nonceCache)
    && s'.lastCleanup == (if op.Expire? && op.now - s.lastCleanup > TX_EXPIRATION then op.now else s.lastCleanup)
  }

  ghost predicate IsRun(limit: U64, run: seq<State>, ops: seq<Op>)
  {
    && |run| == |ops| + 1
    && (forall i :: 0 <= i <= |ops| ==> StateOk(run[i]))
    && forall i :: 0 <= i < |ops| ==> Step(limit, run[i], ops[i], run[i + 1])
  }

  ghost predicate Occupied(pending: Pending, a: Address, nonce: U64) { exists p: int :: Offers(pending, a, nonce, p) }

  /** The operation determines the pool: the lists, and the index with them. */
  lemma StepIsDeterministic(limit: U64, s: State, op: Op, s': State, s'': State)
    requires StateOk(s') && StateOk(s'') && Step(limit, s, op, s') && Step(limit, s, op, s'')
    ensures s' == s''
  {
    hide PooledAfter, Increasing, ListOk;
    forall t
      ensures Holds(s'.pending, t) <==> Holds(s''.pending, t)
    {
    }
    SameHeld(s'.pending, s'.all, s''.pending, s''.all);
  }

  lemma SameHeld(pending: Pending, all: Index, pending': Pending, all': Index)
    requires Indexed(pending, all) && Indexed(pending', all')
    requires forall t :: Holds(pending, t) <==> Holds(pending', t)
    ensures pending == pending' && all == all'
  {
    hide Increasing;
    assert all.Keys == all'.Keys;
    forall a: Address
      ensures ListOf(pending, a) == ListOf(pending', a)
    {
      SameLists(pending, all, pending', all', a);
    }
    hide ListOk, Holds;
    forall a: Address
      ensures a in pending <==> a in pending'
    {
      assert ListOf(pending, a) == ListOf(pending', a);
    }
    assert pending.Keys == pending'.Keys;
    forall a | a in pending
      ensures pending[a] == pending'[a]
    {
      assert ListOf(pending, a) == ListOf(pending', a);
    }
  }

  lemma SameLists(pending: Pending, all: Index, pending': Pending, all': Index, a: Address)
    requires Indexed(pending, all) && Indexed(pending', all')
    requires forall t :: Holds(pending, t) <==> Holds(pending', t)
    ensures ListOf(pending, a) == ListOf(pending', a)
  {
    var l, l' := ListOf(pending, a), ListOf(pending', a);
    IndexedList(pending, all, a);
    IndexedList(pending', all', a);
    hide Increasing, ListOk;
    forall t
      ensures t in l <==> t in l'
    {
      if t in l {
        SenderOf(pending, all, a, t);
      }
      if t in l' {
        SenderOf(pending', all', a, t);
      }
    }
    SameMembersSameList(a, l, l');
  }

  /** A list in strictly increasing order is determined by its members. */
  lemma {:induction false} SameMembersSameList(a: Address, l: seq<Tx>, l': seq<Tx>)
    requires ListOk(a, l) && ListOk(a, l') && forall t :: t in l <==> t in l'
    ensures l == l'
    decreases |l|
  {
    if l' != [] {
      assert l'[0] in l;
    }
    if l != [] {
      var n := |l| - 1;
      assert l[n] in l';
      var m := |l'| - 1;
      assert l'[m] in l;
      assert l[n] == l'[m];
      DropElement(a, l, n);
      DropElement(a, l', m);
      assert l[..n] + l[n + 1..] == l[..n];
      assert l'[..m] + l'[m + 1..] == l'[..m];
      hide ListOk;
      forall t
        ensures t in l[..n] <==> t in l'[..m]
      {
        assert t in l[..n] <==> t in l && t != l[n];
        assert t in l'[..m] <==> t in l' && t != l'[m];
      }
      SameMembersSameList(a, l[..n], l'[..m]);
    }
  }

  /** Over any run that starts with sound transactions only, an empty pool say, every pooled
      transaction is sound. */
  lemma {:induction false} RunKeepsSound(limit: U64, run: seq<State>, ops: seq<Op>, i: nat, t: Tx)
    requires IsRun(limit, run, ops) && i < |run| && Holds(run[i].pending, t)
    requires forall u :: Holds(run[0].pending, u) ==> Sound(u, limit)
    ensures Sound(t, limit)
  {
    hide Holds, Sound, Outbids, StateOk;
    if i > 0 {
      assert Step(limit, run[i - 1], ops[i - 1], run[i]);
      assert PooledAfter(limit, run[i - 1], ops[i - 1], t);
      if Holds(run[i - 1].pending, t) {
        RunKeepsSound(limit, run, ops, i - 1, t);
      }
    }
  }

  /** No operation lowers the price of a slot that it leaves occupied. */
  lemma StepKeepsPrices(limit: U64, s: State, op: Op, s': State)
    requires StateOk(s) && StateOk(s') && Step(limit, s, op, s')
    ensures PricesKept(s.pending, s'.pending)
  {
    hide Increasing, ListOk, Indexed, Holds, PricesKept, Outbids;
    if op.Add? && Accepts(limit, s, op.tx, op.now) {
      OutbidKeepsPrices(s.pending, s.all, s'.pending, s'.all, op.tx);
    } else {
      FewerKeepsPrices(s.pending, s.all, s'.pending, s'.all);
    }
  }

  /** In every run, while a slot stays occupied its price never drops. */
  lemma {:induction false} PriceNeverDrops(limit: U64, run: seq<State>, ops: seq<Op>, i: nat, j: nat,
                                           a: Address, n: U64, p: int, p': int)
    requires IsRun(limit, run, ops) && i < j < |run|
    requires forall k :: i <= k <= j ==> Occupied(run[k].pending, a, n)
    requires Offers(run[i].pending, a, n, p) && Offers(run[j].pending, a, n, p')
    ensures p <= p'
    decreases j
  {
    hide StateOk, Step, Offers;
    StepKeepsPrices(limit, run[j - 1], ops[j - 1], run[j]);
    if i < j - 1 {
      assert Occupied(run[j - 1].pending, a, n);
      var q: int :| Offers(run[j - 1].pending, a, n, q);
      PriceNeverDrops(limit, run, ops, i, j - 1, a, n, p, q);
    }
  }

  // ---------------------------------------------------------------------------
  // One list changes
  // ---------------------------------------------------------------------------

  /** The index without the transactions of the list that are not to be kept. */
  ghost predicate Sifted(all: Index, l: seq<Tx>, rule: Rule, all': Index)
  {
    && |all'| <= |all| && (forall h :: h in all' ==> h in all && all'[h] == h)
    && forall t :: t in all' <==> t in all && (t in l ==> Keeps(rule, t))
  }

  /** What the first `i` entries of the list leave. */
  ghost predicate SiftedList(a: Address, l: seq<Tx>, i: nat, rule: Rule, kept: seq<Tx>)
    requires i <= |l|
  {
    && ListOk(a, kept)
    && (forall t :: t in kept <==> t in l[..i] && Keeps(rule, t))
  }

  lemma SiftStart(all: Index, a: Address, l: seq<Tx>, rule: Rule)
    requires forall h :: h in all ==> all[h] == h
    ensures Sifted(all, l[..0], rule, all) && SiftedList(a, l, 0, rule, [])
  {
  }

  lemma SiftOne(all: Index, a: Address, l: seq<Tx>, i: nat, rule: Rule, all': Index, kept: seq<Tx>)
    requires i < |l| && ListOk(a, l) && Sifted(all, l[..i], rule, all') && SiftedList(a, l, i, rule, kept)
    ensures Keeps(rule, l[i]) ==> Sifted(all, l[..i + 1], rule, all') && SiftedList(a, l, i + 1, rule, kept + [l[i]])
    ensures !Keeps(rule, l[i]) ==> Sifted(all, l[..i + 1], rule, all' - {l[i]}) && SiftedList(a, l, i + 1, rule, kept)
  {
    hide Increasing, ListOk;
    assert l[..i + 1] == l[..i] + [l[i]];
    if Keeps(rule, l[i]) {
      SiftKeeps(a, l, i, rule, kept);
    } else {
      SiftDrops(all, l, i, rule, all');
    }
  }

  lemma SiftDrops(all: Index, l: seq<Tx>, i: nat, rule: Rule, all': Index)
    requires i < |l| && Sifted(all, l[..i], rule, all') && !Keeps(rule, l[i])
    ensures Sifted(all, l[..i + 1], rule, all' - {l[i]})
  {
    assert l[..i + 1] == l[..i] + [l[i]];
    SmallerMap(all' - {l[i]}, all');
    hide Keeps;
  }

  lemma SiftKeeps(a: Address, l: seq<Tx>, i: nat, rule: Rule, kept: seq<Tx>)
    requires i < |l| && ListOk(a, l) && SiftedList(a, l, i, rule, kept) && Keeps(rule, l[i])
    ensures SiftedList(a, l, i + 1, rule, kept + [l[i]])
  {
    assert l[..i + 1] == l[..i] + [l[i]];
    forall j | 0 <= j < |kept|
      ensures kept[j].nonce < l[i].nonce
    {
      assert kept[j] in l[..i];
    }
  }

  lemma SmallerMap<K, V>(m: map<K, V>, n: map<K, V>)
    requires m.Keys <= n.Keys
    ensures |m| <= |n|
  {
    SubsetSize(m.Keys, n.Keys);
  }

  lemma SiftReplaces(pending: Pending, all: Index, a: Address, rule: Rule, all': Index, kept: seq<Tx>)
    requires var l := ListOf(pending, a);
             Indexed(pending, all) && Sifted(all, l, rule, all') && SiftedList(a, l, |l|, rule, kept)
    ensures var pending' := WithList(pending, a, kept);
            && Indexed(pending', all') && (forall h :: h in all' ==> h in all) && |all'| <= |all|
            && SiftedTo(pending, pending', a, rule)
  {
    var l := ListOf(pending, a);
    assert l[..|l|] == l;
    forall t
      ensures t in l <==> Holds(pending, t) && t.sender == Some(a)
    {
      if t in l {
        SenderOf(pending, all, a, t);
      }
    }
    ReplaceList(pending, all, a, kept, all');
  }

  lemma IndexedList(pending: Pending, all: Index, a: Address)
    requires Indexed(pending, all)
    ensures ListOk(a, ListOf(pending, a)) && forall h :: h in all ==> all[h] == h
  {
  }

  lemma IndexedHasSender(pending: Pending, all: Index, tx: Tx)
    requires Indexed(pending, all) && tx in all
    ensures tx.sender.Some? && tx in ListOf(pending, tx.sender.value)
  {
    assert Holds(pending, tx);
  }

  lemma NotIndexed(pending: Pending, all: Index, tx: Tx)
    requires Indexed(pending, all) && tx !in all
    ensures !Holds(pending, tx)
  {
  }

  lemma DropFromList(pending: Pending, all: Index, tx: Tx, i: nat)
    requires Indexed(pending, all) && tx in all && tx.sender.Some?
    requires var l := ListOf(pending, tx.sender.value);
             i <= |l| && (i < |l| ==> l[i] == tx) && forall j :: 0 <= j < i ==> l[j] != tx
    ensures var a := tx.sender.value;
            var l := ListOf(pending, a);
            && i < |l|
            && var pending', all' := WithList(pending, a, l[..i] + l[i + 1..]), all - {tx};
            && Indexed(pending', all') && |all'| <= |all| && (forall h :: h in all' ==> h in all)
            && Without(pending, pending', tx)
  {
    var a := tx.sender.value;
    var l := ListOf(pending, a);
    hide Increasing, ListOk;
    IndexedList(pending, all, a);
    assert Holds(pending, tx);
    var l', all' := l[..i] + l[i + 1..], all - {tx};
    DropElement(a, l, i);
    forall t
      ensures t in l <==> Holds(pending, t) && t.sender == Some(a)
    {
      if t in l {
        SenderOf(pending, all, a, t);
      }
    }
    ReplaceList(pending, all, a, l', all');
    SmallerMap(all', all);
  }

  lemma DropElement(a: Address, l: seq<Tx>, i: nat)
    requires ListOk(a, l) && i < |l|
    ensures ListOk(a, l[..i] + l[i + 1..])
    ensures forall t :: t in l[..i] + l[i + 1..] <==> t in l && t != l[i]
  {
    var l' := l[..i] + l[i + 1..];
    forall t
      ensures t in l' <==> t in l && t != l[i]
    {
      hide Increasing;
      DropMember(a, l, i, t);
    }
    assert forall j :: 0 <= j < |l'| ==> l'[j] == l[if j < i then j else j + 1];
  }

  lemma DropMember(a: Address, l: seq<Tx>, i: nat, t: Tx)
    requires ListOk(a, l) && i < |l|
    ensures t in l[..i] + l[i + 1..] <==> t in l && t != l[i]
  {
    if t in l && t != l[i] {
      var j :| 0 <= j < |l| && l[j] == t;
      assert j < i ==> l[..i][j] == t;
      assert j > i ==> l[i + 1..][j - i - 1] == t;
    }
  }

  /** The slot's holder is the list entry of that nonce, if there is one. */
  lemma SlotInList(pending: Pending, all: Index, tx: Tx, i: nat)
    requires Indexed(pending, all)
    requires tx.sender.Some?
    requires var l := ListOf(pending, tx.sender.value);
             i <= |l| && (i < |l| ==> l[i].nonce == tx.nonce) && forall j :: 0 <= j < i ==> l[j].nonce != tx.nonce
    ensures var l := ListOf(pending, tx.sender.value);
            && (forall t :: Holds(pending, t) && SameSlot(t, tx) <==> i < |l| && t == l[i])
            && (i < |l| ==> l[i].gasPrice.Some?)
  {
  }

  lemma SwapElements(a: Address, l: seq<Tx>, i: nat, tx: Tx)
    requires ListOk(a, l) && i < |l| && l[i].nonce == tx.nonce && tx.sender == Some(a) && tx.gasPrice.Some?
    ensures ListOk(a, l[i := tx])
    ensures forall t :: t in l[i := tx] <==> (t in l && t != l[i]) || t == tx
  {
    var l' := l[i := tx];
    forall t
      ensures t in l' <==> (t in l && t != l[i]) || t == tx
    {
      if t in l && t != l[i] {
        var j :| 0 <= j < |l| && l[j] == t;
        assert l'[j] == t;
      }
      assert l'[i] == tx;
    }
  }

  lemma SwapInList(pending: Pending, all: Index, tx: Tx, i: nat)
    requires Indexed(pending, all) && tx !in all && tx.sender.Some? && tx.gasPrice.Some?
    requires var l := ListOf(pending, tx.sender.value); i < |l| && l[i].nonce == tx.nonce
    ensures var a := tx.sender.value;
            var l := ListOf(pending, a);
            var pending', all' := pending[a := l[i := tx]], (all - {l[i]})[tx := tx];
            && Indexed(pending', all') && |all'| == |all|
            && forall t :: Holds(pending', t) <==> (Holds(pending, t) && t != l[i]) || t == tx
  {
    var a := tx.sender.value;
    var l := ListOf(pending, a);
    var l', holder := l[i := tx], l[i];
    var all' := (all - {holder})[tx := tx];
    SwapElements(a, l, i, tx);
    hide ListOk;
    assert Holds(pending, holder) by {
      SenderOf(pending, all, a, holder);
    }
    forall t | t in l
      ensures t in all
    {
      SenderOf(pending, all, a, t);
    }
    ReplaceList(pending, all, a, l', all');
    assert all.Keys == (all'.Keys - {tx}) + {holder};
  }

  lemma SenderOf(pending: Pending, all: Index, a: Address, t: Tx)
    requires Indexed(pending, all) && t in ListOf(pending, a)
    ensures t.sender == Some(a) && Holds(pending, t)
  {
  }

  lemma MapGrows<K, V>(m: map<K, V>, k: K, v: V)
    requires k !in m
    ensures |m[k := v]| == |m| + 1
  {
    assert m[k := v].Keys == m.Keys + {k};
  }

  lemma AddToList(pending: Pending, all: Index, tx: Tx)
    requires Indexed(pending, all) && tx !in all && tx.sender.Some? && tx.gasPrice.Some?
    requires var l := ListOf(pending, tx.sender.value);
             forall j :: 0 <= j < |l| ==> l[j].nonce != tx.nonce
    ensures var a := tx.sender.value;
            var pending', all' := pending[a := SortByNonce(ListOf(pending, a) + [tx])], all[tx := tx];
            && Indexed(pending', all') && |all'| == |all| + 1
            && forall t :: Holds(pending', t) <==> Holds(pending, t) || t == tx
  {
    var a := tx.sender.value;
    var l := ListOf(pending, a);
    var l', all' := SortByNonce(l + [tx]), all[tx := tx];
    SortAppended(a, l, tx);
    hide ListOk, SortByNonce;
    forall t | t in l
      ensures t in all
    {
      SenderOf(pending, all, a, t);
    }
    assert tx in l';
    forall t
      ensures t in all' <==> (t in all && t !in l) || t in l'
    {
    }
    ReplaceList(pending, all, a, l', all');
    MapGrows(all, tx, tx);
  }
}
