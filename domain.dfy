/**
 * The records the controller handles and the collaborators it calls.
 * Every reference-typed Java field is nullable, so it is an Option here.
 */
module Domain {
  import opened Wrappers

  /** A Java `String`: None is `null`. */
  type Str = Option<string>

  /** Lifecycle of a transaction; the enum's integer encoding is not modelled. */
  datatype TxStatus = Failed | Succeeded | Pending

  /** A confirmed transaction record (and the shape of the unified view). */
  datatype Transaction = Transaction(
    hash: Str,
    from: Str,
    to: Str,
    value: Str,
    nonce: Option<int>,
    timestamp: Option<int>,
    gasPrice: Str,
    gasLimit: Str,
    data: Str,
    // fields a pending record does not have
    blockHash: Str,
    blockHeight: Option<int>,
    gasUsed: Str,
    status: Option<TxStatus>)

  /** A pending transaction record: the fields it shares with a confirmed one. */
  datatype PendingTransaction = PendingTransaction(
    hash: Str,
    from: Str,
    to: Str,
    value: Str,
    nonce: Option<int>,
    timestamp: Option<int>,
    gasPrice: Str,
    gasLimit: Str,
    data: Str)

  /** Address metadata, opaque to the controller. */
  datatype AddressInfo = AddressInfo(hash: Str, detail: string)

  /**
   * The transaction service, as the oracles the controller calls: counts
   * and pages filtered by the optional block height and address, and
   * lookups by hash that may miss. The filtering itself is not modelled.
   */
  datatype TxnStore = TxnStore(
    countTxnCnt: (Option<int>, Str) -> int,
    findTxnByCondition: (Option<int>, Str, int, int) -> seq<Transaction>,
    transactionByHash: string -> Option<Transaction>,
    countPendingTxnCnt: Str -> int,
    findPendingTxnByCondition: (Str, int, int) -> seq<PendingTransaction>,
    pendingTransactionByHash: string -> Option<PendingTransaction>)

  /** The address service: resolves a list of addresses to their metadata. */
  datatype AddressService = AddressService(
    findAddressMapByAddressHash: seq<Str> -> map<Str, AddressInfo>)

  /**
   * The address service never invents entries: every key of the map it
   * returns was in the list it was given.
   */
  ghost predicate ResolvesOnlyRequested(svc: AddressService)
  {
    forall q: seq<Str> :: svc.findAddressMapByAddressHash(q).Keys <= set a | a in q
  }

  /** A freshly allocated record: every field still `null`. */
  function NewTransaction(): (t: Transaction)
    ensures t.hash.None? && t.from.None? && t.to.None? && t.value.None?
    ensures t.nonce.None? && t.timestamp.None? && t.gasPrice.None?
    ensures t.gasLimit.None? && t.data.None?
    ensures t.blockHash.None? && t.blockHeight.None? && t.gasUsed.None? && t.status.None?
  {
    Transaction(None, None, None, None, None, None, None, None, None, None, None, None, None)
  }

  /** The fields of a confirmed record that a pending record also has. */
  function SharedOf(t: Transaction): PendingTransaction
  {
    PendingTransaction(t.hash, t.from, t.to, t.value, t.nonce, t.timestamp,
                       t.gasPrice, t.gasLimit, t.data)
  }

  /**
   * Bean-property copy from a pending record onto a confirmed one: every
   * property the two share is overwritten from `src`, the others keep
   * their value in `dest`.
   */
  function CopyProperties(dest: Transaction, src: PendingTransaction): (t: Transaction)
    ensures SharedOf(t) == src
    ensures t.blockHash == dest.blockHash && t.blockHeight == dest.blockHeight
    ensures t.gasUsed == dest.gasUsed && t.status == dest.status
  {
    dest.(hash := src.hash, from := src.from, to := src.to, value := src.value,
          nonce := src.nonce, timestamp := src.timestamp, gasPrice := src.gasPrice,
          gasLimit := src.gasLimit, data := src.data)
  }
}
