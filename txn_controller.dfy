/**
 * The three transaction request handlers of the block explorer: the
 * confirmed listing (`/txs`), the lookup by hash (`/tx/{txHash}`) and the
 * pending listing (`/txsPending`). Each returns the attributes it puts in
 * the view model as a result record instead of rendering a template.
 */
module TxnController {
  import opened Wrappers
  import opened Domain
  import opened Paging

  /** The filter dimension of a listing; `Name` is the `type` attribute the view receives. */
  datatype Scope = Block | Address | Total
  {
    function Name(): (n: string)
      ensures n in {"block", "address", "total"}
      ensures (n == "block") == Block? && (n == "address") == Address?
    {
      match this
      case Block => "block"
      case Address => "address"
      case Total => "total"
    }
  }

  /** `StringUtils.isEmpty`: null or the empty string. */
  predicate IsEmpty(s: Str)
    ensures IsEmpty(s) <==> s == None || s == Some("")
  {
    s.None? || |s.value| == 0
  }

  /**
   * `StringUtils.isNoneEmpty` over its varargs array: true when no
   * element is empty. The controller only ever passes one element.
   */
  predicate IsNoneEmpty(css: seq<Str>)
    ensures IsNoneEmpty(css) <==> forall i :: 0 <= i < |css| ==> !IsEmpty(css[i])
  {
    if css == [] then true
    else !IsEmpty(css[0]) && IsNoneEmpty(css[1..])
  }

  /**
   * A single `String` argument, null included, is wrapped into a
   * one-element array, so `isNoneEmpty(address)` is exactly
   * `!isEmpty(address)`.
   */
  lemma NoneEmptyOfOne(s: Str)
    ensures IsNoneEmpty([s]) <==> !IsEmpty(s)
  {
  }

  /**
   * Scope of the confirmed listing: a block height, when given, wins over
   * the address; otherwise a non-empty address; otherwise everything.
   */
  function TxsScope(block: Option<int>, address: Str): (s: Scope)
    ensures s == Block <==> block.Some?
    ensures s == Address <==> block.None? && !IsEmpty(address)
    ensures s == Total <==> block.None? && IsEmpty(address)
  {
    if block.Some? then Block
    else if IsNoneEmpty([address]) then Address
    else Total
  }

  /** Scope of the pending listing: there is no block scope. */
  function PendingScope(address: Str): (s: Scope)
    ensures s != Block
    ensures s == Address <==> !IsEmpty(address)
  {
    if IsEmpty(address) then Total else Address
  }

  /**
   * Every sender and receiver of a page of transactions, nulls and empty
   * strings included.
   */
  function Participants(txns: seq<Transaction>): set<Str>
  {
    if txns == [] then {}
    else Participants(txns[..|txns| - 1]) + {txns[|txns| - 1].from, txns[|txns| - 1].to}
  }

  predicate Distinct(q: seq<Str>)
  {
    forall i, j :: 0 <= i < j < |q| ==> q[i] != q[j]
  }

  /** What the confirmed listing hands to its view. */
  datatype TxsView = TxsView(
    scope: Scope,
    blkHeight: Option<int>,       // set only in the block scope
    addressHash: Str,             // set only in the address scope
    txnCnt: int,
    txnList: seq<Transaction>,
    addressQuery: seq<Str>,       // the list sent to the address service
    addressMap: map<Str, AddressInfo>,
    currentPage: int,
    totalPage: int)

  /** What the lookup by hash hands to its view. */
  datatype TxView = TxView(
    txn: Transaction,
    pending: bool,                // the `pending` attribute; false when absent
    addressQuery: seq<Str>,
    addressMap: map<Str, AddressInfo>)

  /** What the pending listing hands to its view; it has no address map. */
  datatype PendingView = PendingView(
    scope: Scope,
    addressHash: Str,             // set only in the address scope
    address: Str,                 // the request parameter, echoed as given
    txnTotalCnt: int,
    currentPage: int,
    txnTotalPage: int,
    pendingTxnList: seq<PendingTransaction>)

  datatype Error = NotFound(message: string)

  /**
   * Walks the page and inserts the `from` and then the `to` of every
   * transaction into a set.
   */
  method CollectAddresses(txns: seq<Transaction>) returns (s: set<Str>)
    ensures s == Participants(txns)
    ensures forall a :: a in s <==> exists i :: 0 <= i < |txns| && (txns[i].from == a || txns[i].to == a)
  {
    s := {};
    for i := 0 to |txns|
      invariant s == Participants(txns[..i])
    {
      s := s + {txns[i].from};
      s := s + {txns[i].to};
      assert txns[..i + 1][..i] == txns[..i];
    }
    assert txns[..|txns|] == txns;
    ParticipantsMembership(txns);
  }

  /**
   * A list holding each element of a set once, in an unspecified order
   * (`Lists.newArrayList` over a hash set).
   */
  method ListOfSet(s: set<Str>) returns (q: seq<Str>)
    ensures |q| == |s|
    ensures forall a :: a in q <==> a in s
    ensures Distinct(q)
  {
    q := [];
    var rest := s;
    while rest != {}
      invariant rest <= s
      invariant forall a :: a in q <==> a in s && a !in rest
      invariant Distinct(q)
      invariant |q| + |rest| == |s|
      decreases |rest|
    {
      var a :| a in rest;
      q := q + [a];
      rest := rest - {a};
    }
  }

  /**
   * The confirmed listing. The page is clamped from above, the scope is
   * classified, the count and the page are fetched with the raw block and
   * address, and the distinct participants of the returned page are
   * resolved in one call.
   */
  method Txs(store: TxnStore, addresses: AddressService, block: Option<int>, address: Str, page: int)
    returns (r: TxsView)
    ensures r.scope == TxsScope(block, address)
    ensures r.blkHeight == (if r.scope == Block then block else None)
    ensures r.addressHash == (if r.scope == Address then address else None)
    ensures r.currentPage == ClampPage(page)
    ensures r.txnCnt == store.countTxnCnt(block, address)
    ensures r.txnList == store.findTxnByCondition(block, address, r.currentPage, PAGE_SIZE)
    ensures r.totalPage == TotalPages(r.txnCnt)
    ensures forall a :: a in r.addressQuery <==> a in Participants(r.txnList)
    ensures Distinct(r.addressQuery) && |r.addressQuery| == |Participants(r.txnList)|
    ensures r.addressMap == addresses.findAddressMapByAddressHash(r.addressQuery)
    ensures ResolvesOnlyRequested(addresses) ==> r.addressMap.Keys <= Participants(r.txnList)
  {
    var p := page;
    if p > MAX_PAGE {
      p := MAX_PAGE;
    }

    var scope: Scope;
    var blkHeight: Option<int> := None;
    var addressHash: Str := None;
    if block.Some? {
      scope := Block;
      blkHeight := block;
    } else if IsNoneEmpty([address]) {
      scope := Address;
      addressHash := address;
    } else {
      scope := Total;
    }

    var txnCnt := store.countTxnCnt(block, address);
    var txnList := store.findTxnByCondition(block, address, p, PAGE_SIZE);

    var addressHashSet := CollectAddresses(txnList);
    var query := ListOfSet(addressHashSet);
    var addressMap := addresses.findAddressMapByAddressHash(query);

    r := TxsView(scope, blkHeight, addressHash, txnCnt, txnList, query, addressMap,
                 p, TruncDiv(txnCnt, PAGE_SIZE) + 1);
  }

  /**
   * The lookup by hash. The confirmed store is asked first; only on a miss
   * is the pending store asked, and a pending hit is turned into a fresh
   * confirmed-shaped record with the shared fields copied, the status
   * forced to PENDING and the `pending` flag raised. A miss in both
   * stores is NotFound.
   */
  method Tx(store: TxnStore, addresses: AddressService, txHash: string)
    returns (r: Result<TxView, Error>)
    ensures store.transactionByHash(txHash).Some? ==>
              r.Success? && r.value.txn == store.transactionByHash(txHash).value && !r.value.pending
    ensures store.transactionByHash(txHash).None? && store.pendingTransactionByHash(txHash).Some? ==>
              && r.Success? && r.value.pending
              && SharedOf(r.value.txn) == store.pendingTransactionByHash(txHash).value
              && r.value.txn.status == Some(Pending)
              && r.value.txn.blockHash.None? && r.value.txn.blockHeight.None? && r.value.txn.gasUsed.None?
    ensures r.Failure? <==> store.transactionByHash(txHash).None? && store.pendingTransactionByHash(txHash).None?
    ensures r.Failure? ==> r.error.NotFound?
    ensures r.Success? ==> && r.value.addressQuery == [r.value.txn.from, r.value.txn.to]
                           && r.value.addressMap == addresses.findAddressMapByAddressHash(r.value.addressQuery)
    ensures r.Success? && ResolvesOnlyRequested(addresses) ==>
              r.value.addressMap.Keys <= {r.value.txn.from, r.value.txn.to}
  {
    var txn := store.transactionByHash(txHash);
    var pending := false;
    if txn.None? {
      var pendingTxn := store.pendingTransactionByHash(txHash);
      if pendingTxn.Some? {
        var t := NewTransaction();
        t := CopyProperties(t, pendingTxn.value);
        t := t.(status := Some(Pending));
        txn := Some(t);
        pending := true;
      }
    }
    if txn.None? {
      return Failure(NotFound("neb transaction not found"));
    }

    var query := [txn.value.from, txn.value.to];
    var addressMap := addresses.findAddressMapByAddressHash(query);
    assert (set a | a in query) == {txn.value.from, txn.value.to};
    r := Success(TxView(txn.value, pending, query, addressMap));
  }

  /**
   * The pending listing: address or total scope only, the page passed on
   * and echoed without any clamp, the same page-count formula, and no
   * address map.
   */
  function TxsPending(store: TxnStore, address: Str, page: int): (r: PendingView)
    ensures r.scope != Block
    ensures r.scope == Address <==> !IsEmpty(address)
    ensures r.addressHash == (if r.scope == Address then address else None)
    ensures r.address == address
    ensures r.currentPage == page
    ensures r.txnTotalCnt == store.countPendingTxnCnt(address)
    ensures r.pendingTxnList == store.findPendingTxnByCondition(address, page, PAGE_SIZE)
    ensures r.txnTotalPage == TotalPages(r.txnTotalCnt)
  {
    var scope := PendingScope(address);
    var cnt := store.countPendingTxnCnt(address);
    PendingView(scope, if scope == Address then address else None, address, cnt, page,
                TotalPages(cnt), store.findPendingTxnByCondition(address, page, PAGE_SIZE))
  }

  /** An address is a participant exactly when it is the sender or the receiver of some row. */
  lemma {:induction false} ParticipantsMembership(txns: seq<Transaction>)
    ensures forall a :: a in Participants(txns) <==>
                        exists i :: 0 <= i < |txns| && (txns[i].from == a || txns[i].to == a)
  {
    if txns != [] {
      var init := txns[..|txns| - 1];
      ParticipantsMembership(init);
      forall a
        ensures a in Participants(txns) <==>
                exists i :: 0 <= i < |txns| && (txns[i].from == a || txns[i].to == a)
      {
        if a in Participants(init) {
          var i :| 0 <= i < |init| && (init[i].from == a || init[i].to == a);
          assert txns[i] == init[i];
        }
        if exists i :: 0 <= i < |txns| && (txns[i].from == a || txns[i].to == a) {
          var i :| 0 <= i < |txns| && (txns[i].from == a || txns[i].to == a);
          if i < |init| {
            assert init[i] == txns[i];
          }
        }
      }
    }
  }

  /** The participants of two pages together are the union of each page's. */
  lemma {:induction false} ParticipantsAppend(xs: seq<Transaction>, ys: seq<Transaction>)
    ensures Participants(xs + ys) == Participants(xs) + Participants(ys)
  {
    if ys == [] {
      assert xs + ys == xs;
    } else {
      var init := ys[..|ys| - 1];
      assert (xs + ys)[..|xs + ys| - 1] == xs + init;
      ParticipantsAppend(xs, init);
    }
  }

  /** The set has no duplicates, so it holds at most two addresses per row. */
  lemma {:induction false} ParticipantsBound(txns: seq<Transaction>)
    ensures |Participants(txns)| <= 2 * |txns|
  {
    if txns != [] {
      var init := txns[..|txns| - 1];
      ParticipantsBound(init);
      var last := txns[|txns| - 1];
      assert Participants(txns) == Participants(init) + {last.from, last.to};
      assert |{last.from, last.to}| <= 2;
    }
  }

  /** Without a block height the two listings classify an address alike. */
  lemma PendingScopeAgreesWithTxs(address: Str)
    ensures PendingScope(address) == TxsScope(None, address)
  {
  }

  /**
   * The two listings hand the store and the view the same page exactly
   * when the request is at most MAX_PAGE: only the confirmed listing
   * clamps.
   */
  lemma PendingPageMatchesTxsIffUnclamped(store: TxnStore, address: Str, page: int)
    ensures TxsPending(store, address, page).currentPage == ClampPage(page) <==> page <= MAX_PAGE
  {
  }
}
