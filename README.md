# Transaction request handlers of the Nebulas block explorer

This project models the decision logic of the explorer's `TxnController`, which handles three requests:

- **`/txs`**: the listing of confirmed transactions. It clamps the requested page from above at 20. It classifies the query as `block`, `address` or `total`, and a block height wins over an address. It fetches a count and one page of 25 rows. It collects the distinct senders and receivers of that page into a set and resolves them in one call to the address service. It reports `count / 25 + 1` pages.
- **`/tx/{txHash}`**: the lookup by hash. The confirmed store is asked first. On a miss, the pending store is asked. A pending hit becomes a fresh confirmed-shaped record with the shared fields copied, the status forced to PENDING and a `pending` flag raised. A miss in both stores throws NotFound. The `from` and `to` of the result are resolved by the address service.
- **`/txsPending`**: the listing of pending transactions. Its only scopes are `address` and `total`. It does not clamp the page. It uses the same page-count formula. It builds no address map.

Each handler returns the attributes it would put into the view model as a result record:
- `Txs` returns a `TxsView`.
- `Tx` returns a `Result<TxView, Error>`.
- `TxsPending` returns a `PendingView`.

The services are modelled as oracles, meaning datatypes whose fields are functions:
- `TxnStore` holds the count and page queries and the two lookups by hash.
- `AddressService` holds the map lookup.

A Java `null` is `None`: every nullable field and parameter is an `Option`. The lookup hash `txHash` is a plain `string` because a path variable is never null.

Files:
- `wrappers.dfy`: `Option` and `Result`.
- `domain.dfy`: the transaction records, the service oracles, and the field-by-field property copy.
- `paging.dfy`: the page size, the page clamp, Java's truncating division and the page count.
- `txn_controller.dfy`: the scope classification, the address collection and the three handlers.

Page handling, as the code does it:
- The confirmed listing has no lower bound on the page: `ClampPage` leaves zero and negative pages unchanged (`TxnController.java:58-60`).
- The pending listing never clamps its page: it passes it on and echoes it as requested (`TxnController.java:141,146`).
- `txnCnt / PAGE_SIZE` is Java `long` division, which rounds toward zero. `TruncDiv` writes this out. It agrees with Dafny's Euclidean `/` for every non-negative count and for negative multiples of 25. On any other negative count it is one higher (`TruncDivVersusEuclidean`; `TotalPagesExamples` shows -1).

## Model

| member | source | states |
|---|---|---|
| `Paging.ClampPage` | explorer/src/main/java/io/nebulas/explorer/controller/TxnController.java:58-60 | the page used is at most 20; a page of 20 or less (zero and negatives included) is kept; a larger one becomes 20 |
| `Paging.ClampIsMin` | explorer/src/main/java/io/nebulas/explorer/controller/TxnController.java:58-60 | the clamp never raises a page, and it changes the page exactly when the page exceeds 20 |
| `Paging.TruncDiv` | explorer/src/main/java/io/nebulas/explorer/controller/TxnController.java:90 | Java integer division: for a non-negative dividend the quotient rounds down, for a negative one it rounds up (toward zero) |
| `Paging.TruncDivVersusEuclidean` | explorer/src/main/java/io/nebulas/explorer/controller/TxnController.java:90 | Java's quotient by 25 equals Dafny's Euclidean one exactly for non-negative counts and negative multiples of 25, and is one higher on every other negative count |
| `Paging.TotalPages` | explorer/src/main/java/io/nebulas/explorer/controller/TxnController.java:90 | for a count of 0 or more the result is at least 1 and the 0-based position `cnt`, one past the last row, falls on the last page; for a negative count it is at most 1, rounded toward zero |
| `Paging.TotalPagesOfNonNegative` | explorer/src/main/java/io/nebulas/explorer/controller/TxnController.java:147 | for a count of 0 or more the Java formula equals `cnt / 25 + 1` with Euclidean (floor) division |
| `Paging.TotalPagesOfMultiple` | explorer/src/main/java/io/nebulas/explorer/controller/TxnController.java:90 | `k` full pages of rows are reported as `k + 1` pages (an extra, empty trailing page; not a ceiling) |
| `Paging.TotalPagesMonotone` | explorer/src/main/java/io/nebulas/explorer/controller/TxnController.java:90 | the page count never shrinks as the count grows, and 25 more rows add exactly one page |
| `Paging.TotalPagesExamples` | explorer/src/main/java/io/nebulas/explorer/controller/TxnController.java:147 | 0 rows give 1 page, 24 give 1, 25 give 2; -1 gives 1 where floor division would give 0 |
| `Domain.NewTransaction` | explorer/src/main/java/io/nebulas/explorer/controller/TxnController.java:102 | a freshly allocated record has every field null |
| `Domain.CopyProperties` | explorer/src/main/java/io/nebulas/explorer/controller/TxnController.java:104 | after the copy, the shared fields equal the pending source's and the confirmed-only fields keep the destination's values |
| `TxnController.Scope.Name` | explorer/src/main/java/io/nebulas/explorer/controller/TxnController.java:65-73 | the `type` attribute is one of "block", "address", "total", and names the scope it comes from |
| `TxnController.IsEmpty` | explorer/src/main/java/io/nebulas/explorer/controller/TxnController.java:133 | `StringUtils.isEmpty`: true exactly for null and for the empty string |
| `TxnController.IsNoneEmpty` | explorer/src/main/java/io/nebulas/explorer/controller/TxnController.java:68 | `StringUtils.isNoneEmpty` over its varargs array: true exactly when no element is null or empty; the controller only passes a one-element array |
| `TxnController.NoneEmptyOfOne` | explorer/src/main/java/io/nebulas/explorer/controller/TxnController.java:68 | a single `String` argument, null included, is wrapped into a one-element array, so `isNoneEmpty(address)` is false exactly when `isEmpty(address)` is true; one predicate serves both listings |
| `TxnController.TxsScope` | explorer/src/main/java/io/nebulas/explorer/controller/TxnController.java:65-73 | block scope iff a block height is given; address scope iff no block and the address is non-null and non-empty; total scope otherwise |
| `TxnController.PendingScope` | explorer/src/main/java/io/nebulas/explorer/controller/TxnController.java:133-138 | the pending scope is never block, and it is address iff the address is non-null and non-empty |
| `TxnController.PendingScopeAgreesWithTxs` | explorer/src/main/java/io/nebulas/explorer/controller/TxnController.java:133-138 | without a block height both listings classify an address the same way |
| `TxnController.CollectAddresses` | explorer/src/main/java/io/nebulas/explorer/controller/TxnController.java:78-82 | the set built while walking the page holds exactly the `from` and `to` values of its rows, nulls and empty strings included |
| `TxnController.ParticipantsMembership` | explorer/src/main/java/io/nebulas/explorer/controller/TxnController.java:78-82 | an address is in the collected set iff it is the sender or the receiver of some row of the page |
| `TxnController.ParticipantsAppend` | explorer/src/main/java/io/nebulas/explorer/controller/TxnController.java:78-82 | the set collected over two pages together is the union of the sets of each |
| `TxnController.ParticipantsBound` | explorer/src/main/java/io/nebulas/explorer/controller/TxnController.java:78-82 | duplicates collapse: the set holds at most two addresses per row |
| `TxnController.ListOfSet` | explorer/src/main/java/io/nebulas/explorer/controller/TxnController.java:88 | the list sent to the address service holds every element of the set, once each, and nothing else |
| `TxnController.Txs` | explorer/src/main/java/io/nebulas/explorer/controller/TxnController.java:51-92 | scope by the classification; block height/address attribute only in their scope; count and page fetched with the raw filters and the clamped page; address query is exactly the distinct participants of the returned page; map is the service's answer to it and, for a service that adds no keys, has no key outside the page's participants; total pages by the formula |
| `TxnController.Tx` | explorer/src/main/java/io/nebulas/explorer/controller/TxnController.java:94-123 | a confirmed hit is returned unchanged with no pending flag; otherwise a pending hit gives a record with the pending record's shared fields, status PENDING, null block hash, height and gas used, and the pending flag; failure with NotFound iff both lookups miss; on success the addresses resolved are exactly `[from, to]` of the result |
| `TxnController.TxsPending` | explorer/src/main/java/io/nebulas/explorer/controller/TxnController.java:125-150 | never block scope; address scope iff the address is non-empty; the address echoed as given; the page passed to the store and echoed unclamped; total pages by the same formula; no address map |
| `TxnController.PendingPageMatchesTxsIffUnclamped` | explorer/src/main/java/io/nebulas/explorer/controller/TxnController.java:141-146 | the pending listing's page equals the confirmed listing's clamped page exactly when the request is at most 20; above 20 only the confirmed listing clamps |

## Left out

- `BaseController.execute`, `YAMLConfig`, the Spring routing annotations, `Model.addAttribute` and the view names: these are page setup and rendering. Each handler returns its attributes as a record instead.
- The domain classes `NebTransaction` and `NebPendingTransaction` and the status enum are not part of this model. The controller only reads `from` and `to`, sets `status`, and uses the hash as a lookup key (`TxnController.java:98-105,119`). The other fields (hash, value, nonce, timestamp, gas price, gas limit, data, block hash, block height, gas used) are a guess, and so is their split into fields shared with the pending record and confirmed-only fields. `Tx`'s promise that block hash, block height and gas used stay null rests on that guessed split. The enum's integer encoding is replaced by the `TxStatus` datatype.
- `NebTransactionService` and `NebAddressService` are database queries. They are oracles here, and their filtering is not verified.
- Exceptions thrown by the services propagate out of the handlers in the source (`TxnController.java:75-76,88,98,100,120,140-141`). The oracles here are total, so that failure path is not modelled, and `Error` has only `NotFound`.
- `ResolvesOnlyRequested` is an assumption about the address service, not a fact proved about it. The "no key outside the page" results of `Txs` and `Tx` hold only under that assumption.
- The `Lists.newArrayList` order of the address query is unspecified. `ListOfSet` may pick any order.
- `PropertyUtils.copyProperties` is replaced by the explicit field mapping `CopyProperties`, which cannot fail. The source logs and swallows an exception from the copy. In that case the record is already allocated, so it is still returned with the pending flag set, but its status may not be PENDING. That degraded path is not modelled.
- `Tx` builds the record as a value rather than as a mutable Java object. The record is newly allocated and never shared, so aliasing cannot be observed.
- Logging is not modelled.
- Java `int`/`long` overflow is not modelled: the page and the counts are unbounded integers.
- Concurrency is not modelled, including any inconsistency between the separate count and page calls.
