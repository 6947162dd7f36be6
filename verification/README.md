# BDM auto couponer — a verified model of the reconciliation cycle

The BDM auto couponer polls a public coupon listing for the game Black Desert
Mobile. It tries to redeem every listed code it has not seen before and keeps a
ledger. The ledger maps each code that reached a terminal outcome to the UTC time
that happened, so such a code is never submitted again. This project models the
two pieces of that script that are pure, sequential logic, and proves their
properties in Dafny:

* the **listing-row filter** of `get_available_coupons`. A table-body row lists
  a code only when it has a first cell and that cell holds exactly one bold
  element. Any failure to fetch or parse the page yields an empty listing.
* the **reconciliation cycle** of `run`, together with `mark_redeemed`. It walks
  the listing in order and skips codes the ledger holds. It submits each other
  code and classifies the reply by its `resultCode`. Codes `0` (success),
  `-20007` (already used) and `-20006` (expired) are terminal and insert the code
  into the ledger straight away. So a later duplicate in the same listing is
  skipped. Every other outcome leaves the ledger alone.

Modules, one per component:

| file | module | contents |
|---|---|---|
| `json.dfy` | `Json` | decoded reply bodies; Python truthiness and `==` against an integer |
| `redemption.dfy` | `Redemption` | replies, outcomes, the classification ladder |
| `ledgers.dfy` | `Ledgers` | the ledger map and `mark_redeemed` |
| `listing.dfy` | `Listing` | abstract page/row/cell structure, the row filter, its loop |
| `reconcile.dfy` | `Reconcile` | one cycle as a left fold (`Step`, `Run`, `Cycle`), its loop, its lemmas |
| `polling.dfy` | `Polling` | a finite run of consecutive cycles threading the ledger |

The outside world enters only as parameters:

* the scraped page is a `Page` value: unreachable, no table, no body, or a
  table of rows;
* the redemption endpoint is a `Server`, a function from the submission's
  position in the cycle and the code to the reply. A duplicate resubmitted
  after a transient failure can therefore get a different answer;
* the clock reading is an opaque timestamp string per cycle.

Three consequences of the reply handling in `run` (lines 129-144):

* A reply body that is valid JSON but falsy (`{}`, `[]`, `0`, `""`, `false`,
  `null`) takes the "no response from server" branch, because the loop tests
  `if result:`.
* A body that is truthy but not a JSON object (a list, a string, a number,
  `true`) is not treated as a failed submission. `result.get` raises on it
  outside any handler, and the process dies. This is the `Crashed` outcome.
  It stops the cycle, and the poll loop, with the ledger as it stood.
* A reply object with no `resultCode` is an ordinary failure. The same holds
  for any other value of the field. JSON `false` compares equal to `0` in
  Python and so counts as success.

## Model

| member | source | states |
|---|---|---|
| Ledgers.MarkRedeemed | bdm-auto-couponer.py:60-62 | marking adds exactly the code, with the given timestamp; every other entry keeps its timestamp; on an absent code the old ledger is contained in the new one |
| Redemption.Classify | bdm-auto-couponer.py:130-144 | "no response" exactly for a missing or falsy reply; crash exactly for a truthy non-object; terminal exactly for a non-empty object whose resultCode equals 0, -20007 or -20006; any other non-empty object is an ordinary failure |
| Redemption.ClassifyIntegerCode | bdm-auto-couponer.py:131-142 | for an integer resultCode the outcome is fixed by the code alone: 0 success, -20007 already used, -20006 expired, anything else failure |
| Redemption.ClassifyMissingCode | bdm-auto-couponer.py:140-142 | a non-empty reply object without resultCode is an ordinary, retryable failure |
| Redemption.ClassifyFalseIsSuccess | bdm-auto-couponer.py:131-133 | a JSON false resultCode compares equal to 0 and counts as success |
| Listing.ActiveCodes | bdm-auto-couponer.py:80-92 | the codes of the active rows, in row order; never more codes than rows |
| Listing.AvailableCoupons | bdm-auto-couponer.py:69-95 | an unreachable page, a missing table or a missing table body yields the empty listing; a table never yields more codes than it has rows |
| Listing.SingleRow | bdm-auto-couponer.py:82-91 | a row yields exactly one code, the text of its single bold element, iff it has a first cell with exactly one bold element; otherwise it yields nothing |
| Listing.ActiveCodesAppend | bdm-auto-couponer.py:80-92 | the filter distributes over concatenation of rows, so the output follows row order and rows do not affect one another |
| Listing.ActiveCodesMembership | bdm-auto-couponer.py:80-91 | a code is listed iff some active row lists it |
| Listing.ScrapeRows | bdm-auto-couponer.py:80-92 | the imperative row walk, with its skip-and-continue branches, returns exactly the filtered codes |
| Listing.ScrapePage | bdm-auto-couponer.py:70-95 | scraping a page returns exactly the modelled listing |
| Reconcile.Step | bdm-auto-couponer.py:125-144 | a code already in the ledger is skipped with nothing changed; otherwise it is submitted once; a terminal outcome adds it with this cycle's timestamp; any other outcome leaves the ledger exactly unchanged; a crash stops the process |
| Reconcile.Run | bdm-auto-couponer.py:124-144 | walking a listing only appends submissions and never drops or restamps a ledger entry |
| Reconcile.Cycle | bdm-auto-couponer.py:123-144 | a cycle only grows the ledger; a failed scrape submits nothing and leaves the ledger unchanged |
| Reconcile.RunAbort | bdm-auto-couponer.py:129-131 | after a crash nothing more happens; otherwise the walk ends aborted exactly when its last submission crashed, and no earlier submission crashed |
| Reconcile.RunSkipsRedeemed | bdm-auto-couponer.py:125-127 | no code held by the ledger when the walk starts is ever submitted |
| Reconcile.RunLedgerKeys | bdm-auto-couponer.py:124-139 | the final ledger keys are exactly the initial keys plus the codes submitted with a terminal outcome |
| Reconcile.RunNewStamps | bdm-auto-couponer.py:60-61 | every entry the walk adds carries the cycle's timestamp |
| Reconcile.RunInOrder | bdm-auto-couponer.py:124-129 | the submitted codes form a subsequence of the listing, in listing order |
| Reconcile.RunTerminalOnce | bdm-auto-couponer.py:124-139 | once a code gets a terminal outcome, no later occurrence of it in the same listing is submitted |
| Reconcile.RunKeysFromListing | bdm-auto-couponer.py:124-139 | every key the walk adds is a listed code |
| Reconcile.RunSubmitsExactlyUnredeemed | bdm-auto-couponer.py:124-129 | unless the process dies, a listed code is submitted iff the ledger did not hold it at the start |
| Reconcile.RunAllRedeemed | bdm-auto-couponer.py:124-127 | a listing entirely held by the ledger submits nothing and changes nothing |
| Reconcile.RunRetriesAfterTransient | bdm-auto-couponer.py:124-144 | after a transient outcome a later duplicate in the same listing is submitted again, unless a crash comes first |
| Reconcile.CycleIdempotent | bdm-auto-couponer.py:121-139 | a second cycle over the same listing submits none of the codes that got a terminal outcome in the first; if every first-cycle submission was terminal, it submits nothing and changes nothing |
| Reconcile.CycleRetriesTransient | bdm-auto-couponer.py:124-144 | a listed code the ledger lacked at the start is submitted in the next cycle over the same page iff the first cycle gave it no terminal outcome (unless that next cycle crashes) |
| Reconcile.Reconcile | bdm-auto-couponer.py:124-144 | the imperative loop, updating the ledger in place, computes exactly the fold |
| Reconcile.RunCycle | bdm-auto-couponer.py:123-144 | scrape-then-reconcile as statements computes exactly one cycle |
| Reconcile.TwoCodeScenario | bdm-auto-couponer.py:123-139 | a listing with codes answered 0 and -20006 (beside an ad row and an expired row) ends with both codes in the ledger, and the next cycle submits nothing |
| Polling.Poll | bdm-auto-couponer.py:121-146 | successive cycles only grow the ledger; all rounds run unless the process dies |
| Polling.PollSkipsRedeemed | bdm-auto-couponer.py:121-127 | no cycle ever submits a code the ledger held before polling began |
| Polling.PollNeverResubmitsTerminal | bdm-auto-couponer.py:121-139 | a code with a terminal outcome in one cycle is never submitted in a later cycle |

## Left out

- HTTP GET and POST, `raise_for_status`, timeouts and JSON decoding (lines 71-72, 109-111) are network and library calls. The listing is a `Page` value and the endpoint a `Server` function. A failed listing fetch is `Unreachable`; a failed submission or an undecodable reply is `NoReply`.
- BeautifulSoup parsing and the `table-dark` / `tbody` lookups (lines 73-80) belong to a foreign library. Rows, cells and stripped bold texts are abstract data, and the two lookup failures are `Page` variants.
- Configuration loading, the required-field checks and `exit(1)` (lines 19-42) are process lifecycle and file I/O.
- Loading and saving the ledger file (lines 44-58) is file I/O. The in-memory map is what the model tracks. A ledger file whose JSON is not an object is not modelled either.
- Logging and printing, including the `resultMsg` text, are output only.
- Reconcile.Step: every code marked in one cycle gets the same timestamp, because the clock is a single opaque value per cycle. The source reads the clock separately at each mark.
- Json.Json: JSON numbers are integers. Floats such as `0.0`, which Python also compares equal to `0`, are not represented.
- Polling.Poll: only finitely many cycles are modelled. The `while True` loop and the `time.sleep` between cycles (lines 121, 145-146) are not.
- Reconcile.RunAbort: the process dying on a truthy non-object reply is modelled as a stop. The traceback and the exit status are not modelled.
