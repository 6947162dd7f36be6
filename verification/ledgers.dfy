/** The redemption ledger: coupon code to the UTC timestamp at which the code
    reached a terminal outcome. Loading and saving the ledger file are not
    part of this model; a failed save leaves the in-memory map updated, so the
    map is all there is. */
module Ledgers {

  type Ledger = map<string, string>

  /** Every entry of `before` is in `after` with the same timestamp. */
  predicate Extends(before: Ledger, after: Ledger)
  {
    forall k :: k in before ==> k in after && after[k] == before[k]
  }

  /** `mark_redeemed`: records `code` with the given timestamp. The timestamp
      stands for the formatted clock reading `YYYY-MM-DDTHH:MM:SSZ`. */
  function MarkRedeemed(ledger: Ledger, code: string, stamp: string): (r: Ledger)
    ensures r.Keys == ledger.Keys + {code}
    ensures r[code] == stamp
    ensures forall k :: k in ledger && k != code ==> r[k] == ledger[k]
    ensures code !in ledger ==> Extends(ledger, r)
  {
    ledger[code := stamp]
  }
}
