/** A redemption attempt's reply and its classification into the outcome that
    decides whether the ledger is updated. */
module Redemption {
  import opened Json

  /** What `submit_coupon` returns: `None` after a network error, a non-2xx
      status or an undecodable body, otherwise the decoded JSON body. */
  datatype Reply = NoReply | Body(json: Json)

  /** The outcome of one submission. `Crashed` is a truthy reply that is not
      a JSON object: `result.get` raises there, outside any handler, so the
      process dies. */
  datatype Outcome =
    | Success        // result code 0
    | AlreadyUsed    // result code -20007
    | Expired        // result code -20006
    | OtherFailure   // any other result code, or none at all
    | NoResponse     // no reply, or a falsy one
    | Crashed        // truthy reply that is not an object

  const SuccessCode: int := 0
  const AlreadyUsedCode: int := -20007
  const ExpiredCode: int := -20006

  /** Terminal outcomes are recorded in the ledger and never retried. */
  predicate IsTerminal(o: Outcome)
  {
    o.Success? || o.AlreadyUsed? || o.Expired?
  }

  /** Transient outcomes leave the ledger alone; the code is retried. */
  predicate IsTransient(o: Outcome)
  {
    o.OtherFailure? || o.NoResponse?
  }

  /** The reply carries one of the three terminal result codes. */
  predicate HasTerminalCode(fields: map<string, Json>)
  {
    || FieldEquals(fields, "resultCode", SuccessCode)
    || FieldEquals(fields, "resultCode", AlreadyUsedCode)
    || FieldEquals(fields, "resultCode", ExpiredCode)
  }

  /** The branch ladder of the reconciliation loop for one reply. */
  function Classify(reply: Reply): (o: Outcome)
    ensures o == NoResponse <==> (reply.NoReply? || !Truthy(reply.json))
    ensures o == Crashed <==> (reply.Body? && Truthy(reply.json) && !reply.json.JObj?)
    ensures IsTerminal(o) <==>
              (reply.Body? && reply.json.JObj? && reply.json.fields != map[]
               && HasTerminalCode(reply.json.fields))
    ensures o == OtherFailure <==>
              (reply.Body? && reply.json.JObj? && reply.json.fields != map[]
               && !HasTerminalCode(reply.json.fields))
  {
    if reply.NoReply? || !Truthy(reply.json) then NoResponse
    else if !reply.json.JObj? then Crashed
    else if FieldEquals(reply.json.fields, "resultCode", SuccessCode) then Success
    else if FieldEquals(reply.json.fields, "resultCode", AlreadyUsedCode) then AlreadyUsed
    else if FieldEquals(reply.json.fields, "resultCode", ExpiredCode) then Expired
    else OtherFailure
  }

  /** For a reply object whose `resultCode` is the integer `k`, the outcome
      is determined by `k` alone, whatever other fields the object carries. */
  lemma ClassifyIntegerCode(fields: map<string, Json>, k: int)
    requires "resultCode" in fields && fields["resultCode"] == JNum(k)
    ensures Classify(Body(JObj(fields))) ==
              if k == 0 then Success
              else if k == -20007 then AlreadyUsed
              else if k == -20006 then Expired
              else OtherFailure
  {
  }

  /** A reply object without a `resultCode`, such as one carrying only a
      `resultMsg`, is an ordinary failure and is retried next cycle. */
  lemma ClassifyMissingCode(fields: map<string, Json>)
    requires "resultCode" !in fields && fields != map[]
    ensures Classify(Body(JObj(fields))) == OtherFailure
  {
  }

  /** A JSON `false` result code compares equal to `0` in Python and so
      counts as success. */
  lemma ClassifyFalseIsSuccess(fields: map<string, Json>)
    requires "resultCode" in fields && fields["resultCode"] == JBool(false)
    ensures Classify(Body(JObj(fields))) == Success
  {
  }
}
