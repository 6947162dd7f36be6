/** A finite run of the poll loop: cycle after cycle, each against a freshly
    scraped page, a server and a clock reading of its own, threading the
    ledger from one cycle to the next. The sleep between cycles is not
    modelled. */
module Polling {
  import opened Ledgers
  import opened Listing
  import opened Reconcile

  /** What one cycle of the loop sees from the outside world. */
  datatype Round = Round(page: Page, server: Server, now: string)

  /** The final ledger, the submissions of each cycle that ran, and whether
      a reply killed the process (which ends the loop). */
  datatype History = History(ledger: Ledger, cycles: seq<seq<Attempt>>, aborted: bool)

  function Poll(ledger: Ledger, rounds: seq<Round>): (h: History)
    ensures Extends(ledger, h.ledger)
    ensures |h.cycles| <= |rounds|
    ensures !h.aborted ==> |h.cycles| == |rounds|
    decreases |rounds|
  {
    if |rounds| == 0 then History(ledger, [], false)
    else
      var r := Cycle(ledger, rounds[0].page, rounds[0].server, rounds[0].now);
      if r.aborted then History(r.ledger, [r.attempts], true)
      else
        var rest := Poll(r.ledger, rounds[1..]);
        History(rest.ledger, [r.attempts] + rest.cycles, rest.aborted)
  }

  /** No cycle submits any of the given codes. */
  predicate AvoidsAll(cycles: seq<seq<Attempt>>, codes: set<string>)
  {
    forall i :: 0 <= i < |cycles| ==> SubmittedCodes(cycles[i]) !! codes
  }

  /** No code that gets a terminal outcome in one cycle is submitted in a
      later one. */
  predicate TerminalStaysDone(cycles: seq<seq<Attempt>>)
  {
    forall i, j :: 0 <= i < j < |cycles| ==> TerminalCodes(cycles[i]) !! SubmittedCodes(cycles[j])
  }

  /** No cycle ever submits a code the ledger held before polling began. */
  lemma {:induction false} PollSkipsRedeemed(ledger: Ledger, rounds: seq<Round>)
    ensures AvoidsAll(Poll(ledger, rounds).cycles, ledger.Keys)
    decreases |rounds|
  {
    if |rounds| > 0 {
      var h := Poll(ledger, rounds);
      var codes := AvailableCoupons(rounds[0].page);
      var r := Cycle(ledger, rounds[0].page, rounds[0].server, rounds[0].now);
      assert r == Run(Start(ledger), codes, rounds[0].server, rounds[0].now);
      RunSkipsRedeemed(Start(ledger), codes, rounds[0].server, rounds[0].now);
      assert h.cycles[0] == r.attempts;
      forall c | c in SubmittedCodes(r.attempts)
        ensures c !in ledger
      {
        var a :| a in r.attempts && a.code == c;
        var k :| 0 <= k < |r.attempts| && r.attempts[k] == a;
        assert r.attempts[k].code !in Start(ledger).ledger;
      }
      if !r.aborted {
        var rest := Poll(r.ledger, rounds[1..]);
        PollSkipsRedeemed(r.ledger, rounds[1..]);
        assert AvoidsAll(rest.cycles, r.ledger.Keys);
        assert h.cycles == [r.attempts] + rest.cycles;
        assert ledger.Keys <= r.ledger.Keys;
        forall i | 1 <= i < |h.cycles|
          ensures SubmittedCodes(h.cycles[i]) !! ledger.Keys
        {
          assert h.cycles[i] == rest.cycles[i - 1];
        }
      }
    }
  }

  /** A code that gets a terminal outcome in some cycle is never submitted
      in any later cycle. */
  lemma {:induction false} PollNeverResubmitsTerminal(ledger: Ledger, rounds: seq<Round>)
    ensures TerminalStaysDone(Poll(ledger, rounds).cycles)
    decreases |rounds|
  {
    if |rounds| > 0 {
      var h := Poll(ledger, rounds);
      var codes := AvailableCoupons(rounds[0].page);
      var r := Cycle(ledger, rounds[0].page, rounds[0].server, rounds[0].now);
      assert r == Run(Start(ledger), codes, rounds[0].server, rounds[0].now);
      if !r.aborted {
        var rest := Poll(r.ledger, rounds[1..]);
        assert h.cycles == [r.attempts] + rest.cycles;
        RunLedgerKeys(Start(ledger), codes, rounds[0].server, rounds[0].now);
        assert Since(Start(ledger), r) == r.attempts;
        assert TerminalCodes(r.attempts) <= r.ledger.Keys;
        PollSkipsRedeemed(r.ledger, rounds[1..]);
        assert AvoidsAll(rest.cycles, r.ledger.Keys);
        PollNeverResubmitsTerminal(r.ledger, rounds[1..]);
        assert TerminalStaysDone(rest.cycles);
        forall i, j | 0 <= i < j < |h.cycles|
          ensures TerminalCodes(h.cycles[i]) !! SubmittedCodes(h.cycles[j])
        {
          assert h.cycles[j] == rest.cycles[j - 1];
          if i == 0 {
            assert SubmittedCodes(rest.cycles[j - 1]) !! r.ledger.Keys;
          } else {
            assert h.cycles[i] == rest.cycles[i - 1];
          }
        }
      }
    }
  }
}
