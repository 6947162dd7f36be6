/** One reconciliation cycle: walk the listed codes in order, skip those the
    ledger already holds, submit the others and record terminal outcomes in
    the ledger as the walk goes, so a later duplicate sees an earlier
    insertion. */
module Reconcile {
  import opened Json
  import opened Redemption
  import opened Ledgers
  import opened Listing

  /** One submission and how it was classified. */
  datatype Attempt = Attempt(code: string, outcome: Outcome)

  /** The state of a cycle part-way through: the ledger so far, the
      submissions made so far in listing order, and whether a reply has
      killed the process. */
  datatype Progress = Progress(ledger: Ledger, attempts: seq<Attempt>, aborted: bool)

  /** The redemption endpoint: the reply to the `n`-th submission of the
      cycle, for the given code. Network, status and decoding failures are
      all folded into the reply. */
  type Server = (nat, string) -> Reply

  function Start(ledger: Ledger): Progress
  {
    Progress(ledger, [], false)
  }

  /** The codes of a sequence of submissions, in order. */
  function Codes(attempts: seq<Attempt>): seq<string>
  {
    seq(|attempts|, i requires 0 <= i < |attempts| => attempts[i].code)
  }

  /** The codes submitted at least once: the elements of `Codes`. */
  function SubmittedCodes(attempts: seq<Attempt>): set<string>
  {
    set a | a in attempts :: a.code
  }

  /** The two views of the submitted codes agree. */
  lemma SubmittedCodesAreCodes(attempts: seq<Attempt>)
    ensures forall c :: c in SubmittedCodes(attempts) <==> c in Codes(attempts)
  {
    forall c | c in SubmittedCodes(attempts)
      ensures c in Codes(attempts)
    {
      var a :| a in attempts && a.code == c;
      var k :| 0 <= k < |attempts| && attempts[k] == a;
      assert Codes(attempts)[k] == c;
    }
  }

  /** The codes that reached a terminal outcome. */
  function TerminalCodes(attempts: seq<Attempt>): set<string>
  {
    set a | a in attempts && IsTerminal(a.outcome) :: a.code
  }

  /** The submissions made between two points of a cycle. */
  function Since(p: Progress, q: Progress): seq<Attempt>
    requires |p.attempts| <= |q.attempts|
  {
    q.attempts[|p.attempts|..]
  }

  /** The loop body for one listed code. */
  function Step(p: Progress, code: string, server: Server, now: string): (q: Progress)
    ensures p.attempts <= q.attempts
    ensures Extends(p.ledger, q.ledger)
    // already in the ledger (or the process is gone): not submitted, nothing changes
    ensures p.aborted || code in p.ledger ==> q == p
    ensures !p.aborted && code !in p.ledger ==>
              var o := Classify(server(|p.attempts|, code));
              && q.attempts == p.attempts + [Attempt(code, o)]
              && q.aborted == (o == Crashed)
              // a terminal outcome records the code with this cycle's timestamp
              && (IsTerminal(o) ==> q.ledger.Keys == p.ledger.Keys + {code} && q.ledger[code] == now)
              // any other outcome leaves the ledger exactly as it was
              && (!IsTerminal(o) ==> q.ledger == p.ledger)
  {
    if p.aborted || code in p.ledger then p
    else
      var o := Classify(server(|p.attempts|, code));
      var ledger := if IsTerminal(o) then MarkRedeemed(p.ledger, code, now) else p.ledger;
      Progress(ledger, p.attempts + [Attempt(code, o)], o == Crashed)
  }

  /** The loop over the listed codes, as a left fold of `Step`. */
  function Run(p: Progress, codes: seq<string>, server: Server, now: string): (q: Progress)
    ensures p.attempts <= q.attempts
    ensures Extends(p.ledger, q.ledger)
    decreases |codes|
  {
    if |codes| == 0 then p
    else Run(Step(p, codes[0], server, now), codes[1..], server, now)
  }

  /** One full cycle: scrape the listing, then reconcile it. */
  function Cycle(ledger: Ledger, page: Page, server: Server, now: string): (r: Progress)
    ensures Extends(ledger, r.ledger)
    // a failed scrape submits nothing and leaves the ledger alone
    ensures !page.Table? ==> r == Start(ledger)
  {
    Run(Start(ledger), AvailableCoupons(page), server, now)
  }

  lemma {:induction false} RunConcat(p: Progress, a: seq<string>, b: seq<string>, server: Server, now: string)
    ensures Run(p, a + b, server, now) == Run(Run(p, a, server, now), b, server, now)
    decreases |a|
  {
    if |a| == 0 {
      assert a + b == b;
    } else {
      assert (a + b)[0] == a[0];
      assert (a + b)[1..] == a[1..] + b;
      RunConcat(Step(p, a[0], server, now), a[1..], b, server, now);
    }
  }

  /** Once the process has died nothing further happens; otherwise it dies
      exactly when the last submission crashed, and no earlier one did. */
  lemma {:induction false} RunAbort(p: Progress, codes: seq<string>, server: Server, now: string)
    ensures var q := Run(p, codes, server, now);
            p.aborted ==> q == p
    ensures var q := Run(p, codes, server, now);
            !p.aborted ==>
              (q.aborted <==>
                 |p.attempts| < |q.attempts| && q.attempts[|q.attempts| - 1].outcome == Crashed)
    ensures var q := Run(p, codes, server, now);
            forall i :: |p.attempts| <= i < |q.attempts| - 1 ==> q.attempts[i].outcome != Crashed
    decreases |codes|
  {
    if |codes| > 0 {
      var p1 := Step(p, codes[0], server, now);
      RunAbort(p1, codes[1..], server, now);
      var q := Run(p, codes, server, now);
      assert q == Run(p1, codes[1..], server, now);
      if !p.aborted && p1 != p {
        assert q.attempts[|p.attempts|] == p1.attempts[|p.attempts|];
        if !p1.aborted && |q.attempts| == |p1.attempts| {
          assert q.attempts == p1.attempts;
        }
      }
    }
  }

  /** A code the ledger holds when the walk starts is never submitted. */
  lemma {:induction false} RunSkipsRedeemed(p: Progress, codes: seq<string>, server: Server, now: string)
    ensures var q := Run(p, codes, server, now);
            forall i :: |p.attempts| <= i < |q.attempts| ==> q.attempts[i].code !in p.ledger
    decreases |codes|
  {
    if |codes| > 0 {
      var p1 := Step(p, codes[0], server, now);
      RunSkipsRedeemed(p1, codes[1..], server, now);
      var q := Run(p, codes, server, now);
      assert q == Run(p1, codes[1..], server, now);
      forall i | |p.attempts| <= i < |q.attempts|
        ensures q.attempts[i].code !in p.ledger
      {
        if i < |p1.attempts| {
          assert q.attempts[i] == p1.attempts[i];
        }
      }
    }
  }

  lemma TerminalCodesAppend(a: seq<Attempt>, b: seq<Attempt>)
    ensures TerminalCodes(a + b) == TerminalCodes(a) + TerminalCodes(b)
  {
  }

  lemma SinceSplit(p: Progress, m: Progress, q: Progress)
    requires p.attempts <= m.attempts <= q.attempts
    ensures Since(p, q) == Since(p, m) + Since(m, q)
  {
    assert q.attempts[..|m.attempts|] == m.attempts;
  }

  /** One step adds to the ledger exactly the code it submitted, if that
      submission was terminal. */
  lemma StepLedgerKeys(p: Progress, code: string, server: Server, now: string)
    ensures var p1 := Step(p, code, server, now);
            p1.ledger.Keys == p.ledger.Keys + TerminalCodes(Since(p, p1))
  {
    var p1 := Step(p, code, server, now);
    if p1 != p {
      var a := p1.attempts[|p.attempts|];
      assert Since(p, p1) == [a];
      assert TerminalCodes([a]) == if IsTerminal(a.outcome) then {a.code} else {};
    } else {
      assert Since(p, p1) == [];
    }
  }

  /** The ledger after the walk holds exactly the keys it started with plus
      the codes submitted with a terminal outcome. */
  lemma {:induction false} RunLedgerKeys(p: Progress, codes: seq<string>, server: Server, now: string)
    ensures var q := Run(p, codes, server, now);
            q.ledger.Keys == p.ledger.Keys + TerminalCodes(Since(p, q))
    decreases |codes|
  {
    var q := Run(p, codes, server, now);
    if |codes| == 0 {
      assert Since(p, q) == [];
    } else {
      var p1 := Step(p, codes[0], server, now);
      RunLedgerKeys(p1, codes[1..], server, now);
      StepLedgerKeys(p, codes[0], server, now);
      assert q == Run(p1, codes[1..], server, now);
      SinceSplit(p, p1, q);
      TerminalCodesAppend(Since(p, p1), Since(p1, q));
    }
  }

  /** Entries the walk adds carry this cycle's timestamp; the entries it
      started with keep theirs (see `Run`). */
  lemma {:induction false} RunNewStamps(p: Progress, codes: seq<string>, server: Server, now: string)
    ensures var q := Run(p, codes, server, now);
            forall k :: k in q.ledger && k !in p.ledger ==> q.ledger[k] == now
    decreases |codes|
  {
    if |codes| > 0 {
      var p1 := Step(p, codes[0], server, now);
      RunNewStamps(p1, codes[1..], server, now);
      var q := Run(p, codes, server, now);
      assert q == Run(p1, codes[1..], server, now);
      forall k | k in q.ledger && k !in p.ledger
        ensures q.ledger[k] == now
      {
        if k in p1.ledger {
          assert p1.ledger[k] == now;
        }
      }
    }
  }

  /** The submitted codes form a subsequence of the listing. */
  predicate IsSubsequence(xs: seq<string>, ys: seq<string>)
    decreases |ys|
  {
    || |xs| == 0
    || (&& |ys| > 0
        && ((xs[0] == ys[0] && IsSubsequence(xs[1..], ys[1..])) || IsSubsequence(xs, ys[1..])))
  }

  lemma CodesCons(a: Attempt, s: seq<Attempt>)
    ensures Codes([a] + s) == [a.code] + Codes(s)
  {
  }

  /** Submissions happen in listing order, each to a listed code. */
  lemma {:induction false} RunInOrder(p: Progress, codes: seq<string>, server: Server, now: string)
    ensures var q := Run(p, codes, server, now);
            IsSubsequence(Codes(Since(p, q)), codes)
    decreases |codes|
  {
    var q := Run(p, codes, server, now);
    if |codes| == 0 {
      assert Codes(Since(p, q)) == [];
    } else {
      var p1 := Step(p, codes[0], server, now);
      RunInOrder(p1, codes[1..], server, now);
      assert q == Run(p1, codes[1..], server, now);
      if p1 != p {
        var a := p1.attempts[|p.attempts|];
        assert q.attempts[|p.attempts|] == a;
        assert Since(p, q) == [a] + Since(p1, q);
        CodesCons(a, Since(p1, q));
        assert Codes(Since(p, q))[1..] == Codes(Since(p1, q));
      } else {
        assert Since(p, q) == Since(p1, q);
      }
    }
  }

  /** Within a cycle, once a code gets a terminal outcome no later
      occurrence of it is submitted. */
  lemma {:induction false} RunTerminalOnce(p: Progress, codes: seq<string>, server: Server, now: string)
    ensures var q := Run(p, codes, server, now);
            forall i, j ::
              |p.attempts| <= i < j < |q.attempts| && IsTerminal(q.attempts[i].outcome) ==>
                q.attempts[j].code != q.attempts[i].code
    decreases |codes|
  {
    if |codes| > 0 {
      var p1 := Step(p, codes[0], server, now);
      RunTerminalOnce(p1, codes[1..], server, now);
      RunSkipsRedeemed(p1, codes[1..], server, now);
      var q := Run(p, codes, server, now);
      assert q == Run(p1, codes[1..], server, now);
      forall i, j | |p.attempts| <= i < j < |q.attempts| && IsTerminal(q.attempts[i].outcome)
        ensures q.attempts[j].code != q.attempts[i].code
      {
        if i < |p1.attempts| {
          assert q.attempts[i] == p1.attempts[i];
          assert q.attempts[i].code in p1.ledger;
        }
      }
    }
  }

  /** Every key the walk adds to the ledger is a listed code. */
  lemma {:induction false} RunKeysFromListing(p: Progress, codes: seq<string>, server: Server, now: string)
    ensures var q := Run(p, codes, server, now);
            forall k :: k in q.ledger ==> k in p.ledger || k in codes
    decreases |codes|
  {
    if |codes| > 0 {
      var p1 := Step(p, codes[0], server, now);
      RunKeysFromListing(p1, codes[1..], server, now);
    }
  }

  /** Unless the process dies, a listed code is submitted iff the ledger did
      not hold it when the walk started. */
  lemma {:induction false} RunSubmitsExactlyUnredeemed(p: Progress, codes: seq<string>, server: Server, now: string)
    ensures var q := Run(p, codes, server, now);
            !q.aborted ==>
              forall c :: c in codes ==> (c in Codes(Since(p, q)) <==> c !in p.ledger)
    decreases |codes|
  {
    var q := Run(p, codes, server, now);
    RunSkipsRedeemed(p, codes, server, now);
    RunAbort(p, codes, server, now);
    if |codes| > 0 && !q.aborted {
      var p1 := Step(p, codes[0], server, now);
      RunSubmitsExactlyUnredeemed(p1, codes[1..], server, now);
      assert q == Run(p1, codes[1..], server, now);
      if p1 != p {
        var a := p1.attempts[|p.attempts|];
        assert q.attempts[|p.attempts|] == a;
        assert Since(p, q) == [a] + Since(p1, q);
        CodesCons(a, Since(p1, q));
      } else {
        assert Since(p, q) == Since(p1, q);
      }
      forall c | c in codes
        ensures c in Codes(Since(p, q)) <==> c !in p.ledger
      {
        if c in Codes(Since(p, q)) {
          var k :| 0 <= k < |Since(p, q)| && Codes(Since(p, q))[k] == c;
          assert q.attempts[|p.attempts| + k].code == c;
        }
      }
    }
  }

  /** A listing whose every code the ledger holds changes nothing. */
  lemma {:induction false} RunAllRedeemed(p: Progress, codes: seq<string>, server: Server, now: string)
    requires forall c :: c in codes ==> c in p.ledger
    ensures Run(p, codes, server, now) == p
    decreases |codes|
  {
    if |codes| > 0 {
      assert codes[0] in codes;
      RunAllRedeemed(p, codes[1..], server, now);
    }
  }

  /** After a transient outcome the ledger still lacks the code, so a later
      duplicate in the same listing is submitted again (unless a reply in
      between killed the process). */
  lemma RunRetriesAfterTransient(p: Progress, c: string, between: seq<string>, server: Server, now: string)
    requires !p.aborted && c !in p.ledger && c !in between
    requires IsTransient(Classify(server(|p.attempts|, c)))
    ensures var m := Run(p, [c] + between, server, now);
            && p.attempts + [Attempt(c, Classify(server(|p.attempts|, c)))] <= m.attempts
            && (!m.aborted ==>
                  Run(p, [c] + between + [c], server, now).attempts
                    == m.attempts + [Attempt(c, Classify(server(|m.attempts|, c)))])
  {
    var p1 := Step(p, c, server, now);
    assert ([c] + between)[1..] == between;
    var m := Run(p, [c] + between, server, now);
    assert m == Run(p1, between, server, now);
    RunKeysFromListing(p1, between, server, now);
    RunConcat(p, [c] + between, [c], server, now);
    assert [c][1..] == [];
  }

  /** Reconciling the same listing again submits none of the codes that got
      a terminal outcome the first time; and if the first cycle finished with
      every submission terminal, the second submits nothing at all. */
  lemma CycleIdempotent(ledger: Ledger, page: Page, server1: Server, now1: string, server2: Server, now2: string)
    ensures var r1 := Cycle(ledger, page, server1, now1);
            var r2 := Cycle(r1.ledger, page, server2, now2);
            forall a :: a in r2.attempts ==> a.code !in TerminalCodes(r1.attempts)
    ensures var r1 := Cycle(ledger, page, server1, now1);
            var r2 := Cycle(r1.ledger, page, server2, now2);
            (!r1.aborted && forall a :: a in r1.attempts ==> IsTerminal(a.outcome)) ==>
              r2 == Start(r1.ledger)
  {
    var codes := AvailableCoupons(page);
    var r1 := Cycle(ledger, page, server1, now1);
    var r2 := Cycle(r1.ledger, page, server2, now2);
    assert r1 == Run(Start(ledger), codes, server1, now1);
    assert r2 == Run(Start(r1.ledger), codes, server2, now2);
    RunLedgerKeys(Start(ledger), codes, server1, now1);
    assert Since(Start(ledger), r1) == r1.attempts;
    assert TerminalCodes(r1.attempts) <= r1.ledger.Keys;
    RunSkipsRedeemed(Start(r1.ledger), codes, server2, now2);
    forall a | a in r2.attempts
      ensures a.code !in TerminalCodes(r1.attempts)
    {
      var i :| 0 <= i < |r2.attempts| && r2.attempts[i] == a;
      assert a.code !in r1.ledger;
    }
    if !r1.aborted && forall a :: a in r1.attempts ==> IsTerminal(a.outcome) {
      RunSubmitsExactlyUnredeemed(Start(ledger), codes, server1, now1);
      forall c | c in codes
        ensures c in r1.ledger
      {
        if c !in ledger {
          var k :| 0 <= k < |Codes(r1.attempts)| && Codes(r1.attempts)[k] == c;
          assert r1.attempts[k] in r1.attempts;
        }
      }
      RunAllRedeemed(Start(r1.ledger), codes, server2, now2);
    }
  }

  /** Across cycles over the same page, a listed code the ledger lacked is
      submitted again next cycle exactly when the first cycle gave it no
      terminal outcome, since only terminal outcomes reach the ledger. */
  lemma CycleRetriesTransient(ledger: Ledger, page: Page, server1: Server, now1: string,
                              server2: Server, now2: string, c: string)
    requires c in AvailableCoupons(page) && c !in ledger
    ensures var r1 := Cycle(ledger, page, server1, now1);
            var r2 := Cycle(r1.ledger, page, server2, now2);
            !r2.aborted ==> (c in Codes(r2.attempts) <==> c !in TerminalCodes(r1.attempts))
  {
    var codes := AvailableCoupons(page);
    var r1 := Cycle(ledger, page, server1, now1);
    var r2 := Cycle(r1.ledger, page, server2, now2);
    assert r1 == Run(Start(ledger), codes, server1, now1);
    assert r2 == Run(Start(r1.ledger), codes, server2, now2);
    RunLedgerKeys(Start(ledger), codes, server1, now1);
    assert Since(Start(ledger), r1) == r1.attempts;
    RunSubmitsExactlyUnredeemed(Start(r1.ledger), codes, server2, now2);
    assert Since(Start(r1.ledger), r2) == r2.attempts;
  }

  /** The imperative loop of one cycle over an already scraped listing. */
  method Reconcile(ledger: Ledger, listing: seq<string>, server: Server, now: string)
    returns (redeemed: Ledger, attempts: seq<Attempt>, crashed: bool)
    ensures Progress(redeemed, attempts, crashed) == Run(Start(ledger), listing, server, now)
  {
    redeemed := ledger;
    attempts := [];
    crashed := false;
    var i := 0;
    while i < |listing| && !crashed
      invariant 0 <= i <= |listing|
      invariant Run(Progress(redeemed, attempts, crashed), listing[i..], server, now)
                == Run(Start(ledger), listing, server, now)
    {
      var coupon := listing[i];
      assert listing[i..][1..] == listing[i + 1..];
      i := i + 1;
      if coupon in redeemed {
        continue;
      }
      var o := Classify(server(|attempts|, coupon));
      attempts := attempts + [Attempt(coupon, o)];
      if o == Crashed {
        crashed := true;
      } else if IsTerminal(o) {
        redeemed := MarkRedeemed(redeemed, coupon, now);
      }
    }
    RunAbort(Progress(redeemed, attempts, crashed), listing[i..], server, now);
  }

  /** One iteration of the poll loop: scrape, then reconcile. */
  method RunCycle(ledger: Ledger, page: Page, server: Server, now: string)
    returns (redeemed: Ledger, attempts: seq<Attempt>, crashed: bool)
    ensures Progress(redeemed, attempts, crashed) == Cycle(ledger, page, server, now)
  {
    var available := ScrapePage(page);
    redeemed, attempts, crashed := Reconcile(ledger, available, server, now);
  }

  /** Two listed codes, redeemed and expired respectively, between an ad row
      and an expired-code row: both end up in the ledger, and the next cycle
      over the same page submits nothing. */
  lemma TwoCodeScenario(now1: string, server2: Server, now2: string)
    ensures var page := Table([ Row([Cell([])]),
                                Row([Cell(["ABC123"]), Cell(["x", "y"])]),
                                Row([Cell(["OLD1", "OLD2"])]),
                                Row([Cell(["XYZ999"])]) ]);
            var server1: Server := (n: nat, c: string) =>
              if c == "ABC123" then Body(JObj(map["resultCode" := JNum(0)]))
              else Body(JObj(map["resultCode" := JNum(-20006)]));
            var r1 := Cycle(map[], page, server1, now1);
            && r1.attempts == [Attempt("ABC123", Success), Attempt("XYZ999", Expired)]
            && r1.ledger == map["ABC123" := now1, "XYZ999" := now1]
            && Cycle(r1.ledger, page, server2, now2) == Start(r1.ledger)
  {
    var page := Table([ Row([Cell([])]),
                        Row([Cell(["ABC123"]), Cell(["x", "y"])]),
                        Row([Cell(["OLD1", "OLD2"])]),
                        Row([Cell(["XYZ999"])]) ]);
    var server1: Server := (n: nat, c: string) =>
      if c == "ABC123" then Body(JObj(map["resultCode" := JNum(0)]))
      else Body(JObj(map["resultCode" := JNum(-20006)]));
    var rows := page.rows;
    assert AvailableCoupons(page) == ["ABC123", "XYZ999"] by {
      assert rows[1..][1..][1..][1..] == [];
    }
    ClassifyIntegerCode(map["resultCode" := JNum(0)], 0);
    ClassifyIntegerCode(map["resultCode" := JNum(-20006)], -20006);
    var r1 := Cycle(map[], page, server1, now1);
    var codes: seq<string> := ["ABC123", "XYZ999"];
    assert codes[1..][1..] == [];
    RunAllRedeemed(Start(r1.ledger), codes, server2, now2);
  }
}
