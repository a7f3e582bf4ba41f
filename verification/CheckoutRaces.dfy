// What a failed checkout and a payment written to a row have to fear: deposits that read the
// row earlier and are still to write. And runs in which the races happen.

module CheckoutRaces {
  import opened Text
  import opened Checkout
  import opened CheckoutRuns

  // ---- What the steps do -------------------------------------------------------------

  /**
   * A pass fails the next row of its batch exactly if that is still an undeleted placeholder
   * that waits for payment, and was opened or asked for again more than the pass's hours,
   * of which there is at least one, before the pass started. Nothing else changes.
   */
  lemma PassFailsNextIff(s: System, p: nat)
    requires Enabled(s, MarkNext(p))
    ensures var pass, t := s.passes[p], Do(s, MarkNext(p));
            var id := pass.batch[0];
            && (forall j :: 0 <= j < |s.rows| && j != id ==> |t.rows| == |s.rows| && t.rows[j] == s.rows[j])
            && (0 <= id < |s.rows| ==>
                  t.rows[id] == if TooOld(s.rows[id], pass) then s.rows[id].(status := Failed) else s.rows[id])
            && t.passes == s.passes[p := pass.(batch := pass.batch[1..])]
            && t.drafts == s.drafts && t.claims == s.claims && t.now == s.now
            && t.events == if 0 <= id < |s.rows| && TooOld(s.rows[id], pass)
                           then s.events + [MarkedFailed(id, s.rows[id], s.now, pass.hours)] else s.events
  {
    if 0 <= s.passes[p].batch[0] < |s.rows| {
      StaleIs(s.rows[s.passes[p].batch[0]], s.passes[p].Cutoff());
    }
  }

  ghost predicate TooOld(tx: Tx, pass: Pass) {
    && !tx.deleted && "gateway-created:" <= tx.txHash
    && (tx.status == Created || (tx.status == Pending && ZeroAmount(tx.amount)))
    && tx.createdAt + 3_600_000 < pass.startedAt && tx.createdAt + pass.hours * 3_600_000 < pass.startedAt
  }

  /** A deposit's write replaces hash, amount and status of the row it read, and the payer if it knows one; no more. */
  lemma WriteReplaces(s: System, c: nat, txHash: string, amount: string, status: Status, payer: Option<nat>)
    requires c in s.claims && s.claims[c].target < |s.rows|
    ensures var id, t := s.claims[c].target, Do(s, WriteClaim(c, txHash, amount, status, payer));
            && |t.rows| == |s.rows| && (forall j :: 0 <= j < |s.rows| && j != id ==> t.rows[j] == s.rows[j])
            && t.claims == s.claims - {c} && t.events == s.events + [Claimed(id, s.claims[c].seen)]
            && var a, b := s.rows[id], t.rows[id];
               && b.txHash == txHash && b.amount == amount && b.status == status
               && b.payer == (if payer.Some? then payer else a.payer)
               && b.wallet == a.wallet && b.createdAt == a.createdAt && b.deleted == a.deleted
               && b.sessionKey == a.sessionKey && b.reference == a.reference
  {}

  /**
   * Nothing but these things holds a step back: a placeholder is read while it waits, an
   * on-chain row of any of three statuses is added, a checkout is opened, dated anew at
   * will, removed or stuck while it is created, and on-chain rows go on being confirmed.
   */
  lemma StepsArePossible(s: System, id: nat, tx: Tx, status: Status)
    requires id < |s.rows| && tx.createdAt == s.now && !tx.deleted
    ensures var row := s.rows[id];
      && Enabled(s, Edit(id, Refresh)) && Do(s, Edit(id, Refresh)).rows == s.rows[id := row.(createdAt := s.now)]
      && (row.status == Created ==>
            Enabled(s, Edit(id, SoftRemove)) && Do(s, Edit(id, SoftRemove)).rows == s.rows[id := row.(deleted := true)])
      && (row.status == Created && PREFIX <= row.txHash ==>
            && Enabled(s, Edit(id, GetStuck))
            && Do(s, Edit(id, GetStuck)).rows == s.rows[id := row.(status := Pending, amount := "0")])
      && (status != Created && !(PREFIX <= row.txHash) ==>
            && Enabled(s, Edit(id, Progress(status)))
            && Do(s, Edit(id, Progress(status))).rows == s.rows[id := row.(status := status)])
      && (!row.deleted && PREFIX <= row.txHash && row.status == Created ==> forall c :: Enabled(s, ReadClaim(c, id)))
      && (!row.deleted && PREFIX <= row.txHash && row.status == Pending && row.amount == "0" ==>
            forall c :: Enabled(s, ReadClaim(c, id)))
    ensures forall c :: Do(s, ReadClaim(c, id)) == s.(claims := s.claims[c := Claim(id, |s.events|)])
    ensures forall p, hours, size ::
      && Enabled(s, StartPass(p, hours, size))
      && Do(s, StartPass(p, hours, size)) == s.(passes := s.passes[p := Pass(s.now, hours, size, [])])
    ensures tx.status == Created && PREFIX <= tx.txHash ==>
      Enabled(s, NewCheckout(tx)) && Do(s, NewCheckout(tx)).rows == s.rows + [tx]
    ensures tx.status in {Success, Pending, Underpaid} && !(PREFIX <= tx.txHash) ==>
      Enabled(s, InsertOnChain(tx)) && Do(s, InsertOnChain(tx)).rows == s.rows + [tx]
  {
    TrimSpacesIs(0, "0", 0);
    assert Spaces(0) + "0" + Spaces(0) == "0";
  }

  /** Nor is anything else held back that a pass, a deposit or the clock does on its own. */
  lemma ProcessesGoOn(s: System, p: nat, c: nat, d: nat, ms: nat, wallet: nat, payer: Option<nat>)
    ensures Enabled(s, Tick(ms)) && Do(s, Tick(ms)) == s.(now := s.now + ms)
    ensures Enabled(s, ReadKey(d, wallet, payer)) && (d in s.drafts ==> Enabled(s, ReadReference(d)))
    ensures p in s.passes ==>
      && (s.passes[p].batch != [] ==> Enabled(s, MarkNext(p)))
      && forall ids :: IsBatch(s.rows, s.passes[p].Cutoff(), s.passes[p].size, ids) ==>
           && Enabled(s, FindStale(p, ids))
           && Do(s, FindStale(p, ids)) == s.(passes := s.passes[p := s.passes[p].(batch := ids)])
    ensures c in s.claims ==>
      forall txHash, amount, status | status in {Success, Pending, Underpaid} && !(PREFIX <= txHash) ::
        Enabled(s, WriteClaim(c, txHash, amount, status, payer))
  {}

  // ---- Whether a failed checkout stays failed ----------------------------------------

  /** Some deposit has read the row and not yet written it. */
  ghost predicate Targeted(s: System, id: nat) {
    exists c :: c in s.claims && s.claims[c].target == id
  }

  lemma UntargetedStep(s: System, step: Step, id: nat)
    requires Failing(s, id) && !Targeted(s, id) && Enabled(s, step)
    ensures Failing(Do(s, step), id) && !Targeted(Do(s, step), id)
  {
    var t := Do(s, step);
    forall c | c in t.claims
      ensures t.claims[c].target != id
    {
      if step.ReadClaim? && step.claim == c {
        assert Waiting(s.rows[step.target]);
      } else {
        assert c in s.claims && t.claims[c] == s.claims[c];
      }
    }
  }

  lemma {:induction false} UntargetedRun(s: System, more: seq<Step>, id: nat)
    requires Failing(s, id) && !Targeted(s, id) && Legal(s, more)
    ensures Failing(Run(s, more), id) && !Targeted(Run(s, more), id)
  {
    if more != [] {
      UntargetedRun(s, more[..|more| - 1], id);
      UntargetedStep(Run(s, more[..|more| - 1]), more[|more| - 1], id);
    }
  }

  /**
   * A deposit overwrites its placeholder by id alone, so a row already failed, and
   * announced as failed, can still become a payment. It stays failed, whatever happens
   * next, exactly when no deposit that has read it is still to write.
   */
  lemma StaysFailedIff(s: System, id: nat)
    requires Failing(s, id)
    ensures (forall more :: Legal(s, more) ==> Failing(Run(s, more), id)) <==> !Targeted(s, id)
  {
    if Targeted(s, id) {
      var c :| c in s.claims && s.claims[c].target == id;
      var step := WriteClaim(c, "0x", "5", Success, None);
      assert "0x"[1] != PREFIX[1];
      Extend(s, [], step);
      assert [] + [step] == [step];
      assert Run(s, [step]).rows[id].status == Success;
    } else {
      forall more | Legal(s, more)
        ensures Failing(Run(s, more), id)
      {
        UntargetedRun(s, more, id);
      }
    }
  }

  // ---- Whether a claimed row stays the deposit's -------------------------------------

  /** The row is on chain and carries this payment. */
  predicate Carries(s: System, id: nat, txHash: string, amount: string) {
    id < |s.rows| && !Placeholder(s.rows[id]) && s.rows[id].txHash == txHash && s.rows[id].amount == amount
  }

  lemma UntargetedPaymentStep(s: System, step: Step, id: nat, txHash: string, amount: string)
    requires Carries(s, id, txHash, amount) && !Targeted(s, id) && Enabled(s, step)
    ensures Carries(Do(s, step), id, txHash, amount) && !Targeted(Do(s, step), id)
  {
    var t := Do(s, step);
    forall c | c in t.claims
      ensures t.claims[c].target != id
    {
      if step.ReadClaim? && step.claim == c {
        assert Placeholder(s.rows[step.target]);
      } else {
        assert c in s.claims && t.claims[c] == s.claims[c];
      }
    }
  }

  lemma {:induction false} UntargetedPaymentRun(s: System, more: seq<Step>, id: nat, txHash: string, amount: string)
    requires Carries(s, id, txHash, amount) && !Targeted(s, id) && Legal(s, more)
    ensures Carries(Run(s, more), id, txHash, amount) && !Targeted(Run(s, more), id)
  {
    if more != [] {
      UntargetedPaymentRun(s, more[..|more| - 1], id, txHash, amount);
      UntargetedPaymentStep(Run(s, more[..|more| - 1]), more[|more| - 1], id, txHash, amount);
    }
  }

  /**
   * A deposit's payment stays in the row it wrote, whatever happens next, exactly when no
   * other deposit that has read the row is still to write.
   */
  lemma PaymentStaysIff(s: System, id: nat, txHash: string, amount: string)
    requires Carries(s, id, txHash, amount)
    ensures (forall more :: Legal(s, more) ==> Carries(Run(s, more), id, txHash, amount)) <==> !Targeted(s, id)
  {
    if Targeted(s, id) {
      var c :| c in s.claims && s.claims[c].target == id;
      var other := if txHash == "0x" then "0y" else "0x";
      var step := WriteClaim(c, other, "5", Success, None);
      assert other[1] != PREFIX[1];
      Extend(s, [], step);
      assert [] + [step] == [step];
      assert Run(s, [step]).rows[id].txHash == other;
    } else {
      forall more | Legal(s, more)
        ensures Carries(Run(s, more), id, txHash, amount)
      {
        UntargetedPaymentRun(s, more, id, txHash, amount);
      }
    }
  }

  /** Looking back: a marked row is still failed exactly if no deposit wrote it, and any that did had read it before. */
  lemma FailedUnlessWritten(start: System, steps: seq<Step>, id: nat)
    requires Quiet(start) && Legal(start, steps) && Marks(Run(start, steps).events, id) > 0
    ensures Failing(Run(start, steps), id) <==> Claims(Run(start, steps).events, id) == 0
    ensures forall i: nat, j: nat :: i < |Run(start, steps).events| && j < |Run(start, steps).events| ==>
              var m, c := Run(start, steps).events[i], Run(start, steps).events[j];
              m.MarkedFailed? && c.Claimed? && m.id == c.id == id ==> c.seen <= i < j
  {
    RunKeeps(start, steps);
    var s := Run(start, steps);
    var events := s.events;
    forall i: nat, j: nat |
        i < |events| && j < |events| && events[i].MarkedFailed? && events[j].Claimed?
          && events[i].id == events[j].id == id
      ensures events[j].seen <= i < j
    {
      assert ReadEarly(events, Claim(events[j].id, events[j].seen), |s.rows|, j);
      assert Rightful(events, i, s.now);
      if j < i {
        ClaimCounted(events[..i], j);
      }
    }
  }

  lemma {:induction false} ClaimCounted(events: seq<Event>, j: nat)
    requires j < |events| && events[j].Claimed?
    ensures Claims(events, events[j].id) > 0
  {
    if j < |events| - 1 {
      ClaimCounted(events[..|events| - 1], j);
    }
  }

  // ---- Runs in which it happens ------------------------------------------------------

  const UNPAID := Tx(0, None, Created, PREFIX, "0", 0, false, None, None)

  /** A checkout an hour old that a deposit has read; an expiry pass with a one-hour limit starts. */
  lemma HourLater() returns (steps: seq<Step>)
    ensures Legal(EMPTY, steps)
    ensures Run(EMPTY, steps) ==
            System(HOUR_MS + 1, [UNPAID], map[0 := Pass(HOUR_MS + 1, 1, 80, [])], map[], map[0 := Claim(0, 0)], [])
  {
    steps := [];
    Extend(EMPTY, steps, NewCheckout(UNPAID));
    steps := steps + [NewCheckout(UNPAID)];
    assert Run(EMPTY, steps) == EMPTY.(rows := [UNPAID]);
    Extend(EMPTY, steps, Tick(HOUR_MS + 1));
    steps := steps + [Tick(HOUR_MS + 1)];
    assert Run(EMPTY, steps) == EMPTY.(now := HOUR_MS + 1, rows := [UNPAID]);
    Extend(EMPTY, steps, ReadClaim(0, 0));
    steps := steps + [ReadClaim(0, 0)];
    assert Run(EMPTY, steps) == EMPTY.(now := HOUR_MS + 1, rows := [UNPAID], claims := map[0 := Claim(0, 0)]);
    Extend(EMPTY, steps, StartPass(0, 1, 80));
    steps := steps + [StartPass(0, 1, 80)];
  }

  lemma OneStale()
    ensures IsBatch([UNPAID], 1, 80, [0])
  {
    assert Stale(UNPAID, 1);
  }

  /** The pass finds the checkout. */
  lemma ThenFound() returns (steps: seq<Step>)
    ensures Legal(EMPTY, steps) && |steps| >= 1 && steps[|steps| - 1] == FindStale(0, [0])
    ensures Run(EMPTY, steps) ==
            System(HOUR_MS + 1, [UNPAID], map[0 := Pass(HOUR_MS + 1, 1, 80, [0])], map[], map[0 := Claim(0, 0)], [])
  {
    var before := HourLater();
    assert Run(EMPTY, before).passes[0].Cutoff() == 1;
    OneStale();
    Extend(EMPTY, before, FindStale(0, [0]));
    steps := before + [FindStale(0, [0])];
  }

  /** The pass fails the checkout. */
  lemma ThenFailed() returns (steps: seq<Step>)
    ensures Legal(EMPTY, steps)
    ensures Run(EMPTY, steps).rows == [UNPAID.(status := Failed)] && Run(EMPTY, steps).claims == map[0 := Claim(0, 0)]
    ensures Run(EMPTY, steps).events == [MarkedFailed(0, UNPAID, HOUR_MS + 1, 1)]
  {
    steps := ThenFound();
    Extend(EMPTY, steps, MarkNext(0));
    steps := steps + [MarkNext(0)];
  }

  /**
   * The race is real: a deposit reads a placeholder, the expiry pass fails it after its
   * hour is over, the deposit's write turns it into a success.
   */
  lemma LateDepositOverwritesFailure() returns (steps: seq<Step>)
    ensures Legal(EMPTY, steps) && |Run(EMPTY, steps).rows| == 1
    ensures Marks(Run(EMPTY, steps).events, 0) == 1 && Run(EMPTY, steps).rows[0].status == Success
  {
    steps := ThenFailed();
    Extend(EMPTY, steps, WriteClaim(0, "0x", "5", Success, None));
    steps := steps + [WriteClaim(0, "0x", "5", Success, None)];
    OneMark(MarkedFailed(0, UNPAID, HOUR_MS + 1, 1), Claimed(0, 0));
  }

  lemma OneMark(mark: Event, claim: Event)
    requires mark.MarkedFailed? && mark.id == 0 && claim.Claimed?
    ensures Marks([mark] + [claim], 0) == 1
  {
    CountsAppend([], mark, 0);
    assert [] + [mark] == [mark];
    CountsAppend([mark], claim, 0);
  }

  /** The checkout is in the pass's batch when the payer asks for it again. */
  lemma RefreshedInBatch() returns (steps: seq<Step>)
    ensures Legal(EMPTY, steps) && |steps| >= 2 && steps[|steps| - 2..] == [FindStale(0, [0]), Edit(0, Refresh)]
    ensures var s := Run(EMPTY, steps);
            && s.rows == [UNPAID.(createdAt := HOUR_MS + 1)] && s.events == []
            && s.passes == map[0 := Pass(HOUR_MS + 1, 1, 80, [0])]
  {
    steps := ThenFound();
    Extend(EMPTY, steps, Edit(0, Refresh));
    steps := steps + [Edit(0, Refresh)];
  }

  /** A refresh between snapshot and mark saves the checkout: the guarded update finds it young again. */
  lemma RefreshedIsNotFailed() returns (steps: seq<Step>)
    ensures Legal(EMPTY, steps) && |steps| >= 3
    ensures steps[|steps| - 3..] == [FindStale(0, [0]), Edit(0, Refresh), MarkNext(0)]
    ensures Run(EMPTY, steps).rows == [UNPAID.(createdAt := HOUR_MS + 1)] && Run(EMPTY, steps).events == []
  {
    var before := RefreshedInBatch();
    var s := Run(EMPTY, before);
    assert s.passes[0].Cutoff() == 1 && !Stale(s.rows[0], 1);
    Extend(EMPTY, before, MarkNext(0));
    steps := before + [MarkNext(0)];
    assert steps[|steps| - 3..] == before[|before| - 2..] + [MarkNext(0)];
  }

  lemma TwoHaveRead() returns (steps: seq<Step>)
    ensures Legal(EMPTY, steps)
    ensures Run(EMPTY, steps) == EMPTY.(rows := [UNPAID], claims := map[0 := Claim(0, 0), 1 := Claim(0, 0)])
  {
    var one := EMPTY.(rows := [UNPAID]);
    steps := [];
    Extend(EMPTY, steps, NewCheckout(UNPAID));
    steps := steps + [NewCheckout(UNPAID)];
    assert Run(EMPTY, steps) == one;
    Extend(EMPTY, steps, ReadClaim(0, 0));
    steps := steps + [ReadClaim(0, 0)];
    assert Run(EMPTY, steps) == one.(claims := map[0 := Claim(0, 0)]);
    Extend(EMPTY, steps, ReadClaim(1, 0));
    steps := steps + [ReadClaim(1, 0)];
  }

  /** Two deposits read one placeholder and both write it: the first payment's hash and amount are gone. */
  lemma SecondDepositOverwritesFirst() returns (steps: seq<Step>)
    ensures Legal(EMPTY, steps) && |Run(EMPTY, steps).rows| == 1
    ensures Run(EMPTY, steps).events == [Claimed(0, 0), Claimed(0, 0)]
    ensures Run(EMPTY, steps).rows[0].txHash == "0xb" && Run(EMPTY, steps).rows[0].amount == "7"
  {
    steps := TwoHaveRead();
    Extend(EMPTY, steps, WriteClaim(0, "0xa", "5", Success, None));
    steps := steps + [WriteClaim(0, "0xa", "5", Success, None)];
    assert Run(EMPTY, steps).claims[1] == Claim(0, 0) && Run(EMPTY, steps).events == [Claimed(0, 0)];
    Extend(EMPTY, steps, WriteClaim(1, "0xb", "7", Success, None));
    steps := steps + [WriteClaim(1, "0xb", "7", Success, None)];
  }
}
