// The session key and the reference of a deposit are read by two queries, with anything in
// between. When they name one checkout, and a run in which they do not.

module DepositBinding {
  import opened Text
  import opened Checkout
  import opened CheckoutRuns

  /** No row was created in the future. */
  ghost predicate ClockRight(s: System) {
    forall j :: 0 <= j < |s.rows| ==> s.rows[j].createdAt <= s.now
  }

  lemma StepKeepsClock(s: System, step: Step)
    requires ClockRight(s) && Enabled(s, step)
    ensures ClockRight(Do(s, step))
  {}

  lemma {:induction false} ClockStaysRight(s: System, steps: seq<Step>)
    requires ClockRight(s) && Legal(s, steps)
    ensures ClockRight(Run(s, steps))
  {
    if steps != [] {
      ClockStaysRight(s, steps[..|steps| - 1]);
      StepKeepsClock(Run(s, steps[..|steps| - 1]), steps[|steps| - 1]);
    }
  }

  // ---- What time does to the rows ----------------------------------------------------

  /** A row keeps its wallet and session, only gets younger, and never becomes created again. */
  predicate SameCheckout(before: Tx, after: Tx) {
    && after.wallet == before.wallet && before.createdAt <= after.createdAt
    && after.sessionKey == before.sessionKey && after.reference == before.reference
    && (after.status == Created && !after.deleted ==> after == before.(createdAt := after.createdAt))
  }

  /** Since s the row was opened, or its date was renewed. */
  predicate Renewed(s: System, t: System, j: nat)
    requires j < |t.rows|
  {
    j >= |s.rows| || t.rows[j].createdAt != s.rows[j].createdAt
  }

  /** From s to t old rows stay the same checkouts; rows that are new, or dated anew, are no older than s. */
  ghost predicate Evolved(s: System, t: System) {
    && |s.rows| <= |t.rows| && s.now <= t.now
    && (forall j :: 0 <= j < |s.rows| ==> SameCheckout(s.rows[j], t.rows[j]))
    && (forall j :: 0 <= j < |t.rows| && Renewed(s, t, j) ==> s.now <= t.rows[j].createdAt)
  }

  lemma StepKeepsRow(s: System, step: Step, j: nat)
    requires ClockRight(s) && Enabled(s, step) && j < |s.rows|
    ensures var t := Do(s, step);
            && |s.rows| <= |t.rows| && s.now <= t.now && SameCheckout(s.rows[j], t.rows[j])
            && (t.rows[j].createdAt != s.rows[j].createdAt ==> t.rows[j].createdAt == s.now)
  {}

  lemma StepAddsRow(s: System, step: Step)
    requires Enabled(s, step)
    ensures var t := Do(s, step);
            && |s.rows| <= |t.rows| && s.now <= t.now
            && forall j :: |s.rows| <= j < |t.rows| ==> t.rows[j].createdAt == s.now
  {}

  lemma StepEvolves(s: System, step: Step)
    requires ClockRight(s) && Enabled(s, step)
    ensures Evolved(s, Do(s, step))
  {
    StepAddsRow(s, step);
    forall j | 0 <= j < |s.rows|
      ensures SameCheckout(s.rows[j], Do(s, step).rows[j])
      ensures Renewed(s, Do(s, step), j) ==> s.now <= Do(s, step).rows[j].createdAt
    {
      StepKeepsRow(s, step, j);
    }
  }

  lemma EvolvedTwice(s: System, t: System, u: System)
    requires Evolved(s, t) && Evolved(t, u)
    ensures Evolved(s, u)
  {
    forall j | 0 <= j < |s.rows|
      ensures SameCheckout(s.rows[j], u.rows[j])
    {
      assert SameCheckout(s.rows[j], t.rows[j]) && SameCheckout(t.rows[j], u.rows[j]);
    }
    forall j | 0 <= j < |u.rows| && Renewed(s, u, j)
      ensures s.now <= u.rows[j].createdAt
    {
      if !Renewed(t, u, j) {
        assert Renewed(s, t, j);
      }
    }
  }

  lemma {:induction false} RunEvolves(s: System, steps: seq<Step>)
    requires ClockRight(s) && Legal(s, steps)
    ensures Evolved(s, Run(s, steps))
  {
    if steps != [] {
      var t := Run(s, steps[..|steps| - 1]);
      RunEvolves(s, steps[..|steps| - 1]);
      ClockStaysRight(s, steps[..|steps| - 1]);
      StepEvolves(t, steps[|steps| - 1]);
      EvolvedTwice(s, t, Run(s, steps));
    }
  }

  // ---- The newest checkout over time -------------------------------------------------

  /** Another open checkout of the wallet and payer, renewed since s, comes after row i. */
  ghost predicate Overtaken(s: System, t: System, wallet: nat, payer: Option<nat>, i: Option<nat>)
    requires i.Some? ==> i.value < |t.rows|
  {
    exists j :: 0 <= j < |t.rows| && Some(j) != i && Open(t.rows[j], wallet, payer) && Renewed(s, t, j)
      && (i.Some? ==> NoLater(t.rows, i.value, j))
  }

  /** The order leaves no ties, so only one row is the newest. */
  lemma NewestIs(s: System, wallet: nat, payer: Option<nat>, i: nat)
    requires i < |s.rows| && Open(s.rows[i], wallet, payer)
    requires forall j :: 0 <= j < |s.rows| && Open(s.rows[j], wallet, payer) ==> NoLater(s.rows, j, i)
    ensures NewestAt(s, wallet, payer) == Some(i)
  {
    NewestIsNewest(s.rows, wallet, payer, |s.rows|);
  }

  /**
   * The newest open checkout is still the newest exactly while it is open and no other
   * open one, opened or dated anew since, comes after it; and if there was none, there is
   * none exactly while nothing opened since is open.
   */
  lemma NewestStaysIff(s: System, t: System, wallet: nat, payer: Option<nat>)
    requires ClockRight(s) && Evolved(s, t)
    ensures var i := NewestAt(s, wallet, payer);
            NewestAt(t, wallet, payer) == i <==>
            (i.Some? ==> Open(t.rows[i.value], wallet, payer)) && !Overtaken(s, t, wallet, payer, i)
  {
    var i := NewestAt(s, wallet, payer);
    NewestIsNewest(s.rows, wallet, payer, |s.rows|);
    NewestIsNewest(t.rows, wallet, payer, |t.rows|);
    if NewestAt(t, wallet, payer) == i {
      if i.Some? {
        OnlyOneIsNewest(t.rows, i.value);
      }
    } else if i.Some? && Open(t.rows[i.value], wallet, payer) {
      var n := NewestAt(t, wallet, payer).value;
      AfterWasRenewed(s, t, wallet, payer, i.value, n);
    } else if i.None? {
      var n := NewestAt(t, wallet, payer).value;
      OldOpenWasOpen(s, t, wallet, payer, n);
    }
  }

  lemma OnlyOneIsNewest(rows: Rows, i: nat)
    requires i < |rows|
    ensures forall j :: 0 <= j < |rows| && j != i && NoLater(rows, j, i) ==> !NoLater(rows, i, j)
  {}

  lemma OldOpenWasOpen(s: System, t: System, wallet: nat, payer: Option<nat>, j: nat)
    requires Evolved(s, t) && j < |t.rows| && Open(t.rows[j], wallet, payer)
    ensures j < |s.rows| ==> Open(s.rows[j], wallet, payer)
  {
    if j < |s.rows| {
      assert SameCheckout(s.rows[j], t.rows[j]);
    }
  }

  /** A row now after the one that was newest was renewed. */
  lemma AfterWasRenewed(s: System, t: System, wallet: nat, payer: Option<nat>, i: nat, n: nat)
    requires Evolved(s, t) && i < |s.rows| && n < |t.rows| && i != n
    requires forall j :: 0 <= j < |s.rows| && Open(s.rows[j], wallet, payer) ==> NoLater(s.rows, j, i)
    requires Open(t.rows[n], wallet, payer) && NoLater(t.rows, i, n)
    ensures Renewed(s, t, n)
  {
    OldOpenWasOpen(s, t, wallet, payer, n);
    assert SameCheckout(s.rows[i], t.rows[i]);
    if n < |s.rows| {
      assert NoLater(s.rows, n, i);
    }
  }

  // ---- One deposit's two reads -------------------------------------------------------

  /** The step is another deposit's or none's. */
  predicate Leaves(step: Step, d: nat) {
    (step.ReadKey? ==> step.draft != d) && (step.ReadReference? ==> step.draft != d)
  }

  lemma DraftKeptOnce(s: System, step: Step, d: nat)
    requires d in s.drafts && Leaves(step, d)
    ensures d in Do(s, step).drafts && Do(s, step).drafts[d] == s.drafts[d]
  {}

  lemma {:induction false} DraftKept(s: System, steps: seq<Step>, d: nat)
    requires d in s.drafts && forall k :: 0 <= k < |steps| ==> Leaves(steps[k], d)
    ensures d in Run(s, steps).drafts && Run(s, steps).drafts[d] == s.drafts[d]
  {
    if steps != [] {
      DraftKept(s, steps[..|steps| - 1], d);
      DraftKeptOnce(Run(s, steps[..|steps| - 1]), steps[|steps| - 1], d);
    }
  }

  lemma ReadingKeepsRows(s: System, d: nat, wallet: nat, payer: Option<nat>)
    ensures var read := Do(s, ReadKey(d, wallet, payer)); var i := NewestAt(s, wallet, payer);
            && read.rows == s.rows && read.now == s.now
            && read.drafts == s.drafts[d := Draft(wallet, payer, i, SessionKeyAt(s, i), None, None)]
  {}

  lemma EvolvedFrom(s: System, read: System, t: System)
    requires read.rows == s.rows && read.now == s.now && Evolved(read, t)
    ensures Evolved(s, t)
  {
    forall j | 0 <= j < |t.rows| && Renewed(s, t, j)
      ensures s.now <= t.rows[j].createdAt
    {
      assert Renewed(read, t, j);
    }
  }

  /** The state at the second read. */
  function SecondRead(s: System, d: nat, wallet: nat, payer: Option<nat>, between: seq<Step>): System {
    Run(Do(s, ReadKey(d, wallet, payer)), between)
  }

  lemma KeyReadKept(s: System, d: nat, wallet: nat, payer: Option<nat>, between: seq<Step>)
    requires ClockRight(s) && forall k :: 0 <= k < |between| ==> Leaves(between[k], d)
    requires Legal(Do(s, ReadKey(d, wallet, payer)), between)
    ensures var t, i := SecondRead(s, d, wallet, payer, between), NewestAt(s, wallet, payer);
            && Evolved(s, t) && d in t.drafts
            && t.drafts[d] == Draft(wallet, payer, i, SessionKeyAt(s, i), None, None)
  {
    var read := Do(s, ReadKey(d, wallet, payer));
    ReadingKeepsRows(s, d, wallet, payer);
    DraftKept(read, between, d);
    RunEvolves(read, between);
    EvolvedFrom(s, read, SecondRead(s, d, wallet, payer, between));
  }

  lemma SessionKept(s: System, t: System, i: Option<nat>)
    requires Evolved(s, t) && (i.Some? ==> i.value < |s.rows|)
    ensures SessionKeyAt(t, i) == SessionKeyAt(s, i) && ReferenceAt(t, i) == ReferenceAt(s, i)
  {
    if i.Some? {
      assert SameCheckout(s.rows[i.value], t.rows[i.value]);
    }
  }

  /**
   * Whatever happens between the two reads, they come from one checkout exactly when the
   * row the key came from is still open at the second read and no other open checkout of
   * that wallet and payer, opened or dated anew in between, comes after it. Then both
   * values are that checkout's own.
   */
  lemma OneCheckoutForBothIff(s: System, d: nat, wallet: nat, payer: Option<nat>, between: seq<Step>)
    requires ClockRight(s) && forall k :: 0 <= k < |between| ==> Leaves(between[k], d)
    requires Legal(Do(s, ReadKey(d, wallet, payer)), between)
    ensures var i := NewestAt(s, wallet, payer);
            var t := SecondRead(s, d, wallet, payer, between);
            var u := Do(t, ReadReference(d));
            && |s.rows| <= |t.rows| && d in u.drafts && u.drafts[d].keyRow == i
            && (u.drafts[d].referenceRow == i <==>
                  (i.Some? ==> Open(t.rows[i.value], wallet, payer)) && !Overtaken(s, t, wallet, payer, i))
            && u.drafts[d].key == SessionKeyAt(u, i)
            && (u.drafts[d].referenceRow == i ==> u.drafts[d].reference == ReferenceAt(u, i))
  {
    var t := SecondRead(s, d, wallet, payer, between);
    KeyReadKept(s, d, wallet, payer, between);
    NewestStaysIff(s, t, wallet, payer);
    SessionKept(s, t, NewestAt(s, wallet, payer));
  }

  const FIRST := Tx(0, None, Created, PREFIX, "0", 0, false, Some("key-a"), Some("ref-a"))
  const SECOND := Tx(0, None, Created, PREFIX, "0", 0, false, Some("key-b"), Some("ref-b"))

  lemma OneOpen() returns (steps: seq<Step>)
    ensures Legal(EMPTY, steps) && Run(EMPTY, steps) == EMPTY.(rows := [FIRST])
  {
    steps := [NewCheckout(FIRST)];
    assert [] + [NewCheckout(FIRST)] == steps;
    Extend(EMPTY, [], NewCheckout(FIRST));
  }

  lemma BothOpen() returns (steps: seq<Step>)
    ensures Legal(EMPTY, steps) && Run(EMPTY, steps) == EMPTY.(rows := [FIRST, SECOND])
  {
    steps := OneOpen();
    Extend(EMPTY, steps, NewCheckout(SECOND));
    steps := steps + [NewCheckout(SECOND)];
  }

  /** A read of the key, and of the reference, in a run whose newest open checkout is row i. */
  lemma KeyFrom(steps: seq<Step>, i: nat) returns (more: seq<Step>)
    requires Legal(EMPTY, steps) && NewestAt(Run(EMPTY, steps), 0, None) == Some(i)
    ensures var s := Run(EMPTY, steps);
            && Legal(EMPTY, more) && i < |s.rows|
            && Run(EMPTY, more) ==
               s.(drafts := s.drafts[0 := Draft(0, None, Some(i), NonEmpty(s.rows[i].sessionKey), None, None)])
  {
    Extend(EMPTY, steps, ReadKey(0, 0, None));
    more := steps + [ReadKey(0, 0, None)];
  }

  lemma ReferenceFrom(steps: seq<Step>, i: nat) returns (more: seq<Step>)
    requires Legal(EMPTY, steps) && NewestAt(Run(EMPTY, steps), 0, None) == Some(i)
    requires 0 in Run(EMPTY, steps).drafts && Run(EMPTY, steps).drafts[0].wallet == 0
    requires Run(EMPTY, steps).drafts[0].payer == None
    ensures var s := Run(EMPTY, steps);
            && Legal(EMPTY, more) && i < |s.rows| && 0 in Run(EMPTY, more).drafts && Run(EMPTY, more).rows == s.rows
            && Run(EMPTY, more).drafts[0] ==
               s.drafts[0].(referenceRow := Some(i), reference := NonEmpty(s.rows[i].reference))
  {
    Extend(EMPTY, steps, ReadReference(0));
    more := steps + [ReadReference(0)];
  }

  /** It happens: a checkout opened between the reads pairs one checkout's key with the other's reference. */
  lemma ReadsCanMix() returns (steps: seq<Step>)
    ensures Legal(EMPTY, steps) && 0 in Run(EMPTY, steps).drafts
    ensures Run(EMPTY, steps).drafts[0] == Draft(0, None, Some(0), Some("key-a"), Some(1), Some("ref-b"))
  {
    steps := OneOpen();
    NewestIs(Run(EMPTY, steps), 0, None, 0);
    steps := KeyFrom(steps, 0);
    Extend(EMPTY, steps, NewCheckout(SECOND));
    steps := steps + [NewCheckout(SECOND)];
    NewestIs(Run(EMPTY, steps), 0, None, 1);
    steps := ReferenceFrom(steps, 1);
  }

  /** The payer asks again for the older of two open checkouts. */
  lemma ThenRefreshed(steps: seq<Step>) returns (more: seq<Step>)
    requires Legal(EMPTY, steps) && Run(EMPTY, steps).rows == [FIRST, SECOND] && Run(EMPTY, steps).now == 0
    ensures Legal(EMPTY, more) && Run(EMPTY, more).rows == [FIRST.(createdAt := 1), SECOND]
    ensures Run(EMPTY, more).drafts == Run(EMPTY, steps).drafts
  {
    Extend(EMPTY, steps, Tick(1));
    more := steps + [Tick(1)];
    Extend(EMPTY, more, Edit(0, Refresh));
    more := more + [Edit(0, Refresh)];
  }

  /**
   * Nothing new needs to be opened: the key is read from the newer of two open checkouts,
   * the payer asks again for the older, and the reference is read from that one.
   */
  lemma RefreshCanMix() returns (steps: seq<Step>)
    ensures Legal(EMPTY, steps) && 0 in Run(EMPTY, steps).drafts && |Run(EMPTY, steps).rows| == 2
    ensures Run(EMPTY, steps).drafts[0] == Draft(0, None, Some(1), Some("key-b"), Some(0), Some("ref-a"))
  {
    steps := BothOpen();
    NewestIs(Run(EMPTY, steps), 0, None, 1);
    steps := KeyFrom(steps, 1);
    steps := ThenRefreshed(steps);
    NewestIs(Run(EMPTY, steps), 0, None, 0);
    steps := ReferenceFrom(steps, 0);
  }
}
