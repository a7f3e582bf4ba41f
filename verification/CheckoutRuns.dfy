// Checkout placeholders under concurrency: expiry passes (a snapshot, then one guarded
// update per row), deposits that read a session key, a reference and a placeholder one
// after the other and later overwrite the placeholder by id, new checkouts and passing
// time, interleaved in every order.

module CheckoutRuns {
  import opened Text
  import opened Checkout

  const HOUR_MS := 3_600_000

  /** An expiry pass in progress; the cutoff is fixed when it starts. */
  datatype Pass = Pass(startedAt: int, hours: int, size: nat, batch: seq<int>) {
    function Cutoff(): int {
      startedAt - Patience(hours)
    }
  }

  /** Math.max(1, hours) in milliseconds. */
  function Patience(hours: int): int {
    (if hours > 1 then hours else 1) * HOUR_MS
  }

  /** A deposit that has read its placeholder; seen counts the events up to that moment. */
  datatype Claim = Claim(target: nat, seen: nat)

  /**
   * What a deposit has read for itself so far: the session key, then the reference, each
   * from the row that was newest at its own moment.
   */
  datatype Draft = Draft(
    wallet: nat, payer: Option<nat>, keyRow: Option<nat>, key: Option<string>,
    referenceRow: Option<nat>, reference: Option<string>)

  datatype Event =
    | MarkedFailed(id: nat, before: Tx, at: int, hours: int)
    | Claimed(id: nat, seen: nat)

  datatype System = System(
    now: int, rows: Rows, passes: map<nat, Pass>, drafts: map<nat, Draft>, claims: map<nat, Claim>, events: seq<Event>)

  datatype Step =
    | Tick(ms: nat)
    | NewCheckout(tx: Tx)
    | InsertOnChain(tx: Tx)               // a deposit without a placeholder
    | StartPass(pass: nat, hours: int, size: nat)
    | FindStale(pass: nat, ids: seq<int>)
    | MarkNext(pass: nat)
    | ReadKey(draft: nat, wallet: nat, payer: Option<nat>)
    | ReadReference(draft: nat)
    | ReadClaim(claim: nat, target: nat)
    | WriteClaim(claim: nat, txHash: string, amount: string, status: Status, payer: Option<nat>)
    | Edit(id: nat, change: Change)

  /** Changes to a single row that no pass and no claiming deposit makes. */
  datatype Change =
    | Refresh                             // the payer asks again for a checkout that was open when it was read
    | SoftRemove                          // a created row whose session is settled elsewhere
    | GetStuck                            // the anomaly: pending with amount 0
    | Progress(status: Status)            // later confirmations of an on-chain row

  predicate Allowed(tx: Tx, change: Change) {
    match change
    case Refresh => true
    case SoftRemove => tx.status == Created
    case GetStuck => tx.status == Created && Placeholder(tx)
    case Progress(status) => !Placeholder(tx) && status != Created
  }

  function Changed(tx: Tx, change: Change, now: int): Tx {
    match change
    case Refresh => tx.(createdAt := now)
    case SoftRemove => tx.(deleted := true)
    case GetStuck => tx.(status := Pending, amount := "0")
    case Progress(status) => tx.(status := status)
  }

  ghost predicate Enabled(s: System, step: Step) {
    match step
    case Tick(_) => true
    case NewCheckout(tx) => tx.status == Created && Placeholder(tx) && !tx.deleted && tx.createdAt == s.now
    case InsertOnChain(tx) =>
      tx.status in {Success, Pending, Underpaid} && !Placeholder(tx) && !tx.deleted && tx.createdAt == s.now
    case StartPass(_, _, _) => true
    case FindStale(p, ids) => p in s.passes && IsBatch(s.rows, s.passes[p].Cutoff(), s.passes[p].size, ids)
    case MarkNext(p) => p in s.passes && s.passes[p].batch != []
    case ReadKey(_, _, _) => true
    case ReadReference(d) => d in s.drafts
    case ReadClaim(_, id) => id < |s.rows| && !s.rows[id].deleted && Placeholder(s.rows[id]) && Waiting(s.rows[id])
    case WriteClaim(c, txHash, _, status, _) =>
      c in s.claims && !(PREFIX <= txHash) && status in {Success, Pending, Underpaid}
    case Edit(id, change) => id < |s.rows| && Allowed(s.rows[id], change)
  }

  /** The newest open checkout of the wallet and payer at this moment. */
  function NewestAt(s: System, wallet: nat, payer: Option<nat>): Option<nat> {
    NewestBelow(s.rows, wallet, payer, |s.rows|)
  }

  function SessionKeyAt(s: System, i: Option<nat>): Option<string> {
    if i.Some? && i.value < |s.rows| then NonEmpty(s.rows[i.value].sessionKey) else None
  }

  function ReferenceAt(s: System, i: Option<nat>): Option<string> {
    if i.Some? && i.value < |s.rows| then NonEmpty(s.rows[i.value].reference) else None
  }

  function Do(s: System, step: Step): System {
    match step
    case Tick(ms) => s.(now := s.now + ms)
    case NewCheckout(tx) => s.(rows := s.rows + [tx])
    case InsertOnChain(tx) => s.(rows := s.rows + [tx])
    case StartPass(p, hours, size) => s.(passes := s.passes[p := Pass(s.now, hours, size, [])])
    case FindStale(p, ids) =>
      if p in s.passes then s.(passes := s.passes[p := s.passes[p].(batch := ids)]) else s
    case MarkNext(p) =>
      if p !in s.passes || s.passes[p].batch == [] then s
      else
        var pass := s.passes[p];
        var id := pass.batch[0];
        var popped := s.(passes := s.passes[p := pass.(batch := pass.batch[1..])]);
        if id < 0 || Marked(s.rows, id, pass.Cutoff()).None? then popped
        else
          popped.(
            rows := Marked(s.rows, id, pass.Cutoff()).value,
            events := s.events + [MarkedFailed(id, s.rows[id], s.now, pass.hours)])
    case ReadKey(d, wallet, payer) =>
      var i := NewestAt(s, wallet, payer);
      s.(drafts := s.drafts[d := Draft(wallet, payer, i, SessionKeyAt(s, i), None, None)])
    case ReadReference(d) =>
      if d !in s.drafts then s
      else
        var draft := s.drafts[d];
        var i := NewestAt(s, draft.wallet, draft.payer);
        s.(drafts := s.drafts[d := draft.(referenceRow := i, reference := ReferenceAt(s, i))])
    case ReadClaim(c, id) => s.(claims := s.claims[c := Claim(id, |s.events|)])
    case WriteClaim(c, txHash, amount, status, payer) =>
      if c !in s.claims || s.claims[c].target >= |s.rows| then s
      else
        var id := s.claims[c].target;
        var row := s.rows[id].(txHash := txHash, amount := amount, status := status);
        s.(rows := s.rows[id := if payer.Some? then row.(payer := payer) else row],
           claims := s.claims - {c},
           events := s.events + [Claimed(id, s.claims[c].seen)])
    case Edit(id, change) =>
      if id < |s.rows| then s.(rows := s.rows[id := Changed(s.rows[id], change, s.now)]) else s
  }

  /** The system before any pass runs or deposit holds a placeholder, over whatever rows the table already has. */
  ghost predicate Quiet(s: System) {
    s.passes == map[] && s.claims == map[] && s.events == []
  }

  function Run(start: System, steps: seq<Step>): System {
    if steps == [] then start else Do(Run(start, steps[..|steps| - 1]), steps[|steps| - 1])
  }

  ghost predicate Legal(start: System, steps: seq<Step>) {
    steps != [] ==>
      Legal(start, steps[..|steps| - 1]) && Enabled(Run(start, steps[..|steps| - 1]), steps[|steps| - 1])
  }

  // ---- Counting events ---------------------------------------------------------------

  function Marks(events: seq<Event>, id: nat): nat {
    if events == [] then 0
    else
      var last := events[|events| - 1];
      Marks(events[..|events| - 1], id) + (if last.MarkedFailed? && last.id == id then 1 else 0)
  }

  function Claims(events: seq<Event>, id: nat): nat {
    if events == [] then 0
    else
      var last := events[|events| - 1];
      Claims(events[..|events| - 1], id) + (if last.Claimed? && last.id == id then 1 else 0)
  }

  // ---- The invariant -----------------------------------------------------------------

  /** Claimed rows have left the placeholder prefix; marked, unclaimed ones are still failed placeholders. */
  ghost predicate RowsSettled(s: System) {
    && (forall id: nat :: id < |s.rows| && Claims(s.events, id) > 0 ==> !Placeholder(s.rows[id]))
    && (forall id: nat :: Marks(s.events, id) > 0 && Claims(s.events, id) == 0 ==> Failing(s, id))
    && (forall id: nat :: id >= |s.rows| ==> Marks(s.events, id) == 0 && Claims(s.events, id) == 0)
  }

  /** The row is a placeholder that was failed, and announced as failed. */
  predicate Failing(s: System, id: nat) {
    id < |s.rows| && s.rows[id].status == Failed && Placeholder(s.rows[id])
  }

  ghost predicate MarkedOnce(s: System) {
    forall id: nat :: Marks(s.events, id) <= 1
  }

  /** What a mark saw: an open waiting placeholder, never claimed, older than the pass allows. */
  ghost predicate Rightful(events: seq<Event>, i: nat, now: int)
    requires i < |events|
  {
    var e := events[i];
    e.MarkedFailed? ==>
      && !e.before.deleted && Placeholder(e.before) && Waiting(e.before)
      && e.at <= now && e.before.createdAt + Patience(e.hours) < e.at
      && Claims(events[..i], e.id) == 0
  }

  ghost predicate MarksRightful(s: System) {
    forall i: nat :: i < |s.events| ==> Rightful(s.events, i, s.now)
  }

  /** A claim on a row that is marked by now was read before the mark. */
  ghost predicate ReadBeforeMark(events: seq<Event>, id: nat, seen: nat) {
    forall i: nat :: i < |events| && events[i].MarkedFailed? && events[i].id == id ==> seen <= i
  }

  ghost predicate ReadEarly(events: seq<Event>, c: Claim, rows: nat, position: nat) {
    c.target < rows && c.seen <= position && ReadBeforeMark(events, c.target, c.seen)
  }

  ghost predicate ClaimsReadEarly(s: System) {
    && (forall c :: c in s.claims ==> ReadEarly(s.events, s.claims[c], |s.rows|, |s.events|))
    && (forall j: nat :: j < |s.events| && s.events[j].Claimed? ==>
          ReadEarly(s.events, Claim(s.events[j].id, s.events[j].seen), |s.rows|, j))
  }

  ghost predicate PassesStarted(s: System) {
    forall p :: p in s.passes ==> s.passes[p].startedAt <= s.now
  }

  ghost predicate Inv(s: System) {
    RowsSettled(s) && MarkedOnce(s) && MarksRightful(s) && ClaimsReadEarly(s) && PassesStarted(s)
  }

  // ---- Every step keeps it -----------------------------------------------------------

  lemma CountsAppend(events: seq<Event>, e: Event, id: nat)
    ensures Marks(events + [e], id) == Marks(events, id) + (if e.MarkedFailed? && e.id == id then 1 else 0)
    ensures Claims(events + [e], id) == Claims(events, id) + (if e.Claimed? && e.id == id then 1 else 0)
  {
    assert (events + [e])[..|events|] == events;
  }

  lemma RightfulLater(events: seq<Event>, e: Event, now: int, later: int)
    requires now <= later && forall i: nat :: i < |events| ==> Rightful(events, i, now)
    ensures forall i: nat :: i < |events| ==> Rightful(events + [e], i, later) && Rightful(events, i, later)
  {
    forall i: nat | i < |events|
      ensures Rightful(events + [e], i, later) && Rightful(events, i, later)
    {
      assert (events + [e])[..i] == events[..i];
      assert Rightful(events, i, now);
    }
  }

  lemma {:induction false} NotMarked(events: seq<Event>, id: nat)
    requires Marks(events, id) == 0
    ensures forall i: nat :: i < |events| && events[i].MarkedFailed? ==> events[i].id != id
  {
    if events != [] {
      NotMarked(events[..|events| - 1], id);
      assert forall i: nat :: i < |events| - 1 ==> events[i] == events[..|events| - 1][i];
    }
  }

  /** How much an event adds to the marks and claims of a row. */
  lemma CountsAfter(s: System, e: Event)
    ensures forall id: nat ::
      Marks(s.events + [e], id) == Marks(s.events, id) + (if e.MarkedFailed? && e.id == id then 1 else 0)
    ensures forall id: nat ::
      Claims(s.events + [e], id) == Claims(s.events, id) + (if e.Claimed? && e.id == id then 1 else 0)
  {
    forall id: nat {
      CountsAppend(s.events, e, id);
    }
  }

  lemma MarksRightfulAfter(s: System, t: System, e: Event)
    requires MarksRightful(s) && s.now <= t.now && t.events == s.events + [e]
    requires e.MarkedFailed? ==>
               && !e.before.deleted && Placeholder(e.before) && Waiting(e.before)
               && e.at <= t.now && e.before.createdAt + Patience(e.hours) < e.at
               && Claims(s.events, e.id) == 0
    ensures MarksRightful(t)
  {
    RightfulLater(s.events, e, s.now, t.now);
    assert t.events[..|s.events|] == s.events;
  }

  lemma ReadEarlyAfter(events: seq<Event>, e: Event, c: Claim, rows: nat, more: nat, position: nat, later: nat)
    requires ReadEarly(events, c, rows, position) && rows <= more && position <= later && position <= |events|
    ensures ReadEarly(events + [e], c, more, later) && ReadEarly(events, c, more, later)
  {}

  lemma ClaimsReadEarlyAfter(s: System, t: System, e: Event)
    requires ClaimsReadEarly(s) && |t.rows| == |s.rows| && t.events == s.events + [e]
    requires forall c :: c in t.claims ==> c in s.claims && t.claims[c] == s.claims[c]
    requires e.Claimed? ==> ReadEarly(s.events, Claim(e.id, e.seen), |s.rows|, |s.events|)
    ensures ClaimsReadEarly(t)
  {
    var n := |s.events|;
    forall c | c in t.claims
      ensures ReadEarly(t.events, t.claims[c], |t.rows|, |t.events|)
    {
      ReadEarlyAfter(s.events, e, s.claims[c], |s.rows|, |t.rows|, n, n + 1);
    }
    forall j: nat | j < |t.events| && t.events[j].Claimed?
      ensures ReadEarly(t.events, Claim(t.events[j].id, t.events[j].seen), |t.rows|, j)
    {
      ReadEarlyAfter(s.events, e, Claim(t.events[j].id, t.events[j].seen), |s.rows|, |t.rows|, j, j);
    }
  }

  /** Failing a stale row: it was neither claimed nor marked before. */
  lemma MarkSettles(s: System, t: System, id: nat, e: Event)
    requires RowsSettled(s) && MarkedOnce(s) && e.MarkedFailed? && e.id == id < |s.rows|
    requires Placeholder(s.rows[id]) && Waiting(s.rows[id])
    requires t.rows == s.rows[id := s.rows[id].(status := Failed)] && t.events == s.events + [e]
    ensures Claims(s.events, id) == 0 && RowsSettled(t) && MarkedOnce(t)
  {
    CountsAfter(s, e);
  }

  lemma MarkKeeps(s: System, p: nat)
    requires Inv(s) && Enabled(s, MarkNext(p))
    ensures Inv(Do(s, MarkNext(p)))
  {
    var pass := s.passes[p];
    var id := pass.batch[0];
    var t := Do(s, MarkNext(p));
    if id >= 0 && Marked(s.rows, id, pass.Cutoff()).Some? {
      var e := MarkedFailed(id, s.rows[id], s.now, pass.hours);
      MarkSettles(s, t, id, e);
      MarksRightfulAfter(s, t, e);
      ClaimsReadEarlyAfter(s, t, e);
    }
  }

  lemma WriteKeeps(s: System, step: Step)
    requires Inv(s) && Enabled(s, step) && step.WriteClaim?
    ensures Inv(Do(s, step))
  {
    var t := Do(s, step);
    var claim := s.claims[step.claim];
    var e := Claimed(claim.target, claim.seen);
    assert ReadEarly(s.events, claim, |s.rows|, |s.events|);
    CountsAfter(s, e);
    MarksRightfulAfter(s, t, e);
    ClaimsReadEarlyAfter(s, t, e);
  }

  lemma ReadKeeps(s: System, c: nat, id: nat)
    requires Inv(s) && Enabled(s, ReadClaim(c, id))
    ensures Inv(Do(s, ReadClaim(c, id)))
  {
    var t := Do(s, ReadClaim(c, id));
    assert Claims(s.events, id) == 0 && Marks(s.events, id) == 0;
    NotMarked(s.events, id);
    assert ReadEarly(t.events, t.claims[c], |t.rows|, |t.events|);
    assert forall k :: k in t.claims && k != c ==> k in s.claims && t.claims[k] == s.claims[k];
  }

  predicate LogsNothing(step: Step) {
    !step.MarkNext? && !step.WriteClaim? && !step.ReadClaim?
  }

  /** Steps that log nothing and change no claim: rows may only be added or altered harmlessly. */
  lemma QuietRows(s: System, step: Step)
    requires RowsSettled(s) && Enabled(s, step) && LogsNothing(step)
    ensures var t := Do(s, step);
            RowsSettled(t) && t.events == s.events && t.claims == s.claims && |s.rows| <= |t.rows| && s.now <= t.now
  {}

  lemma QuietPasses(s: System, step: Step)
    requires PassesStarted(s) && Enabled(s, step) && LogsNothing(step)
    ensures PassesStarted(Do(s, step))
  {}

  lemma QuietKeeps(s: System, step: Step)
    requires Inv(s) && Enabled(s, step) && LogsNothing(step)
    ensures Inv(Do(s, step))
  {
    QuietRows(s, step);
    QuietPasses(s, step);
    SameLogKeeps(s, Do(s, step));
  }

  lemma SameLogKeeps(s: System, t: System)
    requires MarksRightful(s) && ClaimsReadEarly(s)
    requires t.events == s.events && t.claims == s.claims && |s.rows| <= |t.rows| && s.now <= t.now
    ensures MarksRightful(t) && ClaimsReadEarly(t)
  {
    forall i: nat | i < |s.events|
      ensures Rightful(t.events, i, t.now)
    {
      assert Rightful(s.events, i, s.now);
    }
    forall c | c in t.claims
      ensures ReadEarly(t.events, t.claims[c], |t.rows|, |t.events|)
    {
      assert ReadEarly(s.events, s.claims[c], |s.rows|, |s.events|);
    }
    forall j: nat | j < |t.events| && t.events[j].Claimed?
      ensures ReadEarly(t.events, Claim(t.events[j].id, t.events[j].seen), |t.rows|, j)
    {
      assert ReadEarly(s.events, Claim(s.events[j].id, s.events[j].seen), |s.rows|, j);
    }
  }

  /** Every reachable state keeps the invariant. */
  lemma {:induction false} RunKeeps(start: System, steps: seq<Step>)
    requires Quiet(start) && Legal(start, steps)
    ensures Inv(Run(start, steps))
  {
    if steps != [] {
      var s, step := Run(start, steps[..|steps| - 1]), steps[|steps| - 1];
      RunKeeps(start, steps[..|steps| - 1]);
      match step
      case MarkNext(p) => MarkKeeps(s, p);
      case WriteClaim(_, _, _, _, _) => WriteKeeps(s, step);
      case ReadClaim(c, id) => ReadKeeps(s, c, id);
      case _ => QuietKeeps(s, step);
    }
  }

  // ---- Every run ---------------------------------------------------------------------

  lemma {:induction false} MarkCounted(events: seq<Event>, i: nat)
    requires i < |events| && events[i].MarkedFailed?
    ensures Marks(events, events[i].id) >= 1
  {
    if i < |events| - 1 {
      MarkCounted(events[..|events| - 1], i);
    }
  }

  lemma {:induction false} MarksTwice(events: seq<Event>, i: nat, j: nat)
    requires i < j < |events| && events[i].MarkedFailed? && events[j].MarkedFailed? && events[i].id == events[j].id
    ensures Marks(events, events[i].id) >= 2
  {
    if j == |events| - 1 {
      MarkCounted(events[..j], i);
    } else {
      MarksTwice(events[..|events| - 1], i, j);
    }
  }

  lemma {:induction false} NotClaimed(events: seq<Event>, id: nat)
    requires Claims(events, id) == 0
    ensures forall i: nat :: i < |events| && events[i].Claimed? ==> events[i].id != id
  {
    if events != [] {
      NotClaimed(events[..|events| - 1], id);
      assert forall i: nat :: i < |events| - 1 ==> events[i] == events[..|events| - 1][i];
    }
  }

  /**
   * In every interleaving, over whatever rows there were, each placeholder is failed by at
   * most one pass, and a row that was failed was: a placeholder still waiting for payment,
   * not deleted, never claimed by a deposit, and older than the hours its pass allows, of
   * which there is at least one.
   */
  lemma FailedAtMostOnceAndRightfully(start: System, steps: seq<Step>)
    requires Quiet(start) && Legal(start, steps)
    ensures var events := Run(start, steps).events;
            forall i: nat, j: nat :: i < j < |events| && events[i].MarkedFailed? && events[j].MarkedFailed? ==>
              events[i].id != events[j].id
    ensures var events := Run(start, steps).events;
            forall i: nat :: i < |events| && events[i].MarkedFailed? ==>
              var e := events[i];
              && !e.before.deleted && "gateway-created:" <= e.before.txHash
              && (e.before.status == Created || (e.before.status == Pending && ZeroAmount(e.before.amount)))
              && e.before.createdAt + 3_600_000 < e.at && e.before.createdAt + e.hours * 3_600_000 < e.at
              && e.at <= Run(start, steps).now
              && forall j: nat :: j < i && events[j].Claimed? ==> events[j].id != e.id
  {
    RunKeeps(start, steps);
    var s := Run(start, steps);
    forall i: nat | i < |s.events| && s.events[i].MarkedFailed?
      ensures var e := s.events[i];
              && !e.before.deleted && "gateway-created:" <= e.before.txHash
              && (e.before.status == Created || (e.before.status == Pending && ZeroAmount(e.before.amount)))
              && e.before.createdAt + 3_600_000 < e.at && e.before.createdAt + e.hours * 3_600_000 < e.at
              && e.at <= Run(start, steps).now
              && forall j: nat :: j < i && s.events[j].Claimed? ==> s.events[j].id != e.id
    {
      RightfulMeans(s.events, i, s.now);
    }
    forall i: nat, j: nat | i < j < |s.events| && s.events[i].MarkedFailed? && s.events[j].MarkedFailed?
      ensures s.events[i].id != s.events[j].id
    {
      if s.events[i].id == s.events[j].id {
        MarksTwice(s.events, i, j);
      }
    }
  }

  lemma RightfulMeans(events: seq<Event>, i: nat, now: int)
    requires i < |events| && events[i].MarkedFailed? && Rightful(events, i, now)
    ensures var e := events[i];
            && !e.before.deleted && "gateway-created:" <= e.before.txHash
            && (e.before.status == Created || (e.before.status == Pending && ZeroAmount(e.before.amount)))
            && e.before.createdAt + 3_600_000 < e.at && e.before.createdAt + e.hours * 3_600_000 < e.at
            && e.at <= now
            && forall j: nat :: j < i && events[j].Claimed? ==> events[j].id != e.id
  {
    var e := events[i];
    ZeroAmountIff(e.before.amount);
    NotClaimed(events[..i], e.id);
    assert forall j: nat :: j < i ==> events[..i][j] == events[j];
  }

  // ---- Building runs -----------------------------------------------------------------

  lemma Extend(start: System, steps: seq<Step>, step: Step)
    requires Legal(start, steps) && Enabled(Run(start, steps), step)
    ensures Legal(start, steps + [step]) && Run(start, steps + [step]) == Do(Run(start, steps), step)
  {
    assert (steps + [step])[..|steps|] == steps;
  }

  const EMPTY := System(0, [], map[], map[], map[], [])
}
