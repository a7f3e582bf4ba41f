// The explorer key pool as the process runs it: the mutable stamp map, the clock, and the
// polling loop that leases a key. Everything the loop does not control is an Environment.

module KeyPool {
  import opened Text
  import opened SlidingWindow
  import opened DayQuota

  const MAX_WAIT_MS := 120_000
  const POLL_SLEEP_MS := 25

  datatype Lease = Lease(keyId: int, apiKey: string, keyName: string)

  /** Another caller's attempt, made some milliseconds after the previous event. */
  datatype Attempt = Attempt(delay: nat, key: int, rate: Rate)

  /**
   * What happens around a lease: the key table at each time, what other callers do and
   * how much time passes during the n-th await, and the time each attempt takes.
   */
  datatype Environment = Environment(
    rowsAt: int -> seq<KeyRow>,
    decrypt: string -> Option<string>,
    others: nat -> seq<Attempt>,
    drift: nat -> nat,
    pace: nat -> nat)

  ghost predicate Lone(env: Environment) {
    forall n :: env.others(n) == []
  }

  /** The grounds of one poll: what was read when, the times of the attempts, the log before. */
  datatype Grounds = Grounds(
      startedAt: int, readAt: int, today: int, list: seq<Credential>, tried: seq<int>, before: seq<Grant>)

  /** The round began during the two minutes after the call and listed the keys of that day. */
  ghost predicate ReadDuring(g: Grounds, rail: Rail, env: Environment, called: int) {
    && called <= g.startedAt < called + 120_000 && g.startedAt <= g.readAt
    && g.today * 86_400_000 <= g.startedAt < (g.today + 1) * 86_400_000
    && g.list == Listing(env.rowsAt(g.readAt), rail, g.today, env.decrypt)
  }

  /** Unless its list was empty, the round tried a key within a second of the call. */
  ghost predicate TriedEarly(g: Grounds, called: int) {
    g.list != [] ==> g.tried != [] && g.startedAt <= g.tried[0] < called + 1000
  }

  /** Every key tried was full when it was tried. */
  ghost predicate AllFull(before: seq<Grant>, list: seq<Credential>, tried: seq<int>) {
    && |tried| <= |list|
    && forall j :: 0 <= j < |tried| ==> Full(before, list[j].keyId, list[j].maxPerSecond, tried[j])
  }

  ghost predicate Between(times: seq<int>, from: int, to: int) {
    forall j :: 0 <= j < |times| ==> from <= times[j] <= to
  }

  /** The last key tried had room, all before it were full, and only it gained a stamp. */
  ghost predicate FirstFree(
      before: seq<Grant>, list: seq<Credential>, tried: seq<int>, lease: Lease, after: seq<Grant>) {
    && 0 < |tried| <= |list|
    && AllFull(before, list, tried[..|tried| - 1])
    && var c, t := list[|tried| - 1], tried[|tried| - 1];
       && !Full(before, c.keyId, c.maxPerSecond, t)
       && lease == Lease(c.keyId, c.apiKey, c.keyName)
       && after == before + [Grant(c.keyId, t, c.maxPerSecond)]
  }

  lemma AllFullAppend(before: seq<Grant>, list: seq<Credential>, tried: seq<int>, t: int)
    requires AllFull(before, list, tried) && |tried| < |list|
    ensures var c := list[|tried|];
            if Full(before, c.keyId, c.maxPerSecond, t) then AllFull(before, list, tried + [t])
            else FirstFree(before, list, tried + [t], Lease(c.keyId, c.apiKey, c.keyName),
                           before + [Grant(c.keyId, t, c.maxPerSecond)])
  {
    assert (tried + [t])[..|tried|] == tried;
  }

  /** If nothing was granted since some time, a full pass must have begun within a second of it. */
  lemma FullPassIsEarly(before: seq<Grant>, list: seq<Credential>, tried: seq<int>, since: int)
    requires AllFull(before, list, tried) && tried != [] && NoneAfter(before, since)
    ensures tried[0] < since + 1000
  {
    var picks: seq<nat> :| Picks(before, list[0].keyId, tried[0] - 999, tried[0], picks) && |picks| > 0;
    assert before[picks[0]].time <= since;
  }

  /** The failed round of a lone caller, which has stamped nothing since the call. */
  lemma FailedRoundIsEarly(before: seq<Grant>, env: Environment, g: Grounds, called: int, now: int)
    requires AllFull(g.before, g.list, g.tried) && (g.list != [] ==> g.tried != [])
    requires NoneAfter(before, called) && (Lone(env) ==> g.before == before)
    requires g.startedAt <= g.readAt && Between(g.tried, g.readAt, now)
    ensures Lone(env) ==> TriedEarly(g, called)
  {
    if Lone(env) && g.list != [] {
      FullPassIsEarly(before, g.list, g.tried, called);
    }
  }

  /** The key table row update that counts a successful request. */
  class KeyTable {
    var rows: map<int, KeyRow>

    constructor (rows: map<int, KeyRow>)
      ensures this.rows == rows
    {
      this.rows := rows;
    }

    method RecordSuccess(keyId: int, today: int) returns (counted: bool)
      modifies this
      ensures counted <==>
                && keyId in old(rows) && old(rows)[keyId].active
                && (old(rows)[keyId].usageDay < today || old(rows)[keyId].requestsToday < old(rows)[keyId].maxPerDay)
      ensures !counted ==> rows == old(rows)
      ensures counted ==>
                var row := old(rows)[keyId];
                rows == old(rows)[keyId :=
                  if row.usageDay < today then row.(requestsToday := 1, usageDay := today)
                  else row.(requestsToday := row.requestsToday + 1)]
      ensures keyId in old(rows) ==> rows[keyId] == RecordAll(old(rows)[keyId], [today])
    {
      assert [today][..0] == [];
      if keyId !in rows || !rows[keyId].active {
        return false;
      }
      var row := rows[keyId];
      if row.usageDay < today {
        rows := rows[keyId := row.(requestsToday := 1, usageDay := today)];
      } else if row.requestsToday < row.maxPerDay {
        rows := rows[keyId := row.(requestsToday := row.requestsToday + 1)];
      } else {
        return false;
      }
      return true;
    }
  }

  class ExplorerKeyPool {
    var stamps: Stamps
    var clock: int
    ghost var log: seq<Grant>

    ghost predicate Valid()
      reads this
    {
      Represents(stamps, log, clock) && Disciplined(log)
    }

    constructor (now: int)
      ensures Valid() && log == [] && clock == now
    {
      stamps, clock, log := map[], now, [];
    }

    /** Time passes. */
    method Advance(ms: nat)
      requires Valid()
      modifies this`clock
      ensures Valid() && clock == old(clock) + ms
    {
      RepresentsLater(stamps, log, clock, clock + ms);
      clock := clock + ms;
    }

    /** tryTakePerSecondSlot: grants exactly when the log shows room in the last second. */
    method TryTakePerSecondSlot(keyId: int, rate: Rate) returns (granted: bool)
      requires Valid()
      modifies this`stamps, this`log
      ensures Valid()
      ensures granted <==> !Full(old(log), keyId, rate, clock)
      ensures granted ==> log == old(log) + [Grant(keyId, clock, rate)]
      ensures !granted ==> log == old(log)
      ensures forall k :: k != keyId ==> StampsOf(stamps, k) == StampsOf(old(stamps), k)
    {
      TakeIsExact(stamps, log, keyId, rate, clock);
      FullIs(log, keyId, rate, clock);
      var live := Prune(StampsOf(stamps, keyId), clock);
      if |live| >= CapOf(rate) {
        stamps := stamps[keyId := live];
        return false;
      }
      stamps := stamps[keyId := live + [clock]];
      log := log + [Grant(keyId, clock, rate)];
      return true;
    }

    /** Keeps the stamps of the last second, in their order. */
    static method Prune(all: seq<int>, now: int) returns (live: seq<int>)
      ensures live == Fresh(all, now)
    {
      live := [];
      for i := 0 to |all|
        invariant live == Fresh(all[..i], now)
      {
        FreshAppend(all[..i], all[i], now);
        assert all[..i + 1] == all[..i] + [all[i]];
        assert [all[i]][1..] == [];
        if now - all[i] < WINDOW_MS {
          live := live + [all[i]];
        }
      }
      assert all[..|all|] == all;
    }

    /** An await of at least the given length, during which other callers may take slots. */
    method Await(env: Environment, n: nat, ms: nat)
      requires Valid()
      modifies this
      ensures Valid() && clock >= old(clock) + ms && old(log) <= log
      ensures env.others(n) == [] ==> log == old(log)
    {
      var attempts := env.others(n);
      for i := 0 to |attempts|
        invariant Valid() && clock >= old(clock) && old(log) <= log
        invariant attempts == [] ==> log == old(log)
      {
        Advance(attempts[i].delay);
        var _ := TryTakePerSecondSlot(attempts[i].key, attempts[i].rate);
      }
      Advance(ms + env.drift(n));
    }

    /**
     * One pass over the list, in order. The first key with a free window is granted; every
     * key before it was full when it was tried, and gains no stamp.
     */
    method Poll(list: seq<Credential>, env: Environment, first: nat)
      returns (lease: Option<Lease>, ghost tried: seq<int>)
      requires Valid()
      modifies this
      ensures Valid() && clock >= old(clock)
      ensures Between(tried, old(clock), clock)
      ensures |tried| <= |list| && (list != [] ==> tried != [])
      ensures lease.None? ==> |tried| == |list| && AllFull(old(log), list, tried) && log == old(log)
      ensures lease.Some? ==> FirstFree(old(log), list, tried, lease.value, log)
    {
      ghost var before := log;
      tried := [];
      for i := 0 to |list|
        invariant Valid() && clock >= old(clock) && log == before
        invariant |tried| == i && AllFull(before, list, tried) && Between(tried, old(clock), clock)
      {
        ghost var t;
        lease, t := Attempt(list, i, env.pace(first + i), tried);
        tried := tried + [t];
        if lease.Some? {
          return;
        }
      }
      lease := None;
    }

    /** The next key of the list is tried some time after the one before it. */
    method Attempt(list: seq<Credential>, i: nat, pace: nat, ghost tried: seq<int>)
      returns (lease: Option<Lease>, ghost t: int)
      requires Valid() && i == |tried| < |list| && AllFull(log, list, tried)
      modifies this
      ensures Valid() && old(clock) <= t == clock
      ensures lease.None? ==> AllFull(old(log), list, tried + [t]) && log == old(log)
      ensures lease.Some? ==> FirstFree(old(log), list, tried + [t], lease.value, log)
    {
      Advance(pace);
      t := clock;
      AllFullAppend(log, list, tried, t);
      var granted := TryTakePerSecondSlot(list[i].keyId, list[i].maxPerSecond);
      lease := if granted then Some(Lease(list[i].keyId, list[i].apiKey, list[i].keyName)) else None;
    }

    /** One round of the polling loop: read the day and the list, then poll or just sleep. */
    method Round(rail: Rail, env: Environment, n: nat)
      returns (lease: Option<Lease>, next: nat, ghost g: Grounds)
      requires Valid()
      modifies this
      ensures Valid() && old(log) <= log
      ensures old(clock) <= g.readAt <= clock && g.startedAt == old(clock)
      ensures g.today * 86_400_000 <= g.startedAt < (g.today + 1) * 86_400_000
      ensures g.list == Listing(env.rowsAt(g.readAt), rail, g.today, env.decrypt)
      ensures old(log) <= g.before && (Lone(env) ==> g.before == old(log))
      ensures Between(g.tried, g.readAt, clock)
      ensures |g.tried| <= |g.list| && (g.list != [] ==> g.tried != [])
      ensures lease.None? ==> clock >= old(clock) + 25 && AllFull(g.before, g.list, g.tried)
      ensures lease.None? && Lone(env) ==> log == old(log)
      ensures lease.Some? ==> FirstFree(g.before, g.list, g.tried, lease.value, log)
    {
      var today := DayOf(clock);
      Await(env, n, 0);
      next := n + 1;
      g := Grounds(old(clock), clock, today, Listing(env.rowsAt(clock), rail, today, env.decrypt), [], log);
      var list := ListWithBudget(env.rowsAt(clock), rail, today, env.decrypt);
      if list == [] {
        Await(env, next, POLL_SLEEP_MS);
        return None, next + 1, g;
      }
      ghost var tried: seq<int>;
      lease, tried := Poll(list, env, next);
      g := g.(tried := tried);
      if lease.Some? {
        return;
      }
      next := next + |list|;
      Await(env, next, POLL_SLEEP_MS);
      next := next + 1;
    }

    /**
     * acquireDepositScannerExplorerApiLease. Fails only after two minutes. A lease is for
     * the first key with a free window on a list read during the call, and stamps only
     * that key. Every failed poll of a lone caller whose list was not empty made its first
     * attempt less than a second after the call. So a lone caller comes away empty-handed
     * only if the last list it read was empty, or that one round took all but a second of
     * the two minutes.
     */
    method Acquire(rail: Rail, env: Environment)
      returns (lease: Option<Lease>, ghost failed: seq<Grounds>, ghost last: Grounds)
      requires Valid()
      modifies this
      ensures Valid() && clock >= old(clock) && old(log) <= log
      ensures ReadDuring(last, rail, env, old(clock))
      ensures forall g :: g in failed ==> ReadDuring(g, rail, env, old(clock))
      ensures lease.Some? ==>
                && FirstFree(last.before, last.list, last.tried, lease.value, log)
                && old(log) <= last.before && (Lone(env) ==> last.before == old(log))
      ensures lease.None? ==> clock >= old(clock) + 120_000 && last in failed
      ensures Lone(env) && lease.None? ==> log == old(log)
      ensures Lone(env) ==> forall g :: g in failed ==> TriedEarly(g, old(clock))
      ensures Lone(env) && lease.None? ==> last.list == [] || clock - last.startedAt > 119_000
    {
      var started := clock;
      var n: nat := 0;
      failed, last := [], Grounds(started, started, 0, [], [], log);
      while clock - started < MAX_WAIT_MS
        invariant Valid() && clock >= started && old(log) <= log
        invariant Lone(env) ==> log == old(log)
        invariant clock > started ==> last in failed
        invariant forall g :: g in failed ==> ReadDuring(g, rail, env, started)
        invariant Lone(env) ==> forall g :: g in failed ==> TriedEarly(g, started)
        decreases MAX_WAIT_MS - (clock - started)
      {
        lease, n, last := Round(rail, env, n);
        if lease.Some? {
          return;
        }
        FailedRoundIsEarly(old(log), env, last, started, clock);
        failed := failed + [last];
      }
      lease := None;
    }
  }
}
