// The per-second throttle of the explorer key pool: for each key the times of recent
// grants, pruned whenever the key is tried. The log of all grants ever made is the
// specification; the pruned lists stand in for it.

module SlidingWindow {
  import opened Text

  const WINDOW_MS := 1000

  /** A requests-per-second setting as JavaScript sees it. */
  datatype Rate = Finite(r: real) | NotFinite

  /** A key that got n grants within one second did not exceed its rate; one grant is always allowed. */
  predicate Permits(rate: Rate, n: nat) {
    n <= 1 || (rate.Finite? && n as real <= rate.r)
  }

  /** The whole number of grants per second. */
  function CapOf(rate: Rate): (cap: nat)
    ensures forall n: nat :: n <= cap <==> Permits(rate, n)
  {
    if rate.Finite? && rate.r.Floor > 1 then rate.r.Floor else 1
  }

  type Stamps = map<int, seq<int>>

  datatype Grant = Grant(key: int, time: int, rate: Rate)

  datatype Request = Request(key: int, rate: Rate, time: int)

  function Fresh(ts: seq<int>, now: int): seq<int> {
    if ts == [] then []
    else if now - ts[0] < WINDOW_MS then [ts[0]] + Fresh(ts[1..], now)
    else Fresh(ts[1..], now)
  }

  function StampsOf(stamps: Stamps, key: int): seq<int> {
    if key in stamps then stamps[key] else []
  }

  /** One attempt: prune the key's stamps, then add one if there is room. */
  function Take(stamps: Stamps, key: int, rate: Rate, now: int): (Stamps, bool) {
    var live := Fresh(StampsOf(stamps, key), now);
    if |live| >= CapOf(rate) then (stamps[key := live], false) else (stamps[key := live + [now]], true)
  }

  // ---- The log of all grants ---------------------------------------------------------

  /** Times of all grants ever made to the key, oldest first. */
  function TimesOf(log: seq<Grant>, key: int): seq<int> {
    if log == [] then []
    else
      var last := log[|log| - 1];
      TimesOf(log[..|log| - 1], key) + (if last.key == key then [last.time] else [])
  }

  /** How many grants the key got in the last second before now. */
  function Recent(log: seq<Grant>, key: int, now: int): nat {
    if log == [] then 0
    else
      var last := log[|log| - 1];
      Recent(log[..|log| - 1], key, now) + (if last.key == key && now - last.time < WINDOW_MS then 1 else 0)
  }

  ghost predicate NoneAfter(log: seq<Grant>, now: int) {
    forall i :: 0 <= i < |log| ==> log[i].time <= now
  }

  /** From now on, pruning the stored stamps and pruning the whole history give the same list. */
  ghost predicate Represents(stamps: Stamps, log: seq<Grant>, now: int) {
    && NoneAfter(log, now)
    && forall key, t :: t >= now ==> Fresh(StampsOf(stamps, key), t) == Fresh(TimesOf(log, key), t)
  }

  /** Every grant was made while the key had room for it, at a non-decreasing time. */
  ghost predicate Disciplined(log: seq<Grant>) {
    log != [] ==>
      var earlier, last := log[..|log| - 1], log[|log| - 1];
      && Disciplined(earlier) && NoneAfter(earlier, last.time)
      && Permits(last.rate, Recent(earlier, last.key, last.time) + 1)
  }

  lemma {:induction false} FreshTwice(ts: seq<int>, now: int, later: int)
    requires now <= later
    ensures Fresh(Fresh(ts, now), later) == Fresh(ts, later)
  {
    if ts != [] {
      FreshTwice(ts[1..], now, later);
      assert ([ts[0]] + Fresh(ts[1..], now))[1..] == Fresh(ts[1..], now);
    }
  }

  lemma {:induction false} FreshAppend(ts: seq<int>, t: int, now: int)
    ensures Fresh(ts + [t], now) == Fresh(ts, now) + Fresh([t], now)
  {
    if ts == [] {
      assert ts + [t] == [t];
    } else {
      FreshAppend(ts[1..], t, now);
      assert (ts + [t])[1..] == ts[1..] + [t];
    }
  }

  lemma TimesOfAppend(log: seq<Grant>, g: Grant, key: int)
    ensures TimesOf(log + [g], key) == TimesOf(log, key) + (if g.key == key then [g.time] else [])
  {
    assert (log + [g])[..|log|] == log;
  }

  lemma {:induction false} RecentIsFresh(log: seq<Grant>, key: int, now: int)
    ensures Recent(log, key, now) == |Fresh(TimesOf(log, key), now)|
  {
    if log != [] {
      var earlier, last := log[..|log| - 1], log[|log| - 1];
      RecentIsFresh(earlier, key, now);
      if last.key == key {
        FreshAppend(TimesOf(earlier, key), last.time, now);
      } else {
        assert TimesOf(earlier, key) + [] == TimesOf(earlier, key);
      }
    }
  }

  // ---- The pruned lists stand in for the log -----------------------------------------

  function Logged(log: seq<Grant>, key: int, rate: Rate, now: int, granted: bool): seq<Grant> {
    if granted then log + [Grant(key, now, rate)] else log
  }

  lemma RepresentsLater(stamps: Stamps, log: seq<Grant>, now: int, later: int)
    requires Represents(stamps, log, now) && now <= later
    ensures Represents(stamps, log, later)
  {}

  lemma StandsInAfterTake(stamps: Stamps, log: seq<Grant>, key: int, rate: Rate, now: int, k: int, t: int)
    requires Represents(stamps, log, now) && t >= now
    ensures var (after, granted) := Take(stamps, key, rate, now);
            Fresh(StampsOf(after, k), t) == Fresh(TimesOf(Logged(log, key, rate, now, granted), k), t)
  {
    var live := Fresh(StampsOf(stamps, key), now);
    TimesOfAppend(log, Grant(key, now, rate), k);
    if k == key {
      FreshTwice(TimesOf(log, key), now, t);
      FreshAppend(live, now, t);
      FreshAppend(TimesOf(log, key), now, t);
    } else {
      assert TimesOf(log, k) + [] == TimesOf(log, k);
    }
  }

  /**
   * An attempt succeeds exactly when the whole history shows room in the last second,
   * and afterwards the pruned lists still stand in for the history.
   */
  lemma TakeIsExact(stamps: Stamps, log: seq<Grant>, key: int, rate: Rate, now: int)
    requires Represents(stamps, log, now) && Disciplined(log)
    ensures var (after, granted) := Take(stamps, key, rate, now);
            && (granted <==> Permits(rate, Recent(log, key, now) + 1))
            && Represents(after, Logged(log, key, rate, now, granted), now)
            && Disciplined(Logged(log, key, rate, now, granted))
  {
    var (after, granted) := Take(stamps, key, rate, now);
    var log' := Logged(log, key, rate, now, granted);
    forall k, t | t >= now
      ensures Fresh(StampsOf(after, k), t) == Fresh(TimesOf(log', k), t)
    {
      StandsInAfterTake(stamps, log, key, rate, now, k, t);
    }
    RecentIsFresh(log, key, now);
    if granted {
      assert log'[..|log'| - 1] == log;
    }
  }

  // ---- Windows -----------------------------------------------------------------------

  /** Different grants of the log to the key, in their order, at times from one to the other. */
  ghost predicate Picks(log: seq<Grant>, key: int, from: int, to: int, picks: seq<nat>) {
    && (forall k :: 0 <= k < |picks| ==>
          picks[k] < |log| && log[picks[k]].key == key && from <= log[picks[k]].time <= to)
    && (forall k, l :: 0 <= k < l < |picks| ==> picks[k] < picks[l])
  }

  /** No second holds more picks than there are recent grants at its end ... */
  lemma {:induction false} PicksAreRecent(log: seq<Grant>, key: int, now: int, picks: seq<nat>)
    requires Picks(log, key, now - 999, now, picks)
    ensures |picks| <= Recent(log, key, now)
  {
    if picks != [] {
      var n, last := |picks| - 1, picks[|picks| - 1];
      assert log[last].key == key && now - log[last].time < WINDOW_MS;
      PicksAreRecent(log[..last], key, now, picks[..n]);
      assert log[..last + 1][..last] == log[..last];
      RecentOfPrefix(log, key, now, last + 1);
    }
  }

  lemma {:induction false} RecentOfPrefix(log: seq<Grant>, key: int, now: int, n: nat)
    requires n <= |log|
    ensures Recent(log[..n], key, now) <= Recent(log, key, now)
  {
    if n < |log| {
      RecentOfPrefix(log[..|log| - 1], key, now, n);
      assert log[..|log| - 1][..n] == log[..n];
    } else {
      assert log[..n] == log;
    }
  }

  /** ... and the recent grants can all be picked. */
  lemma {:induction false} RecentArePicks(log: seq<Grant>, key: int, now: int) returns (picks: seq<nat>)
    requires NoneAfter(log, now)
    ensures Picks(log, key, now - 999, now, picks) && |picks| == Recent(log, key, now)
  {
    picks := [];
    if log != [] {
      var last := log[|log| - 1];
      picks := RecentArePicks(log[..|log| - 1], key, now);
      if last.key == key && now - last.time < WINDOW_MS {
        picks := picks + [|log| - 1];
      }
    }
  }

  /** The key already got grants in the second before now with which one more would exceed the rate. */
  ghost predicate Full(log: seq<Grant>, key: int, rate: Rate, now: int) {
    exists picks: seq<nat> ::
      && Picks(log, key, now - 999, now, picks)
      && |picks| > 0 && !(rate.Finite? && (|picks| + 1) as real <= rate.r)
  }

  lemma FullIs(log: seq<Grant>, key: int, rate: Rate, now: int)
    requires NoneAfter(log, now)
    ensures Full(log, key, rate, now) <==> !Permits(rate, Recent(log, key, now) + 1)
  {
    if Full(log, key, rate, now) {
      var picks: seq<nat> :|
        && Picks(log, key, now - 999, now, picks)
        && |picks| > 0 && !(rate.Finite? && (|picks| + 1) as real <= rate.r);
      PicksAreRecent(log, key, now, picks);
      MoreExceeds(rate, |picks|, Recent(log, key, now));
    } else {
      var all := RecentArePicks(log, key, now);
      assert all == [] || Permits(rate, |all| + 1);
    }
  }

  lemma MoreExceeds(rate: Rate, m: nat, n: nat)
    requires 0 < m <= n && !(rate.Finite? && (m + 1) as real <= rate.r)
    ensures !Permits(rate, n + 1)
  {}

  /** In a disciplined log, the grants of any second respect the rate of the last of them. */
  lemma DisciplinedWindow(log: seq<Grant>, key: int, from: int, picks: seq<nat>)
    requires Disciplined(log) && Picks(log, key, from, from + 999, picks) && picks != []
    ensures Permits(log[picks[|picks| - 1]].rate, |picks|)
  {
    var n, init := |picks| - 1, log[..picks[|picks| - 1]];
    DisciplinedPrefix(log, picks[n] + 1);
    assert log[..picks[n] + 1][..picks[n]] == init;
    PicksAreRecent(init, key, log[picks[n]].time, picks[..n]);
  }

  lemma {:induction false} DisciplinedPrefix(log: seq<Grant>, n: nat)
    requires Disciplined(log) && n <= |log|
    ensures Disciplined(log[..n])
  {
    if n < |log| {
      DisciplinedPrefix(log[..|log| - 1], n);
      assert log[..|log| - 1][..n] == log[..n];
    } else {
      assert log[..n] == log;
    }
  }

  // ---- Whole runs --------------------------------------------------------------------

  datatype Pool = Pool(stamps: Stamps, log: seq<Grant>)

  function Step(p: Pool, r: Request): Pool {
    var (after, granted) := Take(p.stamps, r.key, r.rate, r.time);
    Pool(after, Logged(p.log, r.key, r.rate, r.time, granted))
  }

  /** The pool after the requests, from an empty map. */
  function Run(requests: seq<Request>): Pool {
    if requests == [] then Pool(map[], [])
    else Step(Run(requests[..|requests| - 1]), requests[|requests| - 1])
  }

  ghost predicate ClockNeverRunsBack(requests: seq<Request>) {
    forall i, j :: 0 <= i < j < |requests| ==> requests[i].time <= requests[j].time
  }

  lemma {:induction false} RunIsExact(requests: seq<Request>, now: int)
    requires ClockNeverRunsBack(requests)
    requires requests != [] ==> requests[|requests| - 1].time <= now
    ensures Represents(Run(requests).stamps, Run(requests).log, now)
    ensures Disciplined(Run(requests).log)
  {
    if requests != [] {
      var earlier, r := requests[..|requests| - 1], requests[|requests| - 1];
      RunIsExact(earlier, r.time);
      TakeIsExact(Run(earlier).stamps, Run(earlier).log, r.key, r.rate, r.time);
      RepresentsLater(Run(requests).stamps, Run(requests).log, r.time, now);
    }
  }

  /** Every grant answers a request of its own, in the order of the requests. */
  lemma {:induction false} GrantsAnswerRequests(requests: seq<Request>) returns (answered: seq<nat>)
    ensures var log := Run(requests).log;
            && |answered| == |log|
            && (forall k, l :: 0 <= k < l < |log| ==> answered[k] < answered[l])
            && (forall k :: 0 <= k < |log| ==>
                  && answered[k] < |requests|
                  && var r := requests[answered[k]]; log[k] == Grant(r.key, r.time, r.rate))
  {
    answered := [];
    if requests != [] {
      answered := GrantsAnswerRequests(requests[..|requests| - 1]);
      if Run(requests).log != Run(requests[..|requests| - 1]).log {
        answered := answered + [|requests| - 1];
      }
    }
  }

  /**
   * In every run with a clock that never runs back, whatever keys are interleaved and
   * however their rates change: grants to one key within one second number one, or no more
   * than the rate the last of them was asked for with.
   */
  lemma SlidingWindowHolds(requests: seq<Request>, key: int, from: int, picks: seq<nat>)
    requires ClockNeverRunsBack(requests)
    requires Picks(Run(requests).log, key, from, from + 999, picks)
    ensures |picks| > 1 ==>
      var rate := Run(requests).log[picks[|picks| - 1]].rate; rate.Finite? && |picks| as real <= rate.r
  {
    if requests != [] {
      RunIsExact(requests, requests[|requests| - 1].time);
    }
    if picks != [] {
      DisciplinedWindow(Run(requests).log, key, from, picks);
    }
  }

  /** A key asked for at one rate all along gets no more than that per second; below 1, it gets 1. */
  lemma SteadyRateHolds(requests: seq<Request>, key: int, rate: real, from: int, picks: seq<nat>)
    requires ClockNeverRunsBack(requests)
    requires forall r :: r in requests && r.key == key ==> r.rate == Finite(rate)
    requires Picks(Run(requests).log, key, from, from + 999, picks)
    ensures |picks| as real <= if rate >= 1.0 then rate else 1.0
  {
    SlidingWindowHolds(requests, key, from, picks);
    if |picks| > 1 {
      var answered := GrantsAnswerRequests(requests);
      assert requests[answered[picks[|picks| - 1]]] in requests;
    }
  }

  /**
   * A refusal is never spurious: the next request is granted unless the key already got
   * grants in the last second with which one more would exceed the rate asked for.
   */
  lemma RefusedOnlyWhenFull(requests: seq<Request>, r: Request)
    requires ClockNeverRunsBack(requests + [r])
    ensures Run(requests + [r]).log ==
            if Full(Run(requests).log, r.key, r.rate, r.time) then Run(requests).log
            else Run(requests).log + [Grant(r.key, r.time, r.rate)]
  {
    assert (requests + [r])[..|requests|] == requests;
    assert forall i :: 0 <= i < |requests| ==> (requests + [r])[i] == requests[i];
    assert (requests + [r])[|requests|] == r;
    RunIsExact(requests, r.time);
    TakeIsExact(Run(requests).stamps, Run(requests).log, r.key, r.rate, r.time);
    FullIs(Run(requests).log, r.key, r.rate, r.time);
  }
}
