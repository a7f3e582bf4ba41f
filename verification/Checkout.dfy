// Checkout placeholders: the query for stale ones, the guarded update that fails one, the
// expiry pass built from the two, and the newest-first choice an incoming deposit binds to.

module Checkout {
  import opened Text
  import Sorting

  datatype Status = Created | Pending | Success | Failed | Underpaid

  datatype Tx = Tx(
    wallet: nat, payer: Option<nat>, status: Status, txHash: string, amount: string,
    createdAt: int, deleted: bool, sessionKey: Option<string>, reference: Option<string>)

  /** A transaction's id is its position: ids are handed out in order and never reused. */
  type Rows = seq<Tx>

  const PREFIX := "gateway-created:"

  predicate Placeholder(tx: Tx) {
    PREFIX <= tx.txHash
  }

  /** SQL trim removes spaces only. */
  function TrimSpaces(s: string): string {
    if s != "" && s[0] == ' ' then TrimSpaces(s[1..])
    else if s != "" && s[|s| - 1] == ' ' then TrimSpaces(s[..|s| - 1])
    else s
  }

  /** Waiting for a payment: created, or stuck pending with amount 0. */
  predicate Waiting(tx: Tx) {
    tx.status == Created || (tx.status == Pending && TrimSpaces(tx.amount) == "0")
  }

  /** The condition shared by the query and the guarded update. */
  predicate Stale(tx: Tx, cutoff: int) {
    !tx.deleted && tx.createdAt < cutoff && Placeholder(tx) && Waiting(tx)
  }

  function Spaces(n: nat): (s: string)
    ensures |s| == n && forall i :: 0 <= i < n ==> s[i] == ' '
  {
    seq(n, _ => ' ')
  }

  lemma {:induction false} TrimSpacesCuts(s: string) returns (before: nat, after: nat)
    ensures s == Spaces(before) + TrimSpaces(s) + Spaces(after)
  {
    before, after := 0, 0;
    if s != "" && s[0] == ' ' {
      before, after := TrimSpacesCuts(s[1..]);
      before := before + 1;
      assert s == [' '] + s[1..];
      assert Spaces(before) == [' '] + Spaces(before - 1);
    } else if s != "" && s[|s| - 1] == ' ' {
      before, after := TrimSpacesCuts(s[..|s| - 1]);
      after := after + 1;
      assert s == s[..|s| - 1] + [' '];
      assert Spaces(after) == Spaces(after - 1) + [' '];
    }
  }

  lemma {:induction false} TrimSpacesIs(before: nat, s: string, after: nat)
    requires s != "" && s[0] != ' ' && s[|s| - 1] != ' '
    ensures TrimSpaces(Spaces(before) + s + Spaces(after)) == s
    decreases before, after
  {
    var all := Spaces(before) + s + Spaces(after);
    if before > 0 {
      assert all[1..] == Spaces(before - 1) + s + Spaces(after);
      TrimSpacesIs(before - 1, s, after);
    } else if after > 0 {
      assert all[0] == s[0] && all[..|all| - 1] == Spaces(0) + s + Spaces(after - 1);
      TrimSpacesIs(0, s, after - 1);
    } else {
      assert all == s;
    }
  }

  /** An amount of zero, with any spaces around the digit. */
  ghost predicate ZeroAmount(s: string) {
    exists before: nat, after: nat :: s == Spaces(before) + "0" + Spaces(after)
  }

  lemma ZeroAmountIff(s: string)
    ensures TrimSpaces(s) == "0" <==> ZeroAmount(s)
  {
    if TrimSpaces(s) == "0" {
      var before, after := TrimSpacesCuts(s);
    }
    if ZeroAmount(s) {
      var before: nat, after: nat :| s == Spaces(before) + "0" + Spaces(after);
      TrimSpacesIs(before, "0", after);
    }
  }

  /** What query and update ask of a row, in its own columns. */
  lemma StaleIs(tx: Tx, cutoff: int)
    ensures Stale(tx, cutoff) <==>
      && !tx.deleted && tx.createdAt < cutoff && "gateway-created:" <= tx.txHash
      && (tx.status == Created || (tx.status == Pending && ZeroAmount(tx.amount)))
  {
    ZeroAmountIff(tx.amount);
  }

  /** Ids of stale rows, oldest first, at most size of them; ties in any order. */
  ghost predicate IsBatch(rows: Rows, cutoff: int, size: nat, ids: seq<int>) {
    && |ids| <= size
    && (forall k :: 0 <= k < |ids| ==> 0 <= ids[k] < |rows| && Stale(rows[ids[k]], cutoff))
    && (forall k, l :: 0 <= k < l < |ids| ==> ids[k] != ids[l] && rows[ids[k]].createdAt <= rows[ids[l]].createdAt)
    && (forall i :: 0 <= i < |rows| && Stale(rows[i], cutoff) && i !in ids ==>
          |ids| == size && forall k :: 0 <= k < size ==> rows[ids[k]].createdAt <= rows[i].createdAt)
  }

  /** The guarded update; None when it matches no row. */
  function Marked(rows: Rows, id: nat, cutoff: int): Option<Rows> {
    if id < |rows| && Stale(rows[id], cutoff) then Some(rows[id := rows[id].(status := Failed)]) else None
  }

  // ---- One batch ---------------------------------------------------------------------

  function CreatedAt(rows: Rows, id: int): int {
    if 0 <= id < |rows| then rows[id].createdAt else 0
  }

  /** Older first; ids decide between rows of one date, where the query leaves the order open. */
  function Older(rows: Rows): (int, int) -> bool {
    (i: int, j: int) => CreatedAt(rows, i) < CreatedAt(rows, j) || (CreatedAt(rows, i) == CreatedAt(rows, j) && i < j)
  }

  /** The ids below n whose rows satisfy the condition, oldest first. */
  function OldestIds(rows: Rows, wanted: Tx -> bool, n: nat): seq<int>
    requires n <= |rows|
  {
    if n == 0 then []
    else if wanted(rows[n - 1]) then Sorting.InsertBy(Older(rows), n - 1, OldestIds(rows, wanted, n - 1))
    else OldestIds(rows, wanted, n - 1)
  }

  function FindBatch(rows: Rows, cutoff: int, size: nat): seq<int> {
    var ids := OldestIds(rows, tx => Stale(tx, cutoff), |rows|);
    if |ids| < size then ids else ids[..size]
  }

  ghost predicate OldestFirst(rows: Rows, ids: seq<int>) {
    && (forall k :: 0 <= k < |ids| ==> 0 <= ids[k] < |rows|)
    && forall k, l :: 0 <= k < l < |ids| ==> ids[k] != ids[l] && rows[ids[k]].createdAt <= rows[ids[l]].createdAt
  }

  lemma {:induction false} OldestIdsMembers(rows: Rows, wanted: Tx -> bool, n: nat, i: int)
    requires n <= |rows|
    ensures i in OldestIds(rows, wanted, n) <==> 0 <= i < n && wanted(rows[i])
  {
    if n > 0 {
      OldestIdsMembers(rows, wanted, n - 1, i);
      Sorting.InsertMembers(Older(rows), n - 1, OldestIds(rows, wanted, n - 1), i);
    }
  }

  lemma {:induction false} OldestIdsSorted(rows: Rows, wanted: Tx -> bool, n: nat)
    requires n <= |rows|
    ensures Sorting.OrderedBy(Older(rows), OldestIds(rows, wanted, n))
  {
    if n > 0 {
      var rest := OldestIds(rows, wanted, n - 1);
      OldestIdsSorted(rows, wanted, n - 1);
      forall i | i in rest ensures i != n - 1 {
        OldestIdsMembers(rows, wanted, n - 1, i);
      }
      if wanted(rows[n - 1]) {
        Sorting.InsertOrdered(Older(rows), n - 1, rest);
      }
    }
  }

  lemma OldestIdsOrdered(rows: Rows, wanted: Tx -> bool, n: nat)
    requires n <= |rows|
    ensures OldestFirst(rows, OldestIds(rows, wanted, n))
  {
    var ids := OldestIds(rows, wanted, n);
    OldestIdsSorted(rows, wanted, n);
    forall k | 0 <= k < |ids| ensures 0 <= ids[k] < |rows| {
      OldestIdsMembers(rows, wanted, n, ids[k]);
    }
    forall k, l | 0 <= k < l < |ids|
      ensures ids[k] != ids[l] && rows[ids[k]].createdAt <= rows[ids[l]].createdAt
    {
      assert Older(rows)(ids[k], ids[l]);
    }
  }

  lemma LeftOutIsNewer(rows: Rows, all: seq<int>, size: nat, i: int)
    requires OldestFirst(rows, all) && size <= |all| && i in all && i !in all[..size]
    ensures forall k :: 0 <= k < size ==> rows[all[k]].createdAt <= rows[i].createdAt
  {
    var l :| 0 <= l < |all| && all[l] == i;
    assert forall k :: 0 <= k < size ==> all[..size][k] == all[k];
    assert l >= size;
  }

  ghost predicate ListsStale(rows: Rows, cutoff: int, all: seq<int>) {
    forall i :: i in all <==> 0 <= i < |rows| && Stale(rows[i], cutoff)
  }

  lemma AllIsBatch(rows: Rows, cutoff: int, size: nat, all: seq<int>)
    requires OldestFirst(rows, all) && ListsStale(rows, cutoff, all) && |all| <= size
    ensures IsBatch(rows, cutoff, size, all)
  {
    forall k | 0 <= k < |all|
      ensures Stale(rows[all[k]], cutoff)
    {
      assert all[k] in all;
    }
  }

  lemma PrefixIsBatch(rows: Rows, cutoff: int, size: nat, all: seq<int>)
    requires OldestFirst(rows, all) && ListsStale(rows, cutoff, all) && |all| >= size
    ensures IsBatch(rows, cutoff, size, all[..size])
  {
    var ids := all[..size];
    forall k | 0 <= k < size
      ensures ids[k] == all[k] && 0 <= ids[k] < |rows| && Stale(rows[ids[k]], cutoff)
    {
      assert all[k] in all;
    }
    forall i | 0 <= i < |rows| && Stale(rows[i], cutoff) && i !in ids
      ensures forall k :: 0 <= k < size ==> rows[ids[k]].createdAt <= rows[i].createdAt
    {
      LeftOutIsNewer(rows, all, size, i);
    }
  }

  /** The batch the query returns: the oldest stale rows, and all of them if fewer than size. */
  lemma FindBatchIsBatch(rows: Rows, cutoff: int, size: nat)
    ensures IsBatch(rows, cutoff, size, FindBatch(rows, cutoff, size)) && |FindBatch(rows, cutoff, size)| <= size
  {
    var stale := tx => Stale(tx, cutoff);
    OldestIdsOrdered(rows, stale, |rows|);
    var all := OldestIds(rows, stale, |rows|);
    forall i
      ensures i in all <==> 0 <= i < |rows| && Stale(rows[i], cutoff)
    {
      OldestIdsMembers(rows, stale, |rows|, i);
    }
    if |all| < size {
      AllIsBatch(rows, cutoff, size, all);
    } else {
      PrefixIsBatch(rows, cutoff, size, all);
    }
  }

  // ---- A whole pass ------------------------------------------------------------------

  function Expired(rows: Rows, cutoff: int): (out: Rows)
    ensures |out| == |rows|
    ensures forall i :: 0 <= i < |rows| ==>
              out[i] == if Stale(rows[i], cutoff) then rows[i].(status := Failed) else rows[i]
  {
    seq(|rows|, i requires 0 <= i < |rows| => if Stale(rows[i], cutoff) then rows[i].(status := Failed) else rows[i])
  }

  function CountStale(rows: Rows, cutoff: int): nat {
    if rows == [] then 0
    else CountStale(rows[..|rows| - 1], cutoff) + (if Stale(rows[|rows| - 1], cutoff) then 1 else 0)
  }

  function StaleIndices(rows: Rows, cutoff: int): set<int> {
    set i | 0 <= i < |rows| && Stale(rows[i], cutoff)
  }

  lemma OneMoreStale(init: Rows, last: Tx, cutoff: int)
    ensures StaleIndices(init + [last], cutoff) ==
            StaleIndices(init, cutoff) + (if Stale(last, cutoff) then {|init|} else {})
  {
    forall i ensures i in StaleIndices(init + [last], cutoff) <==>
        i in StaleIndices(init, cutoff) || (i == |init| && Stale(last, cutoff)) {
      if 0 <= i < |init| {
        assert (init + [last])[i] == init[i];
      }
    }
  }

  lemma {:induction false} CountStaleIs(rows: Rows, cutoff: int)
    ensures CountStale(rows, cutoff) == |StaleIndices(rows, cutoff)|
  {
    if rows == [] {
      assert StaleIndices(rows, cutoff) == {};
    } else {
      var init, last := rows[..|rows| - 1], rows[|rows| - 1];
      CountStaleIs(init, cutoff);
      OneMoreStale(init, last, cutoff);
      assert rows == init + [last] && |init| !in StaleIndices(init, cutoff);
      assert StaleIndices(init, cutoff) + {} == StaleIndices(init, cutoff);
    }
  }

  lemma {:induction false} MarkLowersCount(rows: Rows, id: nat, cutoff: int)
    requires id < |rows| && Stale(rows[id], cutoff)
    ensures CountStale(rows[id := rows[id].(status := Failed)], cutoff) == CountStale(rows, cutoff) - 1
  {
    var out := rows[id := rows[id].(status := Failed)];
    if id == |rows| - 1 {
      assert out[..|out| - 1] == rows[..|rows| - 1];
    } else {
      assert out[..|out| - 1] == rows[..|rows| - 1][id := rows[id].(status := Failed)];
      MarkLowersCount(rows[..|rows| - 1], id, cutoff);
    }
  }

  lemma {:induction false} NoneStale(rows: Rows, cutoff: int)
    requires forall i :: 0 <= i < |rows| ==> !Stale(rows[i], cutoff)
    ensures CountStale(rows, cutoff) == 0
  {
    if rows != [] {
      NoneStale(rows[..|rows| - 1], cutoff);
    }
  }

  /** Every row is as before, or was stale and is now failed. */
  ghost predicate PartlyExpired(before: Rows, rows: Rows, cutoff: int) {
    && |rows| == |before|
    && forall i :: 0 <= i < |rows| ==>
         rows[i] == before[i] || (Stale(before[i], cutoff) && rows[i] == before[i].(status := Failed))
  }

  lemma MarkStep(before: Rows, rows: Rows, id: nat, cutoff: int)
    requires PartlyExpired(before, rows, cutoff) && id < |rows| && Stale(rows[id], cutoff)
    ensures var out := rows[id := rows[id].(status := Failed)];
            && PartlyExpired(before, out, cutoff)
            && CountStale(out, cutoff) == CountStale(rows, cutoff) - 1
            && forall i :: 0 <= i < |rows| && i != id ==> out[i] == rows[i]
  {
    MarkLowersCount(rows, id, cutoff);
  }

  lemma PassEnds(before: Rows, rows: Rows, cutoff: int, size: nat)
    requires PartlyExpired(before, rows, cutoff) && IsBatch(rows, cutoff, size, []) && size >= 1
    ensures rows == Expired(before, cutoff) && CountStale(rows, cutoff) == 0
  {
    assert forall i :: 0 <= i < |rows| ==> !Stale(rows[i], cutoff);
    NoneStale(rows, cutoff);
  }

  class TransactionTable {
    var rows: Rows

    constructor (rows: Rows)
      ensures this.rows == rows
    {
      this.rows := rows;
    }

    method MarkFailed(id: nat, cutoff: int) returns (updated: bool)
      modifies this
      ensures updated <==> id < |old(rows)| && Stale(old(rows)[id], cutoff)
      ensures rows == if updated then old(rows)[id := old(rows)[id].(status := Failed)] else old(rows)
    {
      updated := id < |rows| && Stale(rows[id], cutoff);
      if updated {
        rows := rows[id := rows[id].(status := Failed)];
      }
    }

    /**
     * Batches until none is left. Undisturbed, a pass fails every stale placeholder
     * exactly once, changes no other row, and reports how many it failed.
     */
    method ExpireStale(cutoff: int, batchSize: nat) returns (total: nat)
      requires batchSize >= 1
      modifies this
      ensures |rows| == |old(rows)|
      ensures forall i :: 0 <= i < |rows| ==>
                rows[i] == if Stale(old(rows)[i], cutoff) then old(rows)[i].(status := Failed) else old(rows)[i]
      ensures total == |set i | 0 <= i < |old(rows)| && Stale(old(rows)[i], cutoff)|
    {
      CountStaleIs(rows, cutoff);
      assert StaleIndices(rows, cutoff) == set i | 0 <= i < |rows| && Stale(rows[i], cutoff);
      total := 0;
      ghost var before := rows;
      while true
        invariant PartlyExpired(before, rows, cutoff)
        invariant total + CountStale(rows, cutoff) == CountStale(before, cutoff)
        decreases CountStale(rows, cutoff)
      {
        var batch := FindBatch(rows, cutoff, batchSize);
        FindBatchIsBatch(rows, cutoff, batchSize);
        if batch == [] {
          PassEnds(before, rows, cutoff, batchSize);
          break;
        }
        ghost var found := CountStale(rows, cutoff);
        for k := 0 to |batch|
          invariant PartlyExpired(before, rows, cutoff)
          invariant forall l :: k <= l < |batch| ==> 0 <= batch[l] < |rows| && Stale(rows[batch[l]], cutoff)
          invariant total + CountStale(rows, cutoff) == CountStale(before, cutoff)
          invariant CountStale(rows, cutoff) == found - k
        {
          MarkStep(before, rows, batch[k], cutoff);
          var updated := MarkFailed(batch[k], cutoff);
          if !updated { continue; }
          total := total + 1;
        }
      }
    }
  }

  // ---- Newest-first binding ----------------------------------------------------------

  datatype Wallet = Wallet(assignedUser: Option<nat>, deleted: bool)

  datatype Binding = Binding(sessionKey: Option<string>, reference: Option<string>)

  /** The where clause: an open created placeholder of the wallet, for the payer if one is given. */
  predicate Open(tx: Tx, wallet: nat, payer: Option<nat>) {
    && tx.wallet == wallet && tx.status == Created && Placeholder(tx) && !tx.deleted
    && (payer.Some? ==> tx.payer == payer)
  }

  /** Order by created_at, then id. */
  predicate NoLater(rows: Rows, i: nat, j: nat)
    requires i < |rows| && j < |rows|
  {
    rows[i].createdAt < rows[j].createdAt || (rows[i].createdAt == rows[j].createdAt && i <= j)
  }

  /** findFirst by descending (created_at, id) among the rows below n. */
  function NewestBelow(rows: Rows, wallet: nat, payer: Option<nat>, n: nat): (r: Option<nat>)
    requires n <= |rows|
    ensures r.Some? ==> r.value < n
  {
    if n == 0 then None
    else
      var rest := NewestBelow(rows, wallet, payer, n - 1);
      if Open(rows[n - 1], wallet, payer) && (rest.None? || NoLater(rows, rest.value, n - 1)) then Some(n - 1) else rest
  }

  function PayerFilter(wallets: map<nat, Wallet>, wallet: nat, payer: Option<nat>, ignorePayer: bool): Option<nat> {
    if ignorePayer then None
    else if payer.Some? then payer
    else if wallet in wallets && !wallets[wallet].deleted then wallets[wallet].assignedUser
    else None
  }

  function NonEmpty(s: Option<string>): Option<string> {
    if s.Some? && s.value != "" then s else None
  }

  function NewestOpenCheckout(
    clientKnowsCreated: bool, rows: Rows, wallets: map<nat, Wallet>, wallet: nat, payer: Option<nat>,
      ignorePayer: bool): Option<Binding>
  {
    if !clientKnowsCreated then None
    else
      match NewestBelow(rows, wallet, PayerFilter(wallets, wallet, payer, ignorePayer), |rows|)
      case None => None
      case Some(i) => Some(Binding(NonEmpty(rows[i].sessionKey), NonEmpty(rows[i].reference)))
  }

  function SessionKeyForDeposit(clientKnowsCreated: bool, rows: Rows, wallets: map<nat, Wallet>, wallet: nat,
      payer: Option<nat>): Option<string> {
    match NewestOpenCheckout(clientKnowsCreated, rows, wallets, wallet, payer, false)
    case None => None
    case Some(b) => b.sessionKey
  }

  function ReferenceForDeposit(clientKnowsCreated: bool, rows: Rows, wallets: map<nat, Wallet>, wallet: nat,
      payer: Option<nat>): Option<string> {
    match NewestOpenCheckout(clientKnowsCreated, rows, wallets, wallet, payer, false)
    case None => None
    case Some(b) => b.reference
  }

  lemma {:induction false} NewestIsNewest(rows: Rows, wallet: nat, payer: Option<nat>, n: nat)
    requires n <= |rows|
    ensures var r := NewestBelow(rows, wallet, payer, n);
            && (r.None? ==> forall j :: 0 <= j < n ==> !Open(rows[j], wallet, payer))
            && (r.Some? ==>
                  && Open(rows[r.value], wallet, payer)
                  && forall j :: 0 <= j < n && Open(rows[j], wallet, payer) ==> NoLater(rows, j, r.value))
  {
    if n > 0 {
      NewestIsNewest(rows, wallet, payer, n - 1);
    }
  }

  /** A row the query may answer with: an open created placeholder of the wallet, of the payer asked for if any. */
  lemma OpenIs(tx: Tx, wallet: nat, payer: Option<nat>)
    ensures Open(tx, wallet, payer) <==>
      && tx.wallet == wallet && tx.status == Created && !tx.deleted && "gateway-created:" <= tx.txHash
      && (payer.None? || tx.payer == payer)
  {}

  /** Whom the query asks for: nobody in particular if told so, else the payer, else the wallet's present one. */
  predicate AsksFor(
    who: Option<nat>, wallets: map<nat, Wallet>, wallet: nat, payer: Option<nat>, ignorePayer: bool)
  {
    && (ignorePayer ==> who == None)
    && (!ignorePayer && payer.Some? ==> who == payer)
    && (!ignorePayer && payer.None? && wallet in wallets && !wallets[wallet].deleted ==>
          who == wallets[wallet].assignedUser)
    && (!ignorePayer && payer.None? && (wallet !in wallets || wallets[wallet].deleted) ==> who == None)
  }

  /**
   * One query answers with the newest open created checkout by (created_at, id), and each
   * of the two functions built on it with its own part of the row it saw. A client that
   * does not know the status created has no answer.
   */
  lemma BindingIsNewest(
    rows: Rows, wallets: map<nat, Wallet>, wallet: nat, payer: Option<nat>, ignorePayer: bool, who: Option<nat>)
    requires AsksFor(who, wallets, wallet, payer, ignorePayer)
    ensures var b := NewestOpenCheckout(true, rows, wallets, wallet, payer, ignorePayer);
            if b.None? then forall j :: 0 <= j < |rows| ==> !Open(rows[j], wallet, who)
            else
              exists i :: 0 <= i < |rows| && Open(rows[i], wallet, who)
                && (forall j :: 0 <= j < |rows| && j != i && Open(rows[j], wallet, who) ==>
                      || rows[j].createdAt < rows[i].createdAt
                      || (rows[j].createdAt == rows[i].createdAt && j < i))
                && Carried(rows[i].sessionKey, b.value.sessionKey) && Carried(rows[i].reference, b.value.reference)
                && (!ignorePayer ==>
                      && SessionKeyForDeposit(true, rows, wallets, wallet, payer) == b.value.sessionKey
                      && ReferenceForDeposit(true, rows, wallets, wallet, payer) == b.value.reference)
    ensures NewestOpenCheckout(false, rows, wallets, wallet, payer, ignorePayer) == None
  {
    assert PayerFilter(wallets, wallet, payer, ignorePayer) == who;
    NewestIsNewest(rows, wallet, who, |rows|);
  }

  /** A text of the row is passed on unless it is empty. */
  predicate Carried(column: Option<string>, passed: Option<string>) {
    passed == if column == Some("") then None else column
  }
}
