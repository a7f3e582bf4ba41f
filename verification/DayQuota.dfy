// Rows of the explorer key table: the UTC-day quota that rolls over, and the list of
// keys that still have budget, in the administrator's order.

module DayQuota {
  import opened Text
  import opened SlidingWindow
  import Lists
  import Sorting

  datatype Rail = Erc20 | Trc20

  /** usageDay is the UTC calendar day requestsToday applies to. */
  datatype KeyRow = KeyRow(
    id: int, rail: Rail, name: string, cipher: string,
    maxPerDay: int, maxPerSecond: Rate, requestsToday: int, usageDay: int,
    sortOrder: int, active: bool)

  datatype Credential = Credential(keyId: int, apiKey: string, keyName: string, maxPerSecond: Rate)

  const MS_PER_DAY := 86_400_000

  /** The UTC calendar day of a time in milliseconds since the epoch. */
  function DayOf(now: int): (day: int)
    ensures day * 86_400_000 <= now < (day + 1) * 86_400_000
  {
    now / MS_PER_DAY
  }

  /** Successful requests counted for today. */
  function EffectiveRequests(row: KeyRow, today: int): int {
    if row.usageDay == today then row.requestsToday else 0
  }

  /** One guarded UPDATE; None where its WHERE clause matches no row. */
  function Recorded(row: KeyRow, today: int): Option<KeyRow> {
    if row.active && (row.usageDay < today || row.requestsToday < row.maxPerDay) then
      if row.usageDay < today then Some(row.(requestsToday := 1, usageDay := today))
      else Some(row.(requestsToday := row.requestsToday + 1))
    else None
  }

  // ---- The quota agrees with the log of successes ------------------------------------

  /** The row after successes on the given days. */
  function RecordAll(row: KeyRow, days: seq<int>): KeyRow {
    if days == [] then row
    else
      var before := RecordAll(row, days[..|days| - 1]);
      match Recorded(before, days[|days| - 1])
      case None => before
      case Some(after) => after
  }

  function Min(a: int, b: int): int {
    if a < b then a else b
  }

  /** Days never run back, start no earlier than the row's own day, and end by today. */
  ghost predicate DaysOnward(row: KeyRow, days: seq<int>, today: int) {
    && (forall i, j :: 0 <= i < j < |days| ==> days[i] <= days[j])
    && (forall i :: 0 <= i < |days| ==> row.usageDay <= days[i] <= today)
  }

  lemma {:induction false} UsageDayBehind(row: KeyRow, days: seq<int>, today: int)
    requires DaysOnward(row, days, today)
    ensures var after := RecordAll(row, days);
            && after == row.(requestsToday := after.requestsToday, usageDay := after.usageDay)
            && row.usageDay <= after.usageDay <= (if days == [] then row.usageDay else days[|days| - 1])
  {
    if days != [] {
      UsageDayBehind(row, days[..|days| - 1], days[|days| - 1]);
    }
  }

  lemma LastSuccess(days: seq<int>, day: int)
    requires days != []
    ensures var init, last := days[..|days| - 1], days[|days| - 1];
            multiset(days)[day] == multiset(init)[day] + (if last == day then 1 else 0)
  {
    assert days == days[..|days| - 1] + [days[|days| - 1]];
  }

  lemma NoSuccessYet(days: seq<int>, day: int)
    requires forall i :: 0 <= i < |days| ==> days[i] < day
    ensures multiset(days)[day] == 0
  {
    assert day !in days;
  }

  function Max(a: int, b: int): int {
    if a < b then b else a
  }

  /**
   * While the key is active and its cap positive, the effective count is always the number
   * of today's successes (on top of what the row started with), capped. Where the cap was
   * lowered below a count already reached, that count stands until the day is over.
   */
  lemma {:induction false} QuotaAgreesWithLog(row: KeyRow, days: seq<int>, today: int)
    requires row.active && row.maxPerDay >= 1 && DaysOnward(row, days, today)
    ensures var counted := if row.usageDay == today then row.requestsToday else 0;
            EffectiveRequests(RecordAll(row, days), today) ==
            Max(counted, Min(row.maxPerDay, counted + multiset(days)[today]))
    ensures row.requestsToday <= row.maxPerDay ==> RecordAll(row, days).requestsToday <= row.maxPerDay
  {
    if days != [] {
      var earlier, d := days[..|days| - 1], days[|days| - 1];
      UsageDayBehind(row, earlier, d);
      QuotaAgreesWithLog(row, earlier, d);
      LastSuccess(days, today);
      if d < today {
        assert forall i :: 0 <= i < |days| ==> days[i] <= d;
        NoSuccessYet(days, today);
      }
    }
  }

  /**
   * The first success of a new day stores 1 whatever the cap, so the counter of a fresh row
   * stays within its cap in every run iff the cap is at least 1, which the administrator's
   * API asks of every key.
   */
  lemma QuotaHoldsIff(row: KeyRow)
    requires row.active && row.requestsToday == 0 && row.maxPerDay >= 0
    ensures (forall days, today :: DaysOnward(row, days, today) ==>
               RecordAll(row, days).requestsToday <= row.maxPerDay)
       <==> row.maxPerDay >= 1
  {
    if row.maxPerDay >= 1 {
      forall days, today | DaysOnward(row, days, today)
        ensures RecordAll(row, days).requestsToday <= row.maxPerDay
      {
        QuotaAgreesWithLog(row, days, today);
      }
    } else {
      var days := [row.usageDay + 1];
      assert days[..0] == [];
      assert RecordAll(row, []) == row;
      assert DaysOnward(row, days, row.usageDay + 1);
      assert RecordAll(row, days).requestsToday == 1;
    }
  }

  // ---- The ordered list of keys with budget ------------------------------------------

  /** Order by sort_order, then id. */
  predicate Before(a: KeyRow, b: KeyRow) {
    a.sortOrder < b.sortOrder || (a.sortOrder == b.sortOrder && a.id < b.id)
  }

  /** findMany: the rail's active rows in order. */
  function ActiveOrdered(rows: seq<KeyRow>, rail: Rail): seq<KeyRow> {
    if rows == [] then []
    else
      var rest := ActiveOrdered(rows[1..], rail);
      if rows[0].rail == rail && rows[0].active then Sorting.InsertBy(Before, rows[0], rest) else rest
  }

  /** The trimmed plaintext of a key, if decryption succeeds and leaves anything. */
  function Plaintext(row: KeyRow, decrypt: string -> Option<string>): Option<string> {
    match decrypt(row.cipher)
    case None => None
    case Some(p) => if Trim(p) == "" then None else Some(Trim(p))
  }

  predicate HasBudget(row: KeyRow, today: int, decrypt: string -> Option<string>) {
    EffectiveRequests(row, today) < row.maxPerDay && Plaintext(row, decrypt).Some?
  }

  function CredentialOf(row: KeyRow, decrypt: string -> Option<string>): Credential
    requires Plaintext(row, decrypt).Some?
  {
    Credential(
      row.id,
      Plaintext(row, decrypt).value,
      if Trim(row.name) != "" then Trim(row.name) else "key #" + PrintInt(row.id),
      row.maxPerSecond)
  }

  /** The rows listed, in order. */
  function WithBudget(rows: seq<KeyRow>, today: int, decrypt: string -> Option<string>): (listed: seq<KeyRow>)
    ensures forall r :: r in listed <==> r in rows && HasBudget(r, today, decrypt)
    ensures forall i :: 0 <= i < |listed| ==> Plaintext(listed[i], decrypt).Some?
  {
    if rows == [] then []
    else
      var rest := WithBudget(rows[1..], today, decrypt);
      if HasBudget(rows[0], today, decrypt) then [rows[0]] + rest else rest
  }

  function Credentials(listed: seq<KeyRow>, decrypt: string -> Option<string>): (out: seq<Credential>)
    requires forall i :: 0 <= i < |listed| ==> Plaintext(listed[i], decrypt).Some?
    ensures |out| == |listed|
    ensures forall i :: 0 <= i < |out| ==> out[i] == CredentialOf(listed[i], decrypt)
  {
    seq(|listed|, i requires 0 <= i < |listed| => CredentialOf(listed[i], decrypt))
  }

  function ListedRows(rows: seq<KeyRow>, rail: Rail, today: int, decrypt: string -> Option<string>): seq<KeyRow> {
    WithBudget(ActiveOrdered(rows, rail), today, decrypt)
  }

  function Listing(rows: seq<KeyRow>, rail: Rail, today: int, decrypt: string -> Option<string>): seq<Credential> {
    Credentials(ListedRows(rows, rail, today, decrypt), decrypt)
  }

  /** The loop over the query result: skip exhausted and undecryptable keys, push the rest. */
  method ListWithBudget(rows: seq<KeyRow>, rail: Rail, today: int, decrypt: string -> Option<string>)
    returns (out: seq<Credential>)
    ensures out == Listing(rows, rail, today, decrypt)
  {
    var found := ActiveOrdered(rows, rail);
    out := [];
    for i := 0 to |found|
      invariant out == Credentials(WithBudget(found[..i], today, decrypt), decrypt)
    {
      var row := found[i];
      WithBudgetAppend(found[..i], row, today, decrypt);
      assert found[..i + 1] == found[..i] + [row];
      if EffectiveRequests(row, today) >= row.maxPerDay {
        continue;
      }
      var apiKey := Plaintext(row, decrypt);
      if apiKey.None? {
        continue;
      }
      var name := if Trim(row.name) != "" then Trim(row.name) else "key #" + PrintInt(row.id);
      out := out + [Credential(row.id, apiKey.value, name, row.maxPerSecond)];
    }
    assert found[..|found|] == found;
  }

  lemma {:induction false} WithBudgetAppend(
      rows: seq<KeyRow>, row: KeyRow, today: int, decrypt: string -> Option<string>)
    ensures WithBudget(rows + [row], today, decrypt) ==
            WithBudget(rows, today, decrypt) + (if HasBudget(row, today, decrypt) then [row] else [])
  {
    if rows == [] {
      assert rows + [row] == [row];
      assert [row][1..] == [];
    } else {
      var more := if HasBudget(row, today, decrypt) then [row] else [];
      WithBudgetAppend(rows[1..], row, today, decrypt);
      assert (rows + [row])[1..] == rows[1..] + [row];
      Lists.Regroup([rows[0]], WithBudget(rows[1..], today, decrypt), more);
    }
  }

  // ---- What the list contains, and in which order ------------------------------------

  ghost predicate DistinctIds(rows: seq<KeyRow>) {
    forall i, j :: 0 <= i < j < |rows| ==> rows[i].id != rows[j].id
  }

  ghost predicate InOrder(rows: seq<KeyRow>) {
    Sorting.OrderedBy(Before, rows)
  }

  lemma InsertInOrder(row: KeyRow, rows: seq<KeyRow>)
    requires InOrder(rows) && forall r :: r in rows ==> r.id != row.id
    ensures InOrder(Sorting.InsertBy(Before, row, rows))
    ensures forall r :: r in Sorting.InsertBy(Before, row, rows) <==> r == row || r in rows
  {
    Sorting.InsertOrdered(Before, row, rows);
    forall r ensures r in Sorting.InsertBy(Before, row, rows) <==> r == row || r in rows {
      Sorting.InsertMembers(Before, row, rows, r);
    }
  }

  lemma {:induction false} ActiveInOrder(rows: seq<KeyRow>, rail: Rail)
    requires DistinctIds(rows)
    ensures InOrder(ActiveOrdered(rows, rail))
    ensures forall r :: r in ActiveOrdered(rows, rail) <==> r in rows && r.rail == rail && r.active
  {
    if rows != [] {
      ActiveInOrder(rows[1..], rail);
      assert forall r :: r in rows[1..] ==> r.id != rows[0].id;
      assert rows == [rows[0]] + rows[1..];
      if rows[0].rail == rail && rows[0].active {
        InsertInOrder(rows[0], ActiveOrdered(rows[1..], rail));
      }
    }
  }

  lemma {:induction false} WithBudgetInOrder(rows: seq<KeyRow>, today: int, decrypt: string -> Option<string>)
    requires InOrder(rows)
    ensures InOrder(WithBudget(rows, today, decrypt))
  {
    if rows != [] {
      WithBudgetInOrder(rows[1..], today, decrypt);
      assert forall r :: r in rows[1..] ==> Before(rows[0], r);
    }
  }

  /**
   * A row is listed exactly when it is an active key of the rail with day budget left
   * and a plaintext that is not blank, and the list is in strict (sort_order, id) order.
   */
  lemma ListedExactly(rows: seq<KeyRow>, rail: Rail, today: int, decrypt: string -> Option<string>)
    requires DistinctIds(rows)
    ensures var listed := ListedRows(rows, rail, today, decrypt);
            && (forall i, j :: 0 <= i < j < |listed| ==>
                  || listed[i].sortOrder < listed[j].sortOrder
                  || (listed[i].sortOrder == listed[j].sortOrder && listed[i].id < listed[j].id))
            && forall r :: r in listed <==>
                 && r in rows && r.rail == rail && r.active
                 && (if r.usageDay == today then r.requestsToday else 0) < r.maxPerDay
                 && decrypt(r.cipher).Some? && Trim(decrypt(r.cipher).value) != ""
  {
    ActiveInOrder(rows, rail);
    WithBudgetInOrder(ActiveOrdered(rows, rail), today, decrypt);
  }

  /** The credentials handed out are those of the listed rows, one each, in their order. */
  lemma ListingCarries(rows: seq<KeyRow>, rail: Rail, today: int, decrypt: string -> Option<string>)
    ensures var out, listed := Listing(rows, rail, today, decrypt), ListedRows(rows, rail, today, decrypt);
            && |out| == |listed|
            && forall i :: 0 <= i < |out| ==>
                 && out[i].keyId == listed[i].id && out[i].maxPerSecond == listed[i].maxPerSecond
                 && decrypt(listed[i].cipher).Some? && out[i].apiKey == Trim(decrypt(listed[i].cipher).value)
                 && (Trim(listed[i].name) != "" ==> out[i].keyName == Trim(listed[i].name))
                 && (Trim(listed[i].name) == "" ==> out[i].keyName == "key #" + PrintInt(listed[i].id))
  {
    var listed := ListedRows(rows, rail, today, decrypt);
    assert forall i :: 0 <= i < |listed| ==> listed[i] in listed;
  }

  /**
   * A key with a positive cap is listed exactly while today's successes, with what its row
   * already counted for today, stay below the cap: an exhausted key is never listed.
   */
  lemma ListedWhileUnderCap(
    rows: seq<KeyRow>, row: KeyRow, days: seq<int>, today: int, decrypt: string -> Option<string>)
    requires DistinctIds(rows) && RecordAll(row, days) in rows
    requires row.active && row.maxPerDay >= 1
    requires DaysOnward(row, days, today) && decrypt(row.cipher).Some? && Trim(decrypt(row.cipher).value) != ""
    ensures RecordAll(row, days) in ListedRows(rows, row.rail, today, decrypt) <==>
            (if row.usageDay == today then row.requestsToday else 0) + multiset(days)[today] < row.maxPerDay
  {
    UsageDayBehind(row, days, today);
    QuotaAgreesWithLog(row, days, today);
    ListedExactly(rows, row.rail, today, decrypt);
  }
}
