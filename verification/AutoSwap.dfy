// Auto-swap settings: reading the stored JSON in any of its accepted shapes, and merging
// a partial update into it.

module AutoSwap {
  import opened Lists
  import opened Text

  /**
   * A destination row as found: None where the value is not a string (for the minimum,
   * where it is null), otherwise its text.
   */
  datatype RawRow = RawRow(rail: Option<string>, treasury: Option<string>, address: Option<string>,
    minDecimal: Option<string>, minAmount: Option<string>)

  /** A property of the minimum map; None is null. */
  datatype MinEntry = MinEntry(key: string, value: Option<string>)

  /**
   * Settings JSON as found; the version when it is an integer. Anything but an object reads
   * as no rows and no entries.
   */
  datatype Raw = Raw(version: Option<int>, rows: seq<RawRow>, mins: seq<MinEntry>)

  datatype Dest = Dest(rail: string, address: string)

  /** Normalized settings. The minimums are an object read by key only. */
  datatype Settings = Settings(version: int, destinations: seq<Dest>, mins: map<string, string>)

  // ---- The insertion-ordered Map -----------------------------------------------------

  /** Map.set: overwrite where the key is, or append. */
  function Put(d: seq<Dest>, rail: string, address: string): seq<Dest> {
    if d == [] then [Dest(rail, address)]
    else if d[0].rail == rail then [Dest(rail, address)] + d[1..]
    else [d[0]] + Put(d[1..], rail, address)
  }

  function PutAll(d: seq<Dest>, more: seq<Dest>): seq<Dest> {
    if more == [] then d
    else Put(PutAll(d, more[..|more| - 1]), more[|more| - 1].rail, more[|more| - 1].address)
  }

  /** Map.get */
  function Lookup(d: seq<Dest>, rail: string): Option<string> {
    if d == [] then None else if d[0].rail == rail then Some(d[0].address) else Lookup(d[1..], rail)
  }

  ghost predicate UniqueRails(d: seq<Dest>) {
    forall i, j :: 0 <= i < j < |d| ==> d[i].rail != d[j].rail
  }

  lemma {:induction false} LookupPut(d: seq<Dest>, rail: string, address: string, r: string)
    ensures Lookup(Put(d, rail, address), r) == if r == rail then Some(address) else Lookup(d, r)
  {
    if d != [] && d[0].rail != rail {
      LookupPut(d[1..], rail, address, r);
    }
  }

  lemma {:induction false} LookupNone(d: seq<Dest>, r: string)
    ensures Lookup(d, r).None? <==> forall x :: x in d ==> x.rail != r
    ensures Lookup(d, r).Some? ==> Dest(r, Lookup(d, r).value) in d
  {
    if d != [] {
      LookupNone(d[1..], r);
      assert d == [d[0]] + d[1..];
    }
  }

  lemma {:induction false} LookupMember(d: seq<Dest>, x: Dest)
    requires UniqueRails(d) && x in d
    ensures Lookup(d, x.rail) == Some(x.address)
  {
    assert d == [d[0]] + d[1..];
    if d[0] != x {
      LookupMember(d[1..], x);
      var i :| 0 <= i < |d[1..]| && d[1..][i] == x;
      assert d[i + 1] == x;
    }
  }

  /** Setting a key to the value it has changes nothing, its position included. */
  lemma {:induction false} PutSame(d: seq<Dest>, rail: string, address: string)
    requires Lookup(d, rail) == Some(address)
    ensures Put(d, rail, address) == d
  {
    assert d == [d[0]] + d[1..];
    if d[0].rail != rail {
      PutSame(d[1..], rail, address);
    }
  }

  lemma {:induction false} PutNew(d: seq<Dest>, rail: string, address: string)
    requires Lookup(d, rail).None?
    ensures Put(d, rail, address) == d + [Dest(rail, address)]
  {
    if d != [] {
      PutNew(d[1..], rail, address);
      assert d == [d[0]] + d[1..];
    }
  }

  lemma {:induction false} PutMembers(d: seq<Dest>, rail: string, address: string, x: Dest)
    ensures x in Put(d, rail, address) ==> x == Dest(rail, address) || x in d
  {
    if d != [] {
      assert d == [d[0]] + d[1..];
      if d[0].rail != rail {
        PutMembers(d[1..], rail, address, x);
      }
    }
  }

  lemma {:induction false} PutUnique(d: seq<Dest>, rail: string, address: string)
    requires UniqueRails(d)
    ensures UniqueRails(Put(d, rail, address))
  {
    if d != [] {
      if d[0].rail != rail {
        var tail := Put(d[1..], rail, address);
        PutUnique(d[1..], rail, address);
        forall j | 0 <= j < |tail| ensures tail[j].rail != d[0].rail {
          PutMembers(d[1..], rail, address, tail[j]);
          HeadRailIsNew(d, tail[j]);
        }
      } else {
        var r := Put(d, rail, address);
        forall i, j | 0 <= i < j < |r| ensures r[i].rail != r[j].rail {
          assert r[i].rail == d[i].rail && r[j].rail == d[j].rail;
        }
      }
    }
  }

  lemma HeadRailIsNew(d: seq<Dest>, x: Dest)
    requires d != [] && UniqueRails(d)
    ensures x in d[1..] ==> x.rail != d[0].rail
  {
    if x in d[1..] {
      var i :| 0 <= i < |d[1..]| && d[1..][i] == x;
      assert d[i + 1] == x;
    }
  }

  lemma {:induction false} PutAllUnique(d: seq<Dest>, more: seq<Dest>)
    requires UniqueRails(d)
    ensures UniqueRails(PutAll(d, more))
  {
    if more != [] {
      PutAllUnique(d, more[..|more| - 1]);
      PutUnique(PutAll(d, more[..|more| - 1]), more[|more| - 1].rail, more[|more| - 1].address);
    }
  }

  lemma {:induction false} LookupPutAll(d: seq<Dest>, more: seq<Dest>, r: string)
    requires UniqueRails(more)
    ensures Lookup(PutAll(d, more), r) == if Lookup(more, r).Some? then Lookup(more, r) else Lookup(d, r)
  {
    if more != [] {
      var init, last := more[..|more| - 1], more[|more| - 1];
      LookupPutAll(d, init, r);
      LookupPut(PutAll(d, init), last.rail, last.address, r);
      LookupInit(more, r);
    }
  }

  lemma LookupInit(d: seq<Dest>, r: string)
    requires d != [] && UniqueRails(d)
    ensures Lookup(d, r) == if d[|d| - 1].rail == r then Some(d[|d| - 1].address) else Lookup(d[..|d| - 1], r)
  {
    if d[|d| - 1].rail == r {
      LookupMember(d, d[|d| - 1]);
    } else {
      LookupSkipLast(d, r);
    }
  }

  lemma {:induction false} LookupSkipLast(d: seq<Dest>, r: string)
    requires d != [] && d[|d| - 1].rail != r
    ensures Lookup(d, r) == Lookup(d[..|d| - 1], r)
  {
    if |d| > 1 && d[0].rail != r {
      assert d[..|d| - 1][1..] == d[1..][..|d[1..]| - 1];
      LookupSkipLast(d[1..], r);
    }
  }

  lemma {:induction false} PutAllSame(d: seq<Dest>, more: seq<Dest>)
    requires forall x :: x in more ==> Lookup(d, x.rail) == Some(x.address)
    ensures PutAll(d, more) == d
  {
    if more != [] {
      forall x | x in more[..|more| - 1] ensures Lookup(d, x.rail) == Some(x.address) {
        InInit(more, x);
      }
      PutAllSame(d, more[..|more| - 1]);
      assert more[|more| - 1] in more;
      PutSame(d, more[|more| - 1].rail, more[|more| - 1].address);
    }
  }

  // ---- Normalizing -------------------------------------------------------------------

  function TextOf(s: Option<string>): string {
    if s.Some? then Trim(s.value) else ""
  }

  function RowAddress(row: RawRow): string {
    if row.treasury.Some? then Trim(row.treasury.value) else TextOf(row.address)
  }

  /** min_amount_decimal ?? min_amount, blank as nothing. */
  function RowMin(row: RawRow): string {
    if row.minDecimal.Some? then Trim(row.minDecimal.value) else TextOf(row.minAmount)
  }

  function ReadRows(rows: seq<RawRow>): seq<Dest> {
    if rows == [] then []
    else
      var prev, row := ReadRows(rows[..|rows| - 1]), rows[|rows| - 1];
      if TextOf(row.rail) == "" then prev else Put(prev, TextOf(row.rail), RowAddress(row))
  }

  function ReadMins(entries: seq<MinEntry>): map<string, string> {
    if entries == [] then map[]
    else
      var prev, e := ReadMins(entries[..|entries| - 1]), entries[|entries| - 1];
      if Trim(e.key) == "" || TextOf(e.value) == "" then prev else prev[Trim(e.key) := TextOf(e.value)]
  }

  /** Rows fill in minimums the map does not give. */
  function FillMins(mins: map<string, string>, rows: seq<RawRow>): map<string, string> {
    if rows == [] then mins
    else
      var prev, row := FillMins(mins, rows[..|rows| - 1]), rows[|rows| - 1];
      var rail := TextOf(row.rail);
      if rail == "" || RowMin(row) == "" || rail in prev then prev else prev[rail := RowMin(row)]
  }

  function VersionOf(v: Option<int>): int {
    if v.Some? && v.value >= 1 then v.value else 1
  }

  function Normalize(raw: Raw): Settings {
    Settings(VersionOf(raw.version), ReadRows(raw.rows), FillMins(ReadMins(raw.mins), raw.rows))
  }

  ghost predicate NoBlankMins(mins: map<string, string>) {
    forall k :: k in mins ==> Trimmed(k) && k != "" && Trimmed(mins[k]) && mins[k] != ""
  }

  ghost predicate CleanDest(d: Dest) {
    Trimmed(d.rail) && d.rail != "" && Trimmed(d.address)
  }

  ghost predicate Normal(s: Settings) {
    && s.version >= 1 && UniqueRails(s.destinations)
    && (forall d :: d in s.destinations ==> CleanDest(d))
    && NoBlankMins(s.mins)
  }

  method NormalizeStored(raw: Raw) returns (s: Settings)
    ensures s == Normalize(raw)
  {
    var mins: map<string, string> := map[];
    for i := 0 to |raw.mins|
      invariant mins == ReadMins(raw.mins[..i])
    {
      assert raw.mins[..i + 1][..i] == raw.mins[..i];
      var rk, val := Trim(raw.mins[i].key), TextOf(raw.mins[i].value);
      if rk == "" || val == "" {
        continue;
      }
      mins := mins[rk := val];
    }
    assert raw.mins[..|raw.mins|] == raw.mins;
    ghost var given := mins;
    ReadMinsClean(raw.mins);
    var dests: seq<Dest> := [];
    for i := 0 to |raw.rows|
      invariant dests == ReadRows(raw.rows[..i]) && mins == FillMins(given, raw.rows[..i])
      invariant NoBlankMins(mins)
    {
      assert raw.rows[..i + 1][..i] == raw.rows[..i];
      var row := raw.rows[i];
      FillMinsClean(given, raw.rows[..i + 1]);
      var rk := TextOf(row.rail);
      if rk == "" {
        continue;
      }
      dests := Put(dests, rk, RowAddress(row));
      var min := RowMin(row);
      if min != "" && !(rk in mins && mins[rk] != "") {
        mins := mins[rk := min];
      }
    }
    assert raw.rows[..|raw.rows|] == raw.rows;
    s := Settings(VersionOf(raw.version), dests, mins);
  }

  lemma TextIsTrimmed(s: Option<string>)
    ensures Trimmed(TextOf(s))
  {
    if s.Some? {
      TrimIsTrimmed(s.value);
    }
  }

  lemma {:induction false} ReadMinsClean(entries: seq<MinEntry>)
    ensures NoBlankMins(ReadMins(entries))
  {
    if entries != [] {
      ReadMinsClean(entries[..|entries| - 1]);
      TrimIsTrimmed(entries[|entries| - 1].key);
      TextIsTrimmed(entries[|entries| - 1].value);
    }
  }

  lemma {:induction false} FillMinsClean(mins: map<string, string>, rows: seq<RawRow>)
    requires NoBlankMins(mins)
    ensures NoBlankMins(FillMins(mins, rows))
  {
    if rows != [] {
      var row := rows[|rows| - 1];
      FillMinsClean(mins, rows[..|rows| - 1]);
      TextIsTrimmed(row.rail);
      TextIsTrimmed(row.minDecimal);
      TextIsTrimmed(row.minAmount);
    }
  }

  lemma {:induction false} ReadRowsClean(rows: seq<RawRow>)
    ensures UniqueRails(ReadRows(rows)) && forall d :: d in ReadRows(rows) ==> CleanDest(d)
  {
    if rows != [] {
      var prev, row := ReadRows(rows[..|rows| - 1]), rows[|rows| - 1];
      ReadRowsClean(rows[..|rows| - 1]);
      if TextOf(row.rail) != "" {
        TextIsTrimmed(row.rail);
        TextIsTrimmed(row.treasury);
        TextIsTrimmed(row.address);
        PutUnique(prev, TextOf(row.rail), RowAddress(row));
        forall d | d in ReadRows(rows) ensures CleanDest(d) {
          PutMembers(prev, TextOf(row.rail), RowAddress(row), d);
        }
      }
    }
  }

  lemma NormalizeIsNormal(raw: Raw)
    ensures Normal(Normalize(raw))
  {
    ReadRowsClean(raw.rows);
    ReadMinsClean(raw.mins);
    FillMinsClean(ReadMins(raw.mins), raw.rows);
  }

  // ---- What normalizing keeps --------------------------------------------------------

  /** The last row naming the rail. */
  function LastAddress(rows: seq<RawRow>, rail: string): Option<string> {
    if rows == [] then None
    else if TextOf(rows[|rows| - 1].rail) == rail then Some(RowAddress(rows[|rows| - 1]))
    else LastAddress(rows[..|rows| - 1], rail)
  }

  /** The last non-blank entry of the minimum map whose key trims to the rail. */
  function LastEntry(entries: seq<MinEntry>, rail: string): Option<string> {
    if entries == [] then None
    else
      var e := entries[|entries| - 1];
      if Trim(e.key) == rail && TextOf(e.value) != "" then Some(TextOf(e.value))
      else LastEntry(entries[..|entries| - 1], rail)
  }

  /** The first non-blank minimum among the rail's rows. */
  function FirstRowMin(rows: seq<RawRow>, rail: string): Option<string> {
    if rows == [] then None
    else if TextOf(rows[0].rail) == rail && RowMin(rows[0]) != "" then Some(RowMin(rows[0]))
    else FirstRowMin(rows[1..], rail)
  }

  function Find(m: map<string, string>, k: string): Option<string> {
    if k in m then Some(m[k]) else None
  }

  lemma {:induction false} RowsGiveLastAddress(rows: seq<RawRow>, rail: string)
    requires rail != ""
    ensures Lookup(ReadRows(rows), rail) == LastAddress(rows, rail)
  {
    if rows != [] {
      var row := rows[|rows| - 1];
      RowsGiveLastAddress(rows[..|rows| - 1], rail);
      if TextOf(row.rail) != "" {
        LookupPut(ReadRows(rows[..|rows| - 1]), TextOf(row.rail), RowAddress(row), rail);
      }
    }
  }

  lemma {:induction false} EntriesGiveLast(entries: seq<MinEntry>, rail: string)
    requires rail != ""
    ensures Find(ReadMins(entries), rail) == LastEntry(entries, rail)
  {
    if entries != [] {
      EntriesGiveLast(entries[..|entries| - 1], rail);
    }
  }

  lemma {:induction false} FirstRowMinAppend(rows: seq<RawRow>, rail: string)
    requires rows != []
    ensures FirstRowMin(rows, rail) ==
      if FirstRowMin(rows[..|rows| - 1], rail).Some? then FirstRowMin(rows[..|rows| - 1], rail)
      else if TextOf(rows[|rows| - 1].rail) == rail && RowMin(rows[|rows| - 1]) != "" then
        Some(RowMin(rows[|rows| - 1]))
      else None
  {
    if |rows| > 1 {
      assert rows[..|rows| - 1][1..] == rows[1..][..|rows[1..]| - 1];
      FirstRowMinAppend(rows[1..], rail);
    }
  }

  lemma {:induction false} FillGivesFirst(mins: map<string, string>, rows: seq<RawRow>, rail: string)
    requires rail != ""
    ensures Find(FillMins(mins, rows), rail) == if rail in mins then Some(mins[rail]) else FirstRowMin(rows, rail)
  {
    if rows != [] {
      FillGivesFirst(mins, rows[..|rows| - 1], rail);
      FirstRowMinAppend(rows, rail);
    }
  }

  /**
   * A rail reads the address of its last row. Its minimum comes from the minimum map, the
   * last non-blank entry there, and only failing that from its first row with one.
   */
  lemma NormalizedReads(raw: Raw, rail: string)
    requires rail != ""
    ensures Lookup(Normalize(raw).destinations, rail) == LastAddress(raw.rows, rail)
    ensures Find(Normalize(raw).mins, rail) ==
      if LastEntry(raw.mins, rail).Some? then LastEntry(raw.mins, rail) else FirstRowMin(raw.rows, rail)
  {
    RowsGiveLastAddress(raw.rows, rail);
    EntriesGiveLast(raw.mins, rail);
    FillGivesFirst(ReadMins(raw.mins), raw.rows, rail);
  }

  predicate Names(row: RawRow, rail: string) {
    row.rail.Some? && Trim(row.rail.value) == rail
  }

  /** The last row that names a rail gives its address: treasury_address if that is a text, else address, else blank. */
  lemma NormalizedAddress(raw: Raw, rail: string, i: nat)
    requires rail != "" && i < |raw.rows| && Names(raw.rows[i], rail)
    requires forall j :: i < j < |raw.rows| ==> !Names(raw.rows[j], rail)
    ensures var row := raw.rows[i];
            Lookup(Normalize(raw).destinations, rail) ==
            Some(if row.treasury.Some? then Trim(row.treasury.value)
                 else if row.address.Some? then Trim(row.address.value) else "")
  {
    RowsGiveLastAddress(raw.rows, rail);
    LastAddressAt(raw.rows, rail, i);
  }

  lemma {:induction false} LastAddressAt(rows: seq<RawRow>, rail: string, i: nat)
    requires rail != "" && i < |rows| && Names(rows[i], rail)
    requires forall j :: i < j < |rows| ==> !Names(rows[j], rail)
    ensures LastAddress(rows, rail) == Some(RowAddress(rows[i]))
  {
    if i < |rows| - 1 {
      LastAddressAt(rows[..|rows| - 1], rail, i);
    }
  }

  lemma {:induction false} NoAddress(rows: seq<RawRow>, rail: string)
    requires rail != "" && forall j :: 0 <= j < |rows| ==> !Names(rows[j], rail)
    ensures LastAddress(rows, rail).None?
  {
    if rows != [] {
      NoAddress(rows[..|rows| - 1], rail);
    }
  }

  /** A rail that no row names has no destination, and settings without a version are of the first. */
  lemma NormalizedElse(raw: Raw, rail: string)
    requires rail != "" && forall j :: 0 <= j < |raw.rows| ==> !Names(raw.rows[j], rail)
    ensures Lookup(Normalize(raw).destinations, rail).None?
    ensures Normalize(raw).version == if raw.version.Some? && raw.version.value >= 1 then raw.version.value else 1
  {
    RowsGiveLastAddress(raw.rows, rail);
    NoAddress(raw.rows, rail);
  }

  /** A property of the minimum map gives a rail's minimum: its key trims to the rail, its value is not blank. */
  predicate Gives(e: MinEntry, rail: string) {
    Trim(e.key) == rail && e.value.Some? && Trim(e.value.value) != ""
  }

  /** So does a row of the rail, by min_amount_decimal if that is not null, else by min_amount. */
  predicate RowGives(row: RawRow, rail: string, min: string) {
    && Names(row, rail) && min != ""
    && (row.minDecimal.Some? ==> min == Trim(row.minDecimal.value))
    && (row.minDecimal.None? ==> row.minAmount.Some? && min == Trim(row.minAmount.value))
  }

  lemma {:induction false} LastEntryAt(entries: seq<MinEntry>, rail: string, i: nat)
    requires i < |entries| && Gives(entries[i], rail) && forall j :: i < j < |entries| ==> !Gives(entries[j], rail)
    ensures LastEntry(entries, rail) == Some(Trim(entries[i].value.value))
  {
    if i < |entries| - 1 {
      LastEntryAt(entries[..|entries| - 1], rail, i);
    }
  }

  lemma {:induction false} NoneGives(entries: seq<MinEntry>, rail: string)
    requires forall j :: 0 <= j < |entries| ==> !Gives(entries[j], rail)
    ensures LastEntry(entries, rail).None?
  {
    if entries != [] {
      NoneGives(entries[..|entries| - 1], rail);
    }
  }

  lemma {:induction false} FirstRowMinAt(rows: seq<RawRow>, rail: string, k: nat, min: string)
    requires rail != "" && k < |rows| && RowGives(rows[k], rail, min)
    requires forall j, m :: 0 <= j < k ==> !RowGives(rows[j], rail, m)
    ensures FirstRowMin(rows, rail) == Some(min)
  {
    if k > 0 {
      assert !RowGives(rows[0], rail, RowMin(rows[0]));
      FirstRowMinAt(rows[1..], rail, k - 1, min);
    }
  }

  lemma {:induction false} NoRowGives(rows: seq<RawRow>, rail: string)
    requires rail != "" && forall j, m :: 0 <= j < |rows| ==> !RowGives(rows[j], rail, m)
    ensures FirstRowMin(rows, rail).None?
  {
    if rows != [] {
      assert !RowGives(rows[0], rail, RowMin(rows[0]));
      NoRowGives(rows[1..], rail);
    }
  }

  /** The last property of the minimum map that gives one wins ... */
  lemma MinimumFromMap(raw: Raw, rail: string, i: nat)
    requires rail != "" && i < |raw.mins| && Gives(raw.mins[i], rail)
    requires forall j :: i < j < |raw.mins| ==> !Gives(raw.mins[j], rail)
    ensures Find(Normalize(raw).mins, rail) == Some(Trim(raw.mins[i].value.value))
  {
    NormalizedReads(raw, rail);
    LastEntryAt(raw.mins, rail, i);
  }

  /** ... and failing all of them the first row that gives one. */
  lemma MinimumFromRows(raw: Raw, rail: string, k: nat, min: string)
    requires rail != "" && forall j :: 0 <= j < |raw.mins| ==> !Gives(raw.mins[j], rail)
    requires forall j, m :: 0 <= j < k && j < |raw.rows| ==> !RowGives(raw.rows[j], rail, m)
    ensures k < |raw.rows| && RowGives(raw.rows[k], rail, min) ==> Find(Normalize(raw).mins, rail) == Some(min)
    ensures k >= |raw.rows| ==> Find(Normalize(raw).mins, rail) == None
  {
    NormalizedReads(raw, rail);
    NoneGives(raw.mins, rail);
    if k >= |raw.rows| {
      NoRowGives(raw.rows, rail);
    } else if RowGives(raw.rows[k], rail, min) {
      FirstRowMinAt(raw.rows, rail, k, min);
    }
  }

  // ---- Stored settings read back -----------------------------------------------------

  function RowsOf(d: seq<Dest>): seq<RawRow> {
    if d == [] then []
    else RowsOf(d[..|d| - 1]) + [RawRow(Some(d[|d| - 1].rail), Some(d[|d| - 1].address), None, None, None)]
  }

  /** The entries of the minimum object, in whatever order its properties come back. */
  ghost predicate Enumerates(entries: seq<MinEntry>, mins: map<string, string>) {
    && (forall e :: e in entries ==> e.key in mins && e.value == Some(mins[e.key]))
    && (forall k :: k in mins ==> MinEntry(k, Some(mins[k])) in entries)
  }

  /** The JSON the settings are stored as. */
  ghost predicate Stores(raw: Raw, s: Settings) {
    raw.version == Some(s.version) && raw.rows == RowsOf(s.destinations) && Enumerates(raw.mins, s.mins)
  }

  lemma LastRailIsNew(d: seq<Dest>)
    requires d != [] && UniqueRails(d)
    ensures Lookup(d[..|d| - 1], d[|d| - 1].rail).None?
  {
    var init, last := d[..|d| - 1], d[|d| - 1];
    forall i | 0 <= i < |init| ensures init[i].rail != last.rail {
      assert d[i].rail != d[|d| - 1].rail;
    }
    LookupNone(init, last.rail);
  }

  lemma {:induction false} RowsReadBack(d: seq<Dest>)
    requires UniqueRails(d) && forall x :: x in d ==> CleanDest(x)
    ensures ReadRows(RowsOf(d)) == d
  {
    if d != [] {
      var init, last := d[..|d| - 1], d[|d| - 1];
      forall x | x in init ensures CleanDest(x) {
        InInit(d, x);
      }
      RowsReadBack(init);
      assert last in d;
      OneRowReadsBack(d, init, last);
    }
  }

  lemma OneRowReadsBack(d: seq<Dest>, init: seq<Dest>, last: Dest)
    requires d != [] && init == d[..|d| - 1] && last == d[|d| - 1]
    requires UniqueRails(d) && CleanDest(last) && ReadRows(RowsOf(init)) == init
    ensures ReadRows(RowsOf(d)) == d
  {
    RowReads(RowsOf(init), last);
    LastRailIsNew(d);
    PutNew(init, last.rail, last.address);
    assert d == init + [last];
  }

  lemma RowReads(rows: seq<RawRow>, d: Dest)
    requires CleanDest(d)
    ensures ReadRows(rows + [RawRow(Some(d.rail), Some(d.address), None, None, None)]) ==
            Put(ReadRows(rows), d.rail, d.address)
  {
    var row := RawRow(Some(d.rail), Some(d.address), None, None, None);
    assert (rows + [row])[..|rows|] == rows;
    TrimOfTrimmed(d.rail);
    TrimOfTrimmed(d.address);
  }

  lemma {:induction false} RowsOfHaveNoMins(mins: map<string, string>, d: seq<Dest>)
    ensures FillMins(mins, RowsOf(d)) == mins
  {
    if d != [] {
      RowsOfHaveNoMins(mins, d[..|d| - 1]);
      assert RowsOf(d)[..|RowsOf(d)| - 1] == RowsOf(d[..|d| - 1]);
    }
  }

  /** Every entry agrees with the map, so the last one for a key does. */
  lemma {:induction false} LastEntryAgrees(entries: seq<MinEntry>, mins: map<string, string>, k: string)
    requires NoBlankMins(mins)
    requires forall e :: e in entries ==> e.key in mins && e.value == Some(mins[e.key])
    ensures LastEntry(entries, k).Some? ==> k in mins && LastEntry(entries, k) == Some(mins[k])
    ensures k in mins && MinEntry(k, Some(mins[k])) in entries ==> LastEntry(entries, k) == Some(mins[k])
  {
    if entries != [] {
      var init, last := entries[..|entries| - 1], entries[|entries| - 1];
      forall e ensures e in entries <==> e in init || e == last {
        InInit(entries, e);
      }
      LastEntryAgrees(init, mins, k);
      assert last in entries;
      TrimOfTrimmed(last.key);
      TrimOfTrimmed(mins[last.key]);
    }
  }

  lemma MinsReadBack(entries: seq<MinEntry>, mins: map<string, string>)
    requires NoBlankMins(mins) && Enumerates(entries, mins)
    ensures ReadMins(entries) == mins
  {
    ReadMinsClean(entries);
    forall k ensures Find(ReadMins(entries), k) == Find(mins, k) {
      if k != "" {
        EntriesGiveLast(entries, k);
        LastEntryAgrees(entries, mins, k);
      }
    }
    MapsAgree(ReadMins(entries), mins);
  }

  lemma MapsAgree(m: map<string, string>, n: map<string, string>)
    requires forall k :: Find(m, k) == Find(n, k)
    ensures m == n
  {
    forall k ensures k in m <==> k in n {
      assert Find(m, k) == Find(n, k);
    }
    forall k | k in m ensures m[k] == n[k] {
      assert Find(m, k) == Find(n, k);
    }
  }

  /** Normalized settings survive being stored and read again, order of the destinations included. */
  lemma NormalReadsBack(raw: Raw, s: Settings)
    requires Normal(s) && Stores(raw, s)
    ensures Normalize(raw) == s
  {
    RowsReadBack(s.destinations);
    MinsReadBack(raw.mins, s.mins);
    RowsOfHaveNoMins(s.mins, s.destinations);
  }

  lemma NormalizationIdempotent(raw: Raw, again: Raw)
    requires Stores(again, Normalize(raw))
    ensures Normalize(again) == Normalize(raw)
  {
    NormalizeIsNormal(raw);
    NormalReadsBack(again, Normalize(raw));
  }

  /** All settings have a stored form. */
  lemma StoredFormExists(s: Settings) returns (raw: Raw)
    ensures Stores(raw, s)
  {
    var entries := EnumerateMins(s.mins);
    raw := Raw(Some(s.version), RowsOf(s.destinations), entries);
  }

  lemma {:induction false} EnumerateMins(mins: map<string, string>) returns (entries: seq<MinEntry>)
    ensures Enumerates(entries, mins)
    decreases |mins|
  {
    if mins == map[] {
      entries := [];
    } else {
      var k :| k in mins;
      var rest := mins - {k};
      assert rest.Keys == mins.Keys - {k};
      var others := EnumerateMins(rest);
      entries := others + [MinEntry(k, Some(mins[k]))];
      forall j | j in mins ensures MinEntry(j, Some(mins[j])) in entries {
        if j != k {
          assert j in rest && MinEntry(j, Some(rest[j])) in others;
        }
      }
    }
  }

  // ---- Merging -----------------------------------------------------------------------

  function Merge(body: Option<Raw>, existing: Raw): Settings {
    var base := Normalize(existing);
    match body
    case None => base
    case Some(b) =>
      var patch := Normalize(b);
      Settings(2, PutAll(base.destinations, patch.destinations), base.mins + patch.mins)
  }

  /** The loop over the patch's minimums, in any property order, with its delete branch. */
  method MergeMinimums(base: map<string, string>, patch: map<string, string>) returns (mins: map<string, string>)
    requires NoBlankMins(patch)
    ensures mins == base + patch
  {
    mins := base;
    var todo := patch.Keys;
    while todo != {}
      invariant todo <= patch.Keys
      invariant mins == base + (patch - todo)
      decreases |todo|
    {
      var k :| k in todo;
      MergeOne(base, patch, todo, k);
      todo := todo - {k};
      var rk, val := Trim(k), Trim(patch[k]);
      TrimOfTrimmed(k);
      TrimOfTrimmed(patch[k]);
      if rk == "" {
        continue;
      }
      if val == "" {
        mins := mins - {rk};
      } else {
        mins := mins[rk := val];
      }
    }
    assert patch - {} == patch;
  }

  lemma MergeOne(base: map<string, string>, patch: map<string, string>, todo: set<string>, k: string)
    requires k in patch && k in todo
    ensures (base + (patch - todo))[k := patch[k]] == base + (patch - (todo - {k}))
  {}

  method MergePayload(body: Option<Raw>, existing: Raw) returns (s: Settings)
    ensures s == Merge(body, existing)
  {
    var base := NormalizeStored(existing);
    if body.None? {
      return base;
    }
    var patch := NormalizeStored(body.value);
    NormalizeIsNormal(body.value);
    var dests := base.destinations;
    for i := 0 to |patch.destinations|
      invariant dests == PutAll(base.destinations, patch.destinations[..i])
    {
      assert patch.destinations[..i + 1][..i] == patch.destinations[..i];
      var d := patch.destinations[i];
      assert d in patch.destinations;
      TrimOfTrimmed(d.address);
      dests := Put(dests, d.rail, Trim(d.address));
    }
    assert patch.destinations[..|patch.destinations|] == patch.destinations;
    var mins := MergeMinimums(base.mins, patch.mins);
    s := Settings(2, dests, mins);
  }

  lemma MergeIsNormal(body: Option<Raw>, existing: Raw)
    ensures Normal(Merge(body, existing))
  {
    NormalizeIsNormal(existing);
    if body.Some? {
      var base, patch := Normalize(existing), Normalize(body.value);
      NormalizeIsNormal(body.value);
      PutAllUnique(base.destinations, patch.destinations);
      forall d | d in PutAll(base.destinations, patch.destinations) ensures CleanDest(d) {
        PutAllMembers(base.destinations, patch.destinations, d);
      }
    }
  }

  lemma {:induction false} PutAllMembers(d: seq<Dest>, more: seq<Dest>, x: Dest)
    ensures x in PutAll(d, more) ==> x in d || x in more
  {
    if more != [] {
      PutAllMembers(d, more[..|more| - 1], x);
      PutMembers(PutAll(d, more[..|more| - 1]), more[|more| - 1].rail, more[|more| - 1].address, x);
      InInit(more, x);
    }
  }

  /**
   * After a merge a rail the payload names reads the payload's address, blank or not, any
   * other its stored one; a minimum the payload gives replaces the stored one, all others
   * stay. Without a payload the stored settings are returned as read.
   */
  lemma MergeReads(b: Raw, existing: Raw, rail: string)
    ensures var patch, stored, merged := Normalize(b), Normalize(existing), Merge(Some(b), existing);
      && merged.version == 2
      && Lookup(merged.destinations, rail) ==
         (if Lookup(patch.destinations, rail).Some? then Lookup(patch.destinations, rail)
          else Lookup(stored.destinations, rail))
      && Find(merged.mins, rail) ==
         if Find(patch.mins, rail).Some? then Find(patch.mins, rail) else Find(stored.mins, rail)
    ensures Merge(None, existing) == Normalize(existing)
  {
    NormalizeIsNormal(b);
    LookupPutAll(Normalize(existing).destinations, Normalize(b).destinations, rail);
  }

  lemma {:induction false} PutKeepsPositions(d: seq<Dest>, rail: string, address: string)
    ensures |Put(d, rail, address)| >= |d|
    ensures forall i :: 0 <= i < |d| ==> Put(d, rail, address)[i].rail == d[i].rail
  {
    if d != [] && d[0].rail != rail {
      PutKeepsPositions(d[1..], rail, address);
    }
  }

  /** The stored rails keep their places; new ones come after them. */
  lemma {:induction false} MergeKeepsPositions(d: seq<Dest>, more: seq<Dest>)
    ensures |PutAll(d, more)| >= |d|
    ensures forall i :: 0 <= i < |d| ==> PutAll(d, more)[i].rail == d[i].rail
  {
    if more != [] {
      MergeKeepsPositions(d, more[..|more| - 1]);
      PutKeepsPositions(PutAll(d, more[..|more| - 1]), more[|more| - 1].rail, more[|more| - 1].address);
    }
  }

  /**
   * The delete branch never runs. A rail for which the payload gives only blank minimums
   * keeps the stored one, and no merge removes a minimum.
   */
  lemma BlankMinimumDeletesNothing(b: Raw, existing: Raw, rail: string)
    requires rail != ""
    requires forall e :: e in b.mins && Trim(e.key) == rail ==> TextOf(e.value) == ""
    requires forall row :: row in b.rows && TextOf(row.rail) == rail ==> RowMin(row) == ""
    ensures Find(Merge(Some(b), existing).mins, rail) == Find(Normalize(existing).mins, rail)
    ensures forall k :: k in Normalize(existing).mins ==> k in Merge(Some(b), existing).mins
  {
    NoEntry(b.mins, rail);
    NoRowMin(b.rows, rail);
    NormalizedReads(b, rail);
    MergeReads(b, existing, rail);
  }

  lemma {:induction false} NoEntry(entries: seq<MinEntry>, rail: string)
    requires forall e :: e in entries && Trim(e.key) == rail ==> TextOf(e.value) == ""
    ensures LastEntry(entries, rail).None?
  {
    if entries != [] {
      assert entries[|entries| - 1] in entries;
      forall e | e in entries[..|entries| - 1] && Trim(e.key) == rail ensures TextOf(e.value) == "" {
        InInit(entries, e);
      }
      NoEntry(entries[..|entries| - 1], rail);
    }
  }

  lemma {:induction false} NoRowMin(rows: seq<RawRow>, rail: string)
    requires forall row :: row in rows && TextOf(row.rail) == rail ==> RowMin(row) == ""
    ensures FirstRowMin(rows, rail).None?
  {
    if rows != [] {
      assert rows[0] in rows && rows == [rows[0]] + rows[1..];
      NoRowMin(rows[1..], rail);
    }
  }

  /** Merging the same payload into the stored result of merging it changes nothing, order included. */
  lemma MergeTwiceIsOnce(body: Option<Raw>, existing: Raw, stored: Raw)
    requires Stores(stored, Merge(body, existing))
    ensures Merge(body, stored) == Merge(body, existing)
  {
    var once := Merge(body, existing);
    MergeIsNormal(body, existing);
    NormalReadsBack(stored, once);
    if body.Some? {
      var base, patch := Normalize(existing), Normalize(body.value);
      NormalizeIsNormal(body.value);
      forall x | x in patch.destinations ensures Lookup(once.destinations, x.rail) == Some(x.address) {
        LookupMember(patch.destinations, x);
        LookupPutAll(base.destinations, patch.destinations, x.rail);
      }
      PutAllSame(once.destinations, patch.destinations);
      assert once.mins + patch.mins == once.mins;
    }
  }
}
