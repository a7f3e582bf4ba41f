// The groupBy in front of the merge: wallet rows to groups of equal columns. What the row
// count of the list counts, and when that is the number of rows.

module WalletGroups {
  import opened Chains
  import opened Lists
  import opened Text
  import opened WalletList

  /** The columns of a wallet row the grouping reads; the id is the primary key. */
  datatype WalletRow = WalletRow(id: int, address: string, chain: Chain, currency: string, network: string, env: Env)

  predicate SameColumns(g: Group, w: WalletRow) {
    && g.address == w.address && g.chain == w.chain && g.currency == w.currency
    && g.network == w.network && g.env == w.env
  }

  function GroupOf(w: WalletRow): Group {
    Group(w.address, w.chain, w.currency, w.network, w.env, Some(w.id))
  }

  /** A row enters the group with its columns, raising the largest id if need be, or starts one. */
  function AddRow(groups: seq<Group>, w: WalletRow): seq<Group> {
    if groups == [] then [GroupOf(w)]
    else if SameColumns(groups[0], w) then [Raised(groups[0], w.id)] + groups[1..]
    else [groups[0]] + AddRow(groups[1..], w)
  }

  function Raised(g: Group, id: int): Group {
    if g.maxId.Some? && g.maxId.value >= id then g else g.(maxId := Some(id))
  }

  function GroupBy(rows: seq<WalletRow>): seq<Group> {
    if rows == [] then [] else AddRow(GroupBy(rows[..|rows| - 1]), rows[|rows| - 1])
  }

  predicate UnderKey(w: WalletRow, key: string) {
    KeyOf(GroupOf(w)) == key
  }

  function RowsUnder(rows: seq<WalletRow>, key: string): int {
    if rows == [] then 0
    else RowsUnder(rows[..|rows| - 1], key) + (if UnderKey(rows[|rows| - 1], key) then 1 else 0)
  }

  /** One on-chain identity: addresses differ in white space around them at most, on Ethereum also in case. */
  predicate SameIdentity(v: WalletRow, w: WalletRow) {
    && v.chain == w.chain && v.currency == w.currency && v.network == w.network && v.env == w.env
    && (if v.chain == ETH then Lower(Trim(v.address)) == Lower(Trim(w.address)) else Trim(v.address) == Trim(w.address))
  }

  ghost predicate TextRows(rows: seq<WalletRow>) {
    forall w :: w in rows ==> NulFree(w.address) && NulFree(w.currency) && NulFree(w.network)
  }

  lemma UnderKeyIff(rows: seq<WalletRow>, v: WalletRow, w: WalletRow)
    requires TextRows(rows) && v in rows && w in rows
    ensures UnderKey(w, KeyOf(GroupOf(v))) <==> SameIdentity(w, v)
  {
    KeyIdentifies(GroupOf(w), GroupOf(v));
  }

  predicate EqualColumns(v: WalletRow, w: WalletRow) {
    SameColumns(GroupOf(v), w)
  }

  // ---- What a group is ---------------------------------------------------------------

  ghost predicate HasGroup(groups: seq<Group>, w: WalletRow) {
    exists g :: g in groups && SameColumns(g, w)
  }

  ghost predicate AllCounted(groups: seq<Group>) {
    forall g :: g in groups ==> g.maxId.Some?
  }

  /** A row is counted under its key once more exactly if no group has its columns yet. */
  lemma {:induction false} AddRowCounts(groups: seq<Group>, w: WalletRow, key: string)
    requires AllCounted(groups)
    ensures AllCounted(AddRow(groups, w))
    ensures CountOf(AddRow(groups, w), key) ==
            CountOf(groups, key) + (if !HasGroup(groups, w) && UnderKey(w, key) then 1 else 0)
  {
    if groups == [] {
      assert [GroupOf(w)][..0] == [];
    } else {
      var head, tail := groups[0], groups[1..];
      assert groups == [head] + tail;
      forall g | g in tail ensures g.maxId.Some? {
        assert g in groups;
      }
      CountAppend([head], tail, key);
      CountOne(head, key);
      if SameColumns(head, w) {
        assert AddRow(groups, w) == [Raised(head, w.id)] + tail;
        CountAppend([Raised(head, w.id)], tail, key);
        CountOne(Raised(head, w.id), key);
        assert head in groups;
      } else {
        AddRowCounts(tail, w, key);
        CountAppend([head], AddRow(tail, w), key);
      }
    }
  }

  lemma CountOne(g: Group, key: string)
    ensures CountOf([g], key) == if Counts(g, key) then 1 else 0
  {
    assert [g][..0] == [] && CountOf([], key) == 0;
  }

  lemma {:induction false} AddRowGroups(groups: seq<Group>, w: WalletRow, v: WalletRow)
    ensures HasGroup(AddRow(groups, w), v) <==> HasGroup(groups, v) || EqualColumns(w, v)
  {
    if groups != [] {
      var head, tail := groups[0], groups[1..];
      assert groups == [head] + tail;
      assert forall g :: g in groups <==> g == head || g in tail;
      if SameColumns(head, w) {
        assert forall g :: g in AddRow(groups, w) <==> g == Raised(head, w.id) || g in tail;
        assert head in groups && Raised(head, w.id) in AddRow(groups, w);
      } else {
        AddRowGroups(tail, w, v);
        assert forall g :: g in AddRow(groups, w) <==> g == head || g in AddRow(tail, w);
      }
    } else {
      assert GroupOf(w) in AddRow(groups, w);
    }
  }

  lemma {:induction false} GroupsOfRows(rows: seq<WalletRow>, v: WalletRow)
    ensures HasGroup(GroupBy(rows), v) <==> exists w :: w in rows && EqualColumns(w, v)
  {
    if rows != [] {
      var init, last := rows[..|rows| - 1], rows[|rows| - 1];
      GroupsOfRows(init, v);
      AddRowGroups(GroupBy(init), last, v);
      forall w ensures w in rows <==> w in init || w == last {
        InInit(rows, w);
      }
    }
  }

  // ---- What is counted ---------------------------------------------------------------

  /** Two wallets of the identity have all columns equal. */
  ghost predicate Repeats(rows: seq<WalletRow>, key: string) {
    exists i, j :: 0 <= i < j < |rows| && Twins(rows[i], rows[j], key)
  }

  predicate Twins(v: WalletRow, w: WalletRow, key: string) {
    UnderKey(w, key) && EqualColumns(v, w)
  }

  lemma RepeatsAtEnd(init: seq<WalletRow>, last: WalletRow, key: string)
    ensures Repeats(init + [last], key) <==> Repeats(init, key) || exists w :: w in init && Twins(w, last, key)
  {
    var rows := init + [last];
    if Repeats(rows, key) {
      var i, j :| 0 <= i < j < |rows| && Twins(rows[i], rows[j], key);
      assert rows[i] == init[i] && init[i] in init;
      if j < |init| {
        assert Twins(init[i], init[j], key);
      }
    }
    if Repeats(init, key) {
      var i, j :| 0 <= i < j < |init| && Twins(init[i], init[j], key);
      assert Twins(rows[i], rows[j], key);
    }
    if exists w :: w in init && Twins(w, last, key) {
      var w :| w in init && Twins(w, last, key);
      var i :| 0 <= i < |init| && init[i] == w;
      assert Twins(rows[i], rows[|init|], key);
    }
  }

  lemma LastRowCounts(init: seq<WalletRow>, last: WalletRow, key: string)
    ensures RowsUnder(init + [last], key) == RowsUnder(init, key) + (if UnderKey(last, key) then 1 else 0)
    ensures GroupBy(init + [last]) == AddRow(GroupBy(init), last)
    ensures Repeats(init + [last], key) <==>
            Repeats(init, key) || (UnderKey(last, key) && HasGroup(GroupBy(init), last))
  {
    assert (init + [last])[..|init|] == init;
    RepeatsAtEnd(init, last, key);
    GroupsOfRows(init, last);
    if UnderKey(last, key) && HasGroup(GroupBy(init), last) {
      var w :| w in init && EqualColumns(w, last);
      assert Twins(w, last, key);
    }
  }

  lemma {:induction false} AllGroupsCounted(rows: seq<WalletRow>)
    ensures AllCounted(GroupBy(rows))
  {
    if rows != [] {
      AllGroupsCounted(rows[..|rows| - 1]);
      AddRowCounts(GroupBy(rows[..|rows| - 1]), rows[|rows| - 1], "");
    }
  }

  lemma CountsLastRow(init: seq<WalletRow>, last: WalletRow, key: string)
    requires CountsFit(init, key)
    ensures CountsFit(init + [last], key)
  {
    AllGroupsCounted(init);
    LastRowCounts(init, last, key);
    AddRowCounts(GroupBy(init), last, key);
  }

  /** Never more groups than rows, and as many exactly if no two rows have equal columns. */
  ghost predicate CountsFit(rows: seq<WalletRow>, key: string) {
    && CountOf(GroupBy(rows), key) <= RowsUnder(rows, key)
    && (CountOf(GroupBy(rows), key) == RowsUnder(rows, key) <==> !Repeats(rows, key))
  }

  lemma {:induction false} CountsUpTo(rows: seq<WalletRow>, key: string, n: nat)
    requires n <= |rows|
    ensures CountsFit(rows[..n], key)
  {
    if n > 0 {
      CountsUpTo(rows, key, n - 1);
      CountsLastRow(rows[..n - 1], rows[n - 1], key);
      OneMore(rows, n - 1);
    }
  }

  lemma CountsRows(rows: seq<WalletRow>, key: string)
    ensures CountsFit(rows, key)
  {
    CountsUpTo(rows, key, |rows|);
    assert rows[..|rows|] == rows;
  }

  function IndicesUnder(rows: seq<WalletRow>, key: string): set<int> {
    set i | 0 <= i < |rows| && UnderKey(rows[i], key)
  }

  lemma OneMoreIndex(init: seq<WalletRow>, last: WalletRow, key: string)
    ensures IndicesUnder(init + [last], key) ==
            IndicesUnder(init, key) + (if UnderKey(last, key) then {|init|} else {})
  {
    var rows := init + [last];
    forall i ensures i in IndicesUnder(rows, key) <==>
        i in IndicesUnder(init, key) || (i == |init| && UnderKey(last, key)) {
      if 0 <= i < |init| {
        assert rows[i] == init[i];
      }
    }
  }

  lemma OneMoreCounted(init: seq<WalletRow>, last: WalletRow, key: string)
    requires RowsUnder(init, key) == |IndicesUnder(init, key)|
    ensures RowsUnder(init + [last], key) == |IndicesUnder(init + [last], key)|
  {
    OneMoreIndex(init, last, key);
    assert (init + [last])[..|init|] == init;
    if UnderKey(last, key) {
      assert |init| !in IndicesUnder(init, key);
    } else {
      assert IndicesUnder(init, key) + {} == IndicesUnder(init, key);
    }
  }

  lemma {:induction false} RowsUnderCounts(rows: seq<WalletRow>, key: string, n: nat)
    requires n <= |rows|
    ensures RowsUnder(rows[..n], key) == |IndicesUnder(rows[..n], key)|
  {
    if n > 0 {
      RowsUnderCounts(rows, key, n - 1);
      OneMoreCounted(rows[..n - 1], rows[n - 1], key);
      OneMore(rows, n - 1);
    }
  }

  lemma RepeatsIff(rows: seq<WalletRow>, v: WalletRow)
    requires TextRows(rows) && v in rows
    ensures Repeats(rows, KeyOf(GroupOf(v))) <==>
      exists i, j :: 0 <= i < j < |rows| && SameIdentity(rows[i], v) && rows[i].(id := 0) == rows[j].(id := 0)
  {
    var key := KeyOf(GroupOf(v));
    forall i | 0 <= i < |rows| ensures UnderKey(rows[i], key) <==> SameIdentity(rows[i], v) {
      UnderKeyIff(rows, v, rows[i]);
    }
    if Repeats(rows, key) {
      var i, j :| 0 <= i < j < |rows| && Twins(rows[i], rows[j], key);
      assert rows[i].(id := 0) == rows[j].(id := 0) && SameIdentity(rows[i], v);
    }
    if i, j :| 0 <= i < j < |rows| && SameIdentity(rows[i], v) && rows[i].(id := 0) == rows[j].(id := 0) {
      assert Twins(rows[i], rows[j], key);
    }
  }

  /**
   * Whatever order the groups arrive in, the row count of a wallet's identity is the number
   * of wallets of that identity exactly if no two of them are equal in all but their id.
   * Otherwise it is smaller.
   */
  lemma RowCountCountsRowsIff(rows: seq<WalletRow>, groups: seq<Group>, v: WalletRow)
    requires TextRows(rows) && multiset(groups) == multiset(GroupBy(rows)) && v in rows
    ensures var entry := Merged(groups, KeyOf(GroupOf(v)));
            var wallets := set i | 0 <= i < |rows| && SameIdentity(rows[i], v);
            && entry.Some? && 1 <= entry.value.rowCount <= |wallets|
            && (entry.value.rowCount == |wallets| <==>
                  forall i, j :: 0 <= i < j < |rows| && SameIdentity(rows[i], v) ==>
                    rows[i].(id := 0) != rows[j].(id := 0))
  {
    var key := KeyOf(GroupOf(v));
    assert rows[..|rows|] == rows;
    RowsUnderCounts(rows, key, |rows|);
    IndicesAre(rows, v);
    RepeatsIff(rows, v);
    GroupsCountRowsIff(rows, groups, key);
    WalletIsListed(rows, groups, v);
    CountsOneAtLeast(groups, key);
  }

  lemma IndicesAre(rows: seq<WalletRow>, v: WalletRow)
    requires TextRows(rows) && v in rows
    ensures IndicesUnder(rows, KeyOf(GroupOf(v))) == set i | 0 <= i < |rows| && SameIdentity(rows[i], v)
  {
    forall i | 0 <= i < |rows| ensures UnderKey(rows[i], KeyOf(GroupOf(v))) <==> SameIdentity(rows[i], v) {
      UnderKeyIff(rows, v, rows[i]);
    }
  }

  lemma WalletIsListed(rows: seq<WalletRow>, groups: seq<Group>, v: WalletRow)
    requires multiset(groups) == multiset(GroupBy(rows)) && v in rows
    ensures Merged(groups, KeyOf(GroupOf(v))).Some?
  {
    HighestUnderKey(rows, groups, KeyOf(GroupOf(v)));
    assert UnderKey(v, KeyOf(GroupOf(v)));
  }

  lemma {:induction false} CountsOneAtLeast(groups: seq<Group>, key: string)
    ensures CountOf(groups, key) >= 0 && (Merged(groups, key).Some? ==> CountOf(groups, key) >= 1)
  {
    if groups != [] {
      CountsOneAtLeast(groups[..|groups| - 1], key);
    }
  }

  lemma GroupsCountRowsIff(rows: seq<WalletRow>, groups: seq<Group>, key: string)
    requires multiset(groups) == multiset(GroupBy(rows))
    ensures Merged(groups, key).Some? ==> Merged(groups, key).value.rowCount == CountOf(groups, key)
    ensures CountOf(groups, key) <= RowsUnder(rows, key)
    ensures CountOf(groups, key) == RowsUnder(rows, key) <==> !Repeats(rows, key)
  {
    MergedSpeaks(groups, key);
    CountIgnoresOrder(groups, GroupBy(rows), key);
    CountsRows(rows, key);
  }

  const TWINS := [WalletRow(1, "T1", TRON, "USDT", "TRC20", Live), WalletRow(2, "T1", TRON, "USDT", "TRC20", Live)]

  /** Two wallets on one address count as one row. */
  lemma TwinsCountOnce()
    ensures var key := KeyOf(GroupOf(TWINS[0]));
            RowsUnder(TWINS, key) == 2 && CountOf(GroupBy(TWINS), key) == 1
  {
    var key := KeyOf(GroupOf(TWINS[0]));
    assert TWINS[..1] == [TWINS[0]] && [TWINS[0]][..0] == [];
    assert UnderKey(TWINS[0], key);
    assert GroupOf(TWINS[1]) == GroupOf(TWINS[0]).(maxId := Some(2));
    assert UnderKey(TWINS[1], key);
    assert GroupBy([TWINS[0]]) == [GroupOf(TWINS[0])];
    assert GroupBy(TWINS) == [GroupOf(TWINS[1])];
    CountOne(GroupOf(TWINS[1]), key);
  }

  // ---- Who speaks for the rows -------------------------------------------------------

  predicate Alike(g: Group, h: Group) {
    g.(maxId := None) == h.(maxId := None)
  }

  ghost predicate UniqueGroups(groups: seq<Group>) {
    forall i, j :: 0 <= i < j < |groups| ==> !Alike(groups[i], groups[j])
  }

  lemma UniqueTail(groups: seq<Group>)
    requires groups != [] && UniqueGroups(groups)
    ensures UniqueGroups(groups[1..]) && forall g :: g in groups[1..] ==> !Alike(groups[0], g)
  {
    var tail := groups[1..];
    forall i | 0 <= i < |tail| ensures !Alike(groups[0], tail[i]) {
      assert !Alike(groups[0], groups[i + 1]);
    }
  }

  lemma UniqueCons(g: Group, tail: seq<Group>)
    requires UniqueGroups(tail) && forall h :: h in tail ==> !Alike(g, h)
    ensures UniqueGroups([g] + tail)
  {}

  /** Only the group with the row's columns changes, or is new. */
  lemma {:induction false} AddRowMembers(groups: seq<Group>, w: WalletRow, g: Group)
    requires UniqueGroups(groups) && g in AddRow(groups, w)
    ensures SameColumns(g, w) ==>
      (g == GroupOf(w) && !HasGroup(groups, w)) || exists h :: h in groups && SameColumns(h, w) && g == Raised(h, w.id)
    ensures !SameColumns(g, w) ==> g in groups
  {
    if groups != [] {
      var head, tail := groups[0], groups[1..];
      UniqueTail(groups);
      assert groups == [head] + tail;
      if SameColumns(head, w) {
        assert g == Raised(head, w.id) || g in tail;
        assert head in groups;
      } else if g != head {
        AddRowMembers(tail, w, g);
      }
    }
  }

  lemma {:induction false} AddRowUnique(groups: seq<Group>, w: WalletRow)
    requires UniqueGroups(groups)
    ensures UniqueGroups(AddRow(groups, w))
  {
    if groups != [] {
      var head, tail := groups[0], groups[1..];
      UniqueTail(groups);
      if SameColumns(head, w) {
        UniqueCons(Raised(head, w.id), tail);
      } else {
        AddRowUnique(tail, w);
        forall g | g in AddRow(tail, w) ensures !Alike(head, g) {
          AddRowMembers(tail, w, g);
        }
        UniqueCons(head, AddRow(tail, w));
      }
    }
  }

  /** The group is one of the rows, and none with its columns has a larger id. */
  ghost predicate Fits(g: Group, rows: seq<WalletRow>) {
    && (exists w :: w in rows && g == GroupOf(w))
    && (forall w :: w in rows && SameColumns(g, w) ==> w.id <= g.maxId.value)
  }

  lemma KeptFits(g: Group, rows: seq<WalletRow>, w: WalletRow)
    requires Fits(g, rows) && !SameColumns(g, w)
    ensures Fits(g, rows + [w])
  {
    var v :| v in rows && g == GroupOf(v);
    assert v in rows + [w];
  }

  lemma RaisedFits(h: Group, rows: seq<WalletRow>, w: WalletRow)
    requires Fits(h, rows) && SameColumns(h, w)
    ensures Fits(Raised(h, w.id), rows + [w])
  {
    var v :| v in rows && h == GroupOf(v);
    assert v in rows + [w] && w in rows + [w];
    assert Raised(h, w.id) == GroupOf(if v.id >= w.id then v else w);
    forall u | u in rows + [w] && SameColumns(Raised(h, w.id), u) ensures u.id <= Raised(h, w.id).maxId.value {
      assert u in rows ==> SameColumns(h, u);
    }
  }

  lemma NewFits(groups: seq<Group>, rows: seq<WalletRow>, w: WalletRow)
    requires !HasGroup(groups, w) && forall v :: v in rows ==> HasGroup(groups, v)
    ensures Fits(GroupOf(w), rows + [w])
  {
    forall v | v in rows ensures !SameColumns(GroupOf(w), v) {
      var h :| h in groups && SameColumns(h, v);
      assert !SameColumns(h, w);
    }
    assert w in rows + [w];
  }

  lemma AddRowFits(groups: seq<Group>, rows: seq<WalletRow>, w: WalletRow, g: Group)
    requires UniqueGroups(groups) && (forall h :: h in groups ==> Fits(h, rows))
    requires (forall v :: v in rows ==> HasGroup(groups, v)) && g in AddRow(groups, w)
    ensures Fits(g, rows + [w])
  {
    AddRowMembers(groups, w, g);
    if !SameColumns(g, w) {
      KeptFits(g, rows, w);
    } else if g == GroupOf(w) && !HasGroup(groups, w) {
      NewFits(groups, rows, w);
    } else {
      var h :| h in groups && SameColumns(h, w) && g == Raised(h, w.id);
      RaisedFits(h, rows, w);
    }
  }

  lemma {:induction false} GroupByFits(rows: seq<WalletRow>)
    ensures UniqueGroups(GroupBy(rows)) && forall g :: g in GroupBy(rows) ==> Fits(g, rows)
  {
    if rows != [] {
      var init, last := rows[..|rows| - 1], rows[|rows| - 1];
      GroupByFits(init);
      AddRowUnique(GroupBy(init), last);
      assert rows == init + [last];
      forall v | v in init ensures HasGroup(GroupBy(init), v) {
        GroupsOfRows(init, v);
      }
      forall g | g in GroupBy(rows) ensures Fits(g, rows) {
        AddRowFits(GroupBy(init), init, last, g);
      }
    }
  }

  ghost predicate UniqueRowIds(rows: seq<WalletRow>) {
    forall v, w :: v in rows && w in rows && v.id == w.id ==> v == w
  }

  /** The groups of a table meet what the merge asks of them. */
  lemma GroupsHaveDistinctIds(rows: seq<WalletRow>, groups: seq<Group>)
    requires UniqueRowIds(rows) && multiset(groups) == multiset(GroupBy(rows))
    ensures DistinctIds(groups)
  {
    GroupByFits(rows);
    forall g, h | g in groups && h in groups && g.maxId.Some? && g.maxId == h.maxId ensures g == h {
      SameMembers(groups, GroupBy(rows), g);
      SameMembers(groups, GroupBy(rows), h);
      var v :| v in rows && g == GroupOf(v);
      var w :| w in rows && h == GroupOf(w);
    }
  }

  lemma HighestUnderKey(rows: seq<WalletRow>, groups: seq<Group>, key: string)
    requires multiset(groups) == multiset(GroupBy(rows))
    ensures Merged(groups, key).Some? <==> exists w :: w in rows && UnderKey(w, key)
    ensures Merged(groups, key).Some? ==>
      && (exists w :: w in rows && UnderKey(w, key)
            && Merged(groups, key).value == EntryFrom(GroupOf(w), CountOf(groups, key)))
      && (forall w :: w in rows && UnderKey(w, key) ==> w.id <= Merged(groups, key).value.id)
  {
    GroupByFits(rows);
    MergedSpeaks(groups, key);
    forall g ensures g in groups <==> g in GroupBy(rows) {
      SameMembers(groups, GroupBy(rows), g);
    }
    forall w | w in rows && UnderKey(w, key)
      ensures Merged(groups, key).Some? && w.id <= Merged(groups, key).value.id
    {
      GroupsOfRows(rows, w);
      assert EqualColumns(w, w);
      var g :| g in GroupBy(rows) && SameColumns(g, w);
      assert Fits(g, rows) && g.maxId.Some?;
      assert KeyOf(g) == KeyOf(GroupOf(w));
      assert Counts(g, key);
    }
    if Merged(groups, key).Some? {
      var g :| g in groups && Counts(g, key) && Merged(groups, key).value == EntryFrom(g, CountOf(groups, key));
      assert Fits(g, rows);
      var w :| w in rows && g == GroupOf(w);
      assert UnderKey(w, key);
    }
  }

  /** From the rows to the entry: a wallet's identity is listed by the wallet of that identity with the highest id. */
  lemma EntryIsHighestWallet(rows: seq<WalletRow>, groups: seq<Group>, v: WalletRow)
    requires TextRows(rows) && multiset(groups) == multiset(GroupBy(rows)) && v in rows
    ensures Merged(groups, KeyOf(GroupOf(v))).Some?
    ensures var e := Merged(groups, KeyOf(GroupOf(v))).value;
      && (forall w :: w in rows && SameIdentity(w, v) ==> w.id <= e.id)
      && exists w :: w in rows && SameIdentity(w, v)
           && w == WalletRow(e.id, e.address, e.chain, e.currency, e.network, e.env)
  {
    var key := KeyOf(GroupOf(v));
    HighestUnderKey(rows, groups, key);
    assert UnderKey(v, key);
    forall w | w in rows ensures UnderKey(w, key) <==> SameIdentity(w, v) {
      UnderKeyIff(rows, v, w);
    }
    var e := Merged(groups, key).value;
    var w :| w in rows && UnderKey(w, key) && e == EntryFrom(GroupOf(w), CountOf(groups, key));
    assert w == WalletRow(e.id, e.address, e.chain, e.currency, e.network, e.env);
  }

  /** No key but that of a wallet's identity has an entry. */
  lemma OnlyWalletsAreListed(rows: seq<WalletRow>, groups: seq<Group>, key: string)
    requires multiset(groups) == multiset(GroupBy(rows)) && Merged(groups, key).Some?
    ensures exists v :: v in rows && KeyOf(GroupOf(v)) == key
  {
    HighestUnderKey(rows, groups, key);
  }
}
