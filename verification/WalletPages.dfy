// The merged wallet list ordered by cached balance and cut into pages.

module WalletPages {
  import opened Lists
  import opened Text
  import opened WalletList
  import Sorting

  /** The columns of a wallet row the balance lookup selects. */
  datatype Wallet = Wallet(id: int, cachedBalance: Option<string>)

  datatype Page = Page(total: int, ids: seq<int>, rowCountById: map<int, int>)

  // ---- Balances ----------------------------------------------------------------------

  const BATCH := 2000

  /** A missing, blank or non-decimal cached balance sorts as zero. */
  function ParseBalance(raw: Option<string>): int {
    match raw
    case None => 0
    case Some(text) =>
      var s := Trim(text);
      if s != "" && AllDigits(s) then Value(s) else 0
  }

  /** Direct lookup of one wallet's balance; ids are primary keys, a missing wallet counts as zero. */
  function BalanceOf(table: seq<Wallet>, id: int): int {
    if table == [] then 0
    else
      var w := table[|table| - 1];
      if w.id == id then ParseBalance(w.cachedBalance) else BalanceOf(table[..|table| - 1], id)
  }

  ghost predicate UniqueIds(table: seq<Wallet>) {
    forall v, w :: v in table && w in table && v.id == w.id ==> v == w
  }

  /** findMany where id is in the chunk. */
  function RowsIn(table: seq<Wallet>, chunk: seq<int>): seq<Wallet> {
    if table == [] then []
    else
      var w := table[|table| - 1];
      RowsIn(table[..|table| - 1], chunk) + (if w.id in chunk then [w] else [])
  }

  function Get(bal: map<int, int>, id: int): int {
    if id in bal then bal[id] else 0
  }

  /** The balances of one batch stored over those already known. */
  function Stored(bal: map<int, int>, rows: seq<Wallet>): map<int, int> {
    if rows == [] then bal
    else
      var w := rows[|rows| - 1];
      Stored(bal, rows[..|rows| - 1])[w.id := ParseBalance(w.cachedBalance)]
  }

  method StoreRows(bal: map<int, int>, rows: seq<Wallet>) returns (r: map<int, int>)
    ensures r == Stored(bal, rows)
  {
    r := bal;
    for i := 0 to |rows|
      invariant r == Stored(bal, rows[..i])
    {
      assert rows[..i + 1][..i] == rows[..i];
      r := r[rows[i].id := ParseBalance(rows[i].cachedBalance)];
    }
    assert rows[..|rows|] == rows;
  }

  predicate Has(table: seq<Wallet>, id: int) {
    exists w :: w in table && w.id == id
  }

  /** After a batch: ids of the chunk read as in the table, every other id as before. */
  lemma {:induction false} BatchReads(bal: map<int, int>, table: seq<Wallet>, chunk: seq<int>, id: int)
    ensures id in chunk && Has(table, id) ==> Get(Stored(bal, RowsIn(table, chunk)), id) == BalanceOf(table, id)
    ensures id !in chunk || !Has(table, id) ==> Get(Stored(bal, RowsIn(table, chunk)), id) == Get(bal, id)
    ensures !Has(table, id) ==> BalanceOf(table, id) == 0
  {
    if table != [] {
      var init, w := table[..|table| - 1], table[|table| - 1];
      BatchReads(bal, init, chunk, id);
      HasInit(table, id);
      var rows := RowsIn(table, chunk);
      if w.id in chunk {
        assert rows[..|rows| - 1] == RowsIn(init, chunk);
      } else {
        assert rows == RowsIn(init, chunk);
      }
    }
  }

  lemma HasInit(table: seq<Wallet>, id: int)
    requires table != []
    ensures Has(table, id) <==> Has(table[..|table| - 1], id) || table[|table| - 1].id == id
  {
    var init, last := table[..|table| - 1], table[|table| - 1];
    forall w ensures w in table <==> w in init || w == last {
      InInit(table, w);
    }
  }

  /** The batched balance map answers every listed id as a direct lookup would. */
  method FetchBalances(table: seq<Wallet>, ids: seq<int>) returns (bal: map<int, int>)
    ensures forall id :: id in ids ==> Get(bal, id) == BalanceOf(table, id)
  {
    bal := map[];
    var i := 0;
    while i < |ids|
      invariant 0 <= i
      invariant forall id :: Get(bal, id) == 0 || Get(bal, id) == BalanceOf(table, id)
      invariant forall k :: 0 <= k < i && k < |ids| ==> Get(bal, ids[k]) == BalanceOf(table, ids[k])
    {
      var end := if i + BATCH <= |ids| then i + BATCH else |ids|;
      var chunk := ids[i..end];
      var before := bal;
      bal := StoreRows(before, RowsIn(table, chunk));
      forall id ensures Get(bal, id) == BalanceOf(table, id) || (id !in chunk && Get(bal, id) == Get(before, id)) {
        BatchReads(before, table, chunk, id);
      }
      forall k | 0 <= k < end ensures Get(bal, ids[k]) == BalanceOf(table, ids[k]) {
        if i <= k {
          assert ids[k] == chunk[k - i];
        }
      }
      i := i + BATCH;
    }
  }

  /** The row order of the answers does not matter, as ids are unique. */
  lemma BalanceIgnoresOrder(a: seq<Wallet>, b: seq<Wallet>, id: int)
    requires multiset(a) == multiset(b) && UniqueIds(a)
    ensures BalanceOf(a, id) == BalanceOf(b, id)
  {
    BalanceMeans(a, id);
    BalanceMeans(b, id);
    forall w: Wallet ensures w in a <==> w in b {
      SameMembers(a, b, w);
    }
    if Has(a, id) {
      var w :| w in a && w.id == id && BalanceOf(a, id) == ParseBalance(w.cachedBalance);
      var v :| v in b && v.id == id && BalanceOf(b, id) == ParseBalance(v.cachedBalance);
      assert v in a;
    }
  }

  lemma {:induction false} BalanceMeans(table: seq<Wallet>, id: int)
    ensures Has(table, id) ==>
      exists w :: w in table && w.id == id && BalanceOf(table, id) == ParseBalance(w.cachedBalance)
    ensures !Has(table, id) ==> BalanceOf(table, id) == 0
  {
    if table != [] {
      var init, last := table[..|table| - 1], table[|table| - 1];
      HasInit(table, id);
      BalanceMeans(init, id);
      InInit(table, last);
      if last.id != id && Has(init, id) {
        var w :| w in init && w.id == id && BalanceOf(init, id) == ParseBalance(w.cachedBalance);
        InInit(table, w);
      }
    }
  }

  /**
   * A balance is the number its text shows, white space around it aside; a wallet without
   * one, with a text that is blank or has anything but digits, or gone, counts as zero.
   */
  lemma BalanceReads(table: seq<Wallet>, id: int, w: Wallet)
    requires UniqueIds(table)
    ensures !Has(table, id) ==> BalanceOf(table, id) == 0
    ensures w in table && w.id == id && w.cachedBalance.None? ==> BalanceOf(table, id) == 0
    ensures w in table && w.id == id && w.cachedBalance.Some? ==>
      var text := Trim(w.cachedBalance.value);
      BalanceOf(table, id) ==
        if text != "" && forall i :: 0 <= i < |text| ==> IsDigit(text[i]) then Value(text) else 0
  {
    BalanceMeans(table, id);
  }

  // ---- Order -------------------------------------------------------------------------

  /** The comparator: larger balance first, then larger id. */
  predicate Before(rank: int -> int, a: Entry, b: Entry) {
    rank(a.id) > rank(b.id) || (rank(a.id) == rank(b.id) && a.id > b.id)
  }

  function ByBalance(rank: int -> int): (Entry, Entry) -> bool {
    (a, b) => Before(rank, a, b)
  }

  ghost predicate Ordered(rank: int -> int, s: seq<Entry>) {
    Sorting.OrderedBy(ByBalance(rank), s)
  }

  ghost predicate DistinctEntries(s: seq<Entry>) {
    forall i, j :: 0 <= i < j < |s| ==> s[i].id != s[j].id
  }

  lemma SortOrders(rank: int -> int, s: seq<Entry>)
    requires DistinctEntries(s)
    ensures Ordered(rank, Sorting.SortBy(ByBalance(rank), s))
  {
    Sorting.SortOrdered(ByBalance(rank), s);
  }

  /** The comparator admits one sorted result only. */
  lemma SortedIsUnique(rank: int -> int, a: seq<Entry>, b: seq<Entry>)
    requires Ordered(rank, a) && Ordered(rank, b)
    requires forall x :: x in a <==> x in b
    ensures a == b
  {
    Sorting.OrderedIsUnique(ByBalance(rank), a, b);
  }

  lemma SortAgrees(r: int -> int, q: int -> int, s: seq<Entry>)
    requires forall x :: x in s ==> r(x.id) == q(x.id)
    ensures Sorting.SortBy(ByBalance(r), s) == Sorting.SortBy(ByBalance(q), s)
  {
    Sorting.SortAgrees(ByBalance(r), ByBalance(q), s);
  }

  // ---- The whole list ----------------------------------------------------------------

  /** The Map's values, in its iteration order. */
  function EntriesAt(keys: seq<string>, groups: seq<Group>): seq<Entry> {
    if keys == [] then []
    else
      EntriesAt(keys[..|keys| - 1], groups) +
      match Merged(groups, keys[|keys| - 1]) case None => [] case Some(e) => [e]
  }

  function RankIn(table: seq<Wallet>): int -> int {
    (id: int) => BalanceOf(table, id)
  }

  function RankOf(bal: map<int, int>): int -> int {
    (id: int) => Get(bal, id)
  }

  function FullList(groups: seq<Group>, table: seq<Wallet>): seq<Entry> {
    Sorting.SortBy(ByBalance(RankIn(table)), EntriesAt(KeysOf(groups), groups))
  }

  lemma {:induction false} EntriesMembers(keys: seq<string>, groups: seq<Group>, e: Entry)
    ensures e in EntriesAt(keys, groups) <==> exists k :: k in keys && Merged(groups, k) == Some(e)
  {
    if keys != [] {
      var init, last := keys[..|keys| - 1], keys[|keys| - 1];
      EntriesMembers(init, groups, e);
      forall k ensures k in keys <==> k in init || k == last {
        InInit(keys, k);
      }
      assert last in keys;
    }
  }

  /** The key an entry was merged under. */
  function EntryKey(e: Entry): string {
    KeyOf(Group(e.address, e.chain, e.currency, e.network, e.env, Some(e.id)))
  }

  lemma MergedKey(groups: seq<Group>, key: string)
    requires Merged(groups, key).Some?
    ensures EntryKey(Merged(groups, key).value) == key
  {
    MergedSpeaks(groups, key);
    var g :| g in groups && Counts(g, key) && Merged(groups, key).value == EntryFrom(g, CountOf(groups, key));
    assert Group(g.address, g.chain, g.currency, g.network, g.env, Some(g.maxId.value)) == g;
  }

  lemma SameIdSameKey(groups: seq<Group>, k: string, m: string)
    requires DistinctIds(groups) && Merged(groups, k).Some? && Merged(groups, m).Some?
    requires Merged(groups, k).value.id == Merged(groups, m).value.id
    ensures k == m
  {
    MergedSpeaks(groups, k);
    MergedSpeaks(groups, m);
    var g :| g in groups && Counts(g, k) && Merged(groups, k).value == EntryFrom(g, CountOf(groups, k));
    var h :| h in groups && Counts(h, m) && Merged(groups, m).value == EntryFrom(h, CountOf(groups, m));
    assert g.maxId == h.maxId;
  }

  lemma {:induction false} EntriesDistinct(keys: seq<string>, groups: seq<Group>)
    requires NoRepeats(keys) && DistinctIds(groups)
    ensures DistinctEntries(EntriesAt(keys, groups))
  {
    if keys != [] {
      var init, last := keys[..|keys| - 1], keys[|keys| - 1];
      LastIsNew(keys);
      EntriesDistinct(init, groups);
      var s := EntriesAt(init, groups);
      if Merged(groups, last).Some? {
        var e := Merged(groups, last).value;
        forall i | 0 <= i < |s| ensures s[i].id != e.id {
          EntriesMembers(init, groups, s[i]);
          var k :| k in init && Merged(groups, k) == Some(s[i]);
          if s[i].id == e.id {
            SameIdSameKey(groups, k, last);
          }
        }
      }
    }
  }

  /**
   * The list holds exactly the merged entries, one per identity, the larger balance first
   * and between equal balances the higher id.
   */
  lemma FullListIsTheListing(groups: seq<Group>, table: seq<Wallet>)
    requires DistinctIds(groups)
    ensures Ordered(RankIn(table), FullList(groups, table))
    ensures forall i, j :: 0 <= i < j < |FullList(groups, table)| ==>
              var a, b := FullList(groups, table)[i].id, FullList(groups, table)[j].id;
              || BalanceOf(table, a) > BalanceOf(table, b)
              || (BalanceOf(table, a) == BalanceOf(table, b) && a > b)
    ensures forall e :: e in FullList(groups, table) <==> Merged(groups, EntryKey(e)) == Some(e)
  {
    var keys := KeysOf(groups);
    KeysDoNotRepeat(groups);
    EntriesDistinct(keys, groups);
    SortOrders(RankIn(table), EntriesAt(keys, groups));
    forall i, j | 0 <= i < j < |FullList(groups, table)|
      ensures Before(RankIn(table), FullList(groups, table)[i], FullList(groups, table)[j])
    {}
    forall e ensures e in FullList(groups, table) <==> Merged(groups, EntryKey(e)) == Some(e) {
      Sorting.SortMembers(ByBalance(RankIn(table)), EntriesAt(keys, groups), e);
      EntriesMembers(keys, groups, e);
      if e in EntriesAt(keys, groups) {
        var k :| k in keys && Merged(groups, k) == Some(e);
        MergedKey(groups, k);
      }
      KeysAreMerged(groups, EntryKey(e));
    }
  }

  /** Every identity with a wallet is listed at exactly one place. */
  lemma EachIdentityOnce(groups: seq<Group>, table: seq<Wallet>, g: Group)
    requires DistinctIds(groups) && g in groups && g.maxId.Some?
    ensures exists i :: 0 <= i < |FullList(groups, table)| && EntryKey(FullList(groups, table)[i]) == KeyOf(g)
    ensures forall i, j :: 0 <= i < j < |FullList(groups, table)| ==>
      EntryKey(FullList(groups, table)[i]) != EntryKey(FullList(groups, table)[j])
  {
    var list := FullList(groups, table);
    FullListIsTheListing(groups, table);
    MergedSpeaks(groups, KeyOf(g));
    assert Counts(g, KeyOf(g));
    var e := Merged(groups, KeyOf(g)).value;
    MergedKey(groups, KeyOf(g));
    assert e in list;
    var i :| 0 <= i < |list| && list[i] == e;
    assert EntryKey(list[i]) == KeyOf(g);
    forall i, j | 0 <= i < j < |list| ensures EntryKey(list[i]) != EntryKey(list[j]) {
      assert list[i] in list && list[j] in list;
      assert Before(RankIn(table), list[i], list[j]);
    }
  }

  function TotalRows(list: seq<Entry>): int {
    if list == [] then 0 else list[0].rowCount + TotalRows(list[1..])
  }

  lemma {:induction false} TotalAppend(a: seq<Entry>, e: Entry)
    ensures TotalRows(a + [e]) == TotalRows(a) + e.rowCount
  {
    if a != [] {
      assert (a + [e])[1..] == a[1..] + [e];
      TotalAppend(a[1..], e);
    }
  }

  lemma {:induction false} TotalInsert(before: (Entry, Entry) -> bool, e: Entry, s: seq<Entry>)
    ensures TotalRows(Sorting.InsertBy(before, e, s)) == e.rowCount + TotalRows(s)
  {
    var r := Sorting.InsertBy(before, e, s);
    if s != [] && !before(e, s[0]) {
      TotalInsert(before, e, s[1..]);
      assert r[1..] == Sorting.InsertBy(before, e, s[1..]);
    } else {
      assert r[1..] == s;
    }
  }

  lemma {:induction false} TotalSort(before: (Entry, Entry) -> bool, s: seq<Entry>)
    ensures TotalRows(Sorting.SortBy(before, s)) == TotalRows(s)
  {
    if s != [] {
      TotalSort(before, s[1..]);
      TotalInsert(before, s[0], Sorting.SortBy(before, s[1..]));
    }
  }

  lemma {:induction false} TotalOfEntries(keys: seq<string>, groups: seq<Group>)
    ensures TotalRows(EntriesAt(keys, groups)) == SumCounts(keys, groups)
  {
    if keys != [] {
      var init, last := keys[..|keys| - 1], keys[|keys| - 1];
      TotalOfEntries(init, groups);
      MergedSpeaks(groups, last);
      if Merged(groups, last).Some? {
        TotalAppend(EntriesAt(init, groups), Merged(groups, last).value);
      } else {
        assert EntriesAt(keys, groups) == EntriesAt(init, groups);
      }
    }
  }

  /** No group is lost or counted twice: the row counts add up to the groups with a wallet. */
  lemma RowCountsAddUp(groups: seq<Group>, table: seq<Wallet>)
    ensures TotalRows(FullList(groups, table)) == WithWallet(groups)
  {
    TotalSort(ByBalance(RankIn(table)), EntriesAt(KeysOf(groups), groups));
    TotalOfEntries(KeysOf(groups), groups);
    CountsAddUp(groups);
  }

  /** The list depends neither on the order of the groups nor on that of the wallet rows. */
  lemma ListIgnoresArrivalOrder(a: seq<Group>, b: seq<Group>, t: seq<Wallet>, u: seq<Wallet>)
    requires multiset(a) == multiset(b) && DistinctIds(a)
    requires multiset(t) == multiset(u) && UniqueIds(t)
    ensures FullList(a, t) == FullList(b, u)
  {
    forall g: Group ensures g in a <==> g in b {
      SameMembers(a, b, g);
    }
    FullListIsTheListing(a, t);
    FullListIsTheListing(b, u);
    forall e ensures e in FullList(a, t) <==> e in FullList(b, u) {
      MergeIgnoresOrder(a, b, EntryKey(e));
    }
    forall id ensures RankIn(t)(id) == RankIn(u)(id) {
      BalanceIgnoresOrder(t, u, id);
    }
    OrderedAgrees(RankIn(t), RankIn(u), FullList(b, u));
    SortedIsUnique(RankIn(t), FullList(a, t), FullList(b, u));
  }

  lemma OrderedAgrees(r: int -> int, q: int -> int, s: seq<Entry>)
    requires Ordered(q, s) && forall id :: r(id) == q(id)
    ensures Ordered(r, s)
  {
    forall i, j | 0 <= i < j < |s| ensures Before(r, s[i], s[j]) {
      assert Before(q, s[i], s[j]);
    }
  }

  // ---- Pages -------------------------------------------------------------------------

  function Slice(list: seq<Entry>, skip: nat, take: nat): seq<Entry> {
    var start := if skip <= |list| then skip else |list|;
    var end := if skip + take <= |list| then skip + take else |list|;
    list[start..end]
  }

  function Ids(list: seq<Entry>): seq<int> {
    if list == [] then [] else [list[0].id] + Ids(list[1..])
  }

  function RowCountById(list: seq<Entry>): map<int, int> {
    if list == [] then map[]
    else
      var e := list[|list| - 1];
      RowCountById(list[..|list| - 1])[e.id := e.rowCount]
  }

  function PageOf(list: seq<Entry>, skip: nat, take: nat): Page {
    Page(|list|, Ids(Slice(list, skip, take)), RowCountById(Slice(list, skip, take)))
  }

  method ListWallets(groups: seq<Group>, table: seq<Wallet>, skip: nat, take: nat) returns (page: Page)
    ensures page == PageOf(FullList(groups, table), skip, take)
  {
    var keys, merged := Merge(groups);
    var list := [];
    for i := 0 to |keys|
      invariant list == EntriesAt(keys[..i], groups)
    {
      assert keys[..i + 1][..i] == keys[..i];
      KeysAreMerged(groups, keys[i]);
      list := list + [merged[keys[i]]];
    }
    assert keys[..|keys|] == keys;
    ghost var entries := list;
    if |list| > 0 {
      var bal := FetchBalances(table, Ids(list));
      forall e | e in list ensures RankOf(bal)(e.id) == RankIn(table)(e.id) {
        IdsMembers(list, e);
      }
      SortAgrees(RankOf(bal), RankIn(table), list);
      list := Sorting.SortBy(ByBalance(RankOf(bal)), list);
    }
    assert list == FullList(groups, table);
    var slice := Slice(list, skip, take);
    page := Page(|list|, Ids(slice), RowCountById(slice));
  }

  lemma {:induction false} IdsAre(list: seq<Entry>)
    ensures |Ids(list)| == |list| && forall k :: 0 <= k < |list| ==> Ids(list)[k] == list[k].id
  {
    if list != [] {
      IdsAre(list[1..]);
    }
  }

  /** A page shows the total and the ids from its place in the list on, with the row count of each. */
  lemma PageShows(list: seq<Entry>, skip: nat, take: nat)
    requires DistinctEntries(list)
    ensures var page := PageOf(list, skip, take);
      && page.total == |list|
      && |page.ids| == (if skip >= |list| then 0 else if take <= |list| - skip then take else |list| - skip)
      && (forall k :: 0 <= k < |page.ids| ==>
            && page.ids[k] == list[skip + k].id && page.ids[k] in page.rowCountById
            && page.rowCountById[page.ids[k]] == list[skip + k].rowCount)
      && forall id :: id in page.rowCountById ==> id in page.ids
  {
    var slice := Slice(list, skip, take);
    IdsAre(slice);
    assert forall k :: 0 <= k < |slice| ==> slice[k] == list[skip + k];
    forall id
      ensures forall i :: 0 <= i < |slice| && slice[i].id == id ==>
                id in RowCountById(slice) && RowCountById(slice)[id] == slice[i].rowCount
      ensures id in RowCountById(slice) ==> id in Ids(slice)
    {
      RowCountsOnPage(slice, id);
      if id in RowCountById(slice) {
        var i :| 0 <= i < |slice| && slice[i].id == id;
        assert Ids(slice)[i] == id;
      }
    }
  }

  lemma {:induction false} IdsMembers(list: seq<Entry>, e: Entry)
    requires e in list
    ensures e.id in Ids(list)
  {
    if e != list[0] {
      assert list == [list[0]] + list[1..];
      IdsMembers(list[1..], e);
    }
  }

  lemma {:induction false} IdsAppend(a: seq<Entry>, b: seq<Entry>)
    ensures Ids(a + b) == Ids(a) + Ids(b)
  {
    if a == [] {
      assert a + b == b;
    } else {
      assert (a + b)[1..] == a[1..] + b;
      IdsAppend(a[1..], b);
    }
  }

  /** Each wallet on a page reads its own row count there; no other wallet does. */
  lemma {:induction false} RowCountsOnPage(list: seq<Entry>, id: int)
    requires DistinctEntries(list)
    ensures forall i :: 0 <= i < |list| && list[i].id == id ==>
      id in RowCountById(list) && RowCountById(list)[id] == list[i].rowCount
    ensures id in RowCountById(list) ==> exists i :: 0 <= i < |list| && list[i].id == id
  {
    if list != [] {
      var init := list[..|list| - 1];
      RowCountsOnPage(init, id);
      forall i | 0 <= i < |list| && list[i].id == id
        ensures id in RowCountById(list) && RowCountById(list)[id] == list[i].rowCount
      {
        if i < |init| {
          assert init[i] == list[i];
        }
      }
      if id in RowCountById(list) {
        if list[|list| - 1].id != id {
          var i :| 0 <= i < |init| && init[i].id == id;
          assert list[i].id == id;
        }
      }
    }
  }

  /** The ids seen by asking for pages 0, 1, ... of one size, the p-th call computing the list lists(p). */
  function Walk(lists: int -> seq<Entry>, take: nat, pages: nat): seq<int> {
    if pages == 0 then []
    else Walk(lists, take, pages - 1) + PageOf(lists(pages - 1), Skip(take, pages - 1), take).ids
  }

  /** page * take */
  function Skip(take: nat, page: nat): nat {
    if page == 0 then 0 else Skip(take, page - 1) + take
  }

  lemma {:induction false} SkipIsProduct(take: nat, page: nat)
    ensures Skip(take, page) == page * take
  {
    if page > 0 {
      SkipIsProduct(take, page - 1);
    }
  }

  function Upto(list: seq<Entry>, n: nat): seq<Entry> {
    if n <= |list| then list[..n] else list
  }

  lemma PageExtends(list: seq<Entry>, skip: nat, take: nat)
    ensures Ids(Upto(list, skip)) + PageOf(list, skip, take).ids == Ids(Upto(list, skip + take))
  {
    assert Upto(list, skip) + Slice(list, skip, take) == Upto(list, skip + take);
    IdsAppend(Upto(list, skip), Slice(list, skip, take));
  }

  lemma {:induction false} WalkIsPrefix(lists: int -> seq<Entry>, take: nat, pages: nat, list: seq<Entry>)
    requires forall p :: lists(p) == list
    ensures Walk(lists, take, pages) == Ids(Upto(list, Skip(take, pages)))
  {
    if pages > 0 {
      WalkIsPrefix(lists, take, pages - 1, list);
      assert lists(pages - 1) == list;
      PageExtends(list, Skip(take, pages - 1), take);
    }
  }

  lemma WalkCovers(lists: int -> seq<Entry>, take: nat, pages: nat, list: seq<Entry>)
    requires forall p :: lists(p) == list
    requires pages * take >= |list|
    ensures Walk(lists, take, pages) == Ids(list)
  {
    WalkIsPrefix(lists, take, pages, list);
    SkipIsProduct(take, pages);
    assert Skip(take, pages) >= |list|;
    UptoAll(list, Skip(take, pages));
  }

  lemma UptoAll(list: seq<Entry>, n: nat)
    requires n >= |list|
    ensures Upto(list, n) == list
  {}

  /** A list computed from these groups and wallet rows, arriving in some order. */
  ghost predicate ComputedFrom(list: seq<Entry>, groups: seq<Group>, table: seq<Wallet>) {
    exists a: seq<Group>, t: seq<Wallet> ::
      multiset(a) == multiset(groups) && multiset(t) == multiset(table) && list == FullList(a, t)
  }

  lemma ComputedIsFull(list: seq<Entry>, groups: seq<Group>, table: seq<Wallet>)
    requires DistinctIds(groups) && UniqueIds(table) && ComputedFrom(list, groups, table)
    ensures list == FullList(groups, table)
  {
    var a: seq<Group>, t: seq<Wallet> :|
      multiset(a) == multiset(groups) && multiset(t) == multiset(table) && list == FullList(a, t);
    ListIgnoresArrivalOrder(groups, a, table, t);
  }

  /**
   * Walking pages of any size over unchanged data gives the whole list, nothing lost or
   * repeated, even though no query promises an order.
   */
  lemma PagesCoverTheList(lists: int -> seq<Entry>, take: nat, pages: nat, groups: seq<Group>, table: seq<Wallet>)
    requires DistinctIds(groups) && UniqueIds(table)
    requires forall p :: ComputedFrom(lists(p), groups, table)
    requires pages * take >= |FullList(groups, table)|
    ensures Walk(lists, take, pages) == Ids(FullList(groups, table))
  {
    forall p ensures lists(p) == FullList(groups, table) {
      ComputedIsFull(lists(p), groups, table);
    }
    WalkCovers(lists, take, pages, FullList(groups, table));
  }
}
