// The administrator's wallet list: grouped rows merged into one entry per on-chain
// identity, whatever order the groups arrive in.

module WalletList {
  import opened Chains
  import opened Lists
  import opened Text

  datatype Env = Live | Sandbox

  /** One row of the groupBy: the grouping columns and the largest wallet id in the group. */
  datatype Group = Group(address: string, chain: Chain, currency: string, network: string, env: Env, maxId: Option<int>)

  datatype Identity = Identity(address: string, chain: Chain, currency: string, network: string, env: Env)

  /** An entry of the list: the representative wallet, its columns, and how many groups it merges. */
  datatype Entry = Entry(
      id: int, address: string, chain: Chain, currency: string, network: string, env: Env, rowCount: int)

  // ---- Identities --------------------------------------------------------------------

  function EnvName(e: Env): string {
    match e
    case Live => "live" case Sandbox => "sandbox"
  }

  /** EVM addresses are case-insensitive. */
  function NormalizeAddress(chain: Chain, address: string): string {
    var a := Trim(address);
    if a == "" then a else if IsEvm(chain) then Lower(a) else a
  }

  function IdentityOf(g: Group): Identity {
    Identity(NormalizeAddress(g.chain, g.address), g.chain, g.currency, g.network, g.env)
  }

  /** Array.prototype.join with NUL. */
  function Joined(parts: seq<string>): string {
    if parts == [] then "" else if |parts| == 1 then parts[0] else parts[0] + "\0" + Joined(parts[1..])
  }

  function Parts(i: Identity): seq<string> {
    [i.address, ChainName(i.chain), i.currency, i.network, EnvName(i.env)]
  }

  function KeyOf(g: Group): string {
    Joined(Parts(IdentityOf(g)))
  }

  /** PostgreSQL text never contains NUL. */
  predicate NulFree(s: string) {
    '\0' !in s
  }

  predicate TextColumns(g: Group) {
    NulFree(g.address) && NulFree(g.currency) && NulFree(g.network)
  }

  lemma TrimNulFree(s: string)
    requires NulFree(s)
    ensures NulFree(TrimStart(s)) && NulFree(TrimEnd(s))
  {}

  lemma NormalizeNulFree(chain: Chain, s: string)
    requires NulFree(s)
    ensures NulFree(NormalizeAddress(chain, s))
  {
    TrimNulFree(s);
    TrimNulFree(TrimStart(s));
    LowerNulFree(Trim(s));
  }

  lemma LowerNulFree(s: string)
    requires NulFree(s)
    ensures NulFree(Lower(s))
  {}

  lemma FirstNul(a: string, x: string, b: string, y: string)
    requires NulFree(a) && NulFree(b) && a + "\0" + x == b + "\0" + y
    ensures |a| >= |b|
  {
    assert (a + "\0" + x)[|a|] == '\0';
    forall i | 0 <= i < |b| ensures (b + "\0" + y)[i] != '\0' {
      assert b[i] in b;
    }
  }

  lemma SplitAtNul(a: string, x: string, b: string, y: string)
    requires NulFree(a) && NulFree(b) && a + "\0" + x == b + "\0" + y
    ensures a == b && x == y
  {
    FirstNul(a, x, b, y);
    FirstNul(b, y, a, x);
    assert (a + "\0" + x)[..|a|] == a && (b + "\0" + y)[..|a|] == b;
    assert (a + "\0" + x)[|a| + 1..] == x && (b + "\0" + y)[|a| + 1..] == y;
  }

  /** Joining NUL-free parts loses nothing. */
  lemma {:induction false} JoinedIsInjective(p: seq<string>, q: seq<string>)
    requires |p| == |q| && Joined(p) == Joined(q)
    requires forall i :: 0 <= i < |p| ==> NulFree(p[i]) && NulFree(q[i])
    ensures p == q
  {
    if |p| >= 2 {
      SplitAtNul(p[0], Joined(p[1..]), q[0], Joined(q[1..]));
      JoinedIsInjective(p[1..], q[1..]);
      assert p == [p[0]] + p[1..] && q == [q[0]] + q[1..];
    }
  }

  lemma NamesIdentify(c: Chain, d: Chain, e: Env, f: Env)
    requires ChainName(c) == ChainName(d) && EnvName(e) == EnvName(f)
    ensures c == d && e == f
  {
    assert |ChainName(c)| == |ChainName(d)| && |EnvName(e)| == |EnvName(f)|;
    assert ChainName(c)[0] == ChainName(d)[0] && ChainName(c)[1] == ChainName(d)[1];
  }

  /**
   * Two groups share a merge key exactly when they are of one chain, currency, network and
   * environment, and their addresses are equal but for white space around them, and on
   * Ethereum but for the case of letters.
   */
  lemma KeyIdentifies(g: Group, h: Group)
    requires TextColumns(g) && TextColumns(h)
    ensures KeyOf(g) == KeyOf(h) <==>
      && g.chain == h.chain && g.currency == h.currency && g.network == h.network && g.env == h.env
      && (if g.chain == ETH then Lower(Trim(g.address)) == Lower(Trim(h.address))
          else Trim(g.address) == Trim(h.address))
  {
    AddressesAlike(g.address, h.address);
    if KeyOf(g) == KeyOf(h) {
      var i, j := IdentityOf(g), IdentityOf(h);
      PartsNulFree(g);
      PartsNulFree(h);
      JoinedIsInjective(Parts(i), Parts(j));
      assert Parts(i)[0] == Parts(j)[0] && Parts(i)[1] == Parts(j)[1] && Parts(i)[2] == Parts(j)[2];
      assert Parts(i)[3] == Parts(j)[3] && Parts(i)[4] == Parts(j)[4];
      NamesIdentify(i.chain, j.chain, i.env, j.env);
    }
  }

  /** Only the blank address normalizes to a blank one. */
  lemma AddressesAlike(a: string, b: string)
    ensures NormalizeAddress(ETH, a) == NormalizeAddress(ETH, b) <==> Lower(Trim(a)) == Lower(Trim(b))
    ensures forall c :: c != ETH ==> NormalizeAddress(c, a) == Trim(a)
  {}

  lemma PartsNulFree(g: Group)
    requires TextColumns(g)
    ensures forall i :: 0 <= i < 5 ==> NulFree(Parts(IdentityOf(g))[i])
  {
    NormalizeNulFree(g.chain, g.address);
    assert NulFree(ChainName(g.chain)) && NulFree(EnvName(g.env));
  }

  // ---- Merging: the specification ----------------------------------------------------

  /** Groups under a key that have a wallet at all. */
  function CountOf(groups: seq<Group>, key: string): int {
    if groups == [] then 0
    else
      CountOf(groups[..|groups| - 1], key) + (if Counts(groups[|groups| - 1], key) then 1 else 0)
  }

  predicate Counts(g: Group, key: string) {
    g.maxId.Some? && KeyOf(g) == key
  }

  function EntryFrom(g: Group, rowCount: int): Entry
    requires g.maxId.Some?
  {
    Entry(g.maxId.value, g.address, g.chain, g.currency, g.network, g.env, rowCount)
  }

  /** One turn of the merge loop, for the entry under the group's key. */
  function Absorb(prev: Option<Entry>, g: Group): Entry
    requires g.maxId.Some?
  {
    match prev
    case None => EntryFrom(g, 1)
    case Some(e) =>
      if g.maxId.value > e.id then EntryFrom(g, e.rowCount + 1) else e.(rowCount := e.rowCount + 1)
  }

  function Merged(groups: seq<Group>, key: string): Option<Entry> {
    if groups == [] then None
    else
      var g := groups[|groups| - 1];
      var prev := Merged(groups[..|groups| - 1], key);
      if Counts(g, key) then Some(Absorb(prev, g)) else prev
  }

  /** The keys in order of first appearance: the iteration order of the JavaScript Map. */
  function KeysOf(groups: seq<Group>): seq<string> {
    if groups == [] then []
    else
      var g := groups[|groups| - 1];
      var init := groups[..|groups| - 1];
      if g.maxId.None? || Merged(init, KeyOf(g)).Some? then KeysOf(init) else KeysOf(init) + [KeyOf(g)]
  }

  /** What the entry under a key must be, stated without any order on the groups. */
  ghost predicate SpeaksFor(e: Entry, groups: seq<Group>, key: string) {
    && (exists g :: g in groups && Counts(g, key) && e == EntryFrom(g, CountOf(groups, key)))
    && (forall g :: g in groups && Counts(g, key) ==> g.maxId.value <= e.id)
  }

  /** Wallet ids are primary keys, so no two groups share one. */
  ghost predicate DistinctIds(groups: seq<Group>) {
    forall g, h :: g in groups && h in groups && g.maxId.Some? && g.maxId == h.maxId ==> g == h
  }

  /** The merged entry is the group with the highest id of its identity, with the count of its groups. */
  lemma {:induction false} MergedSpeaks(groups: seq<Group>, key: string)
    ensures Merged(groups, key).Some? ==> SpeaksFor(Merged(groups, key).value, groups, key)
    ensures Merged(groups, key).None? ==> forall g :: g in groups ==> !Counts(g, key)
    ensures Merged(groups, key).None? ==> CountOf(groups, key) == 0
  {
    if groups != [] {
      var init, last := groups[..|groups| - 1], groups[|groups| - 1];
      MergedSpeaks(init, key);
      forall g ensures g in groups <==> g in init || g == last {
        InInit(groups, g);
      }
      MergedStep(groups, init, last, key);
    }
  }

  lemma MergedStep(groups: seq<Group>, init: seq<Group>, last: Group, key: string)
    requires groups != [] && init == groups[..|groups| - 1] && last == groups[|groups| - 1]
    requires forall g :: g in groups <==> g in init || g == last
    requires Merged(init, key).Some? ==> SpeaksFor(Merged(init, key).value, init, key)
    requires Merged(init, key).None? ==> (forall g :: g in init ==> !Counts(g, key)) && CountOf(init, key) == 0
    ensures Merged(groups, key).Some? ==> SpeaksFor(Merged(groups, key).value, groups, key)
    ensures Merged(groups, key).None? ==> (forall g :: g in groups ==> !Counts(g, key)) && CountOf(groups, key) == 0
  {
    if Counts(last, key) {
      var e := Merged(groups, key).value;
      if Merged(init, key).Some? && last.maxId.value <= Merged(init, key).value.id {
        var g :| g in init && Counts(g, key) && Merged(init, key).value == EntryFrom(g, CountOf(init, key));
        assert e == EntryFrom(g, CountOf(groups, key));
      } else {
        assert e == EntryFrom(last, CountOf(groups, key));
      }
    }
  }

  // ---- Arrival order -----------------------------------------------------------------

  lemma {:induction false} CountAppend(a: seq<Group>, b: seq<Group>, key: string)
    ensures CountOf(a + b, key) == CountOf(a, key) + CountOf(b, key)
  {
    if b == [] {
      assert a + b == a;
    } else {
      assert (a + b)[..|a + b| - 1] == a + b[..|b| - 1];
      CountAppend(a, b[..|b| - 1], key);
    }
  }

  lemma Without<T>(init: seq<T>, last: T, x: seq<T>, y: seq<T>)
    requires multiset(init + [last]) == multiset(x + [last] + y)
    ensures multiset(init) == multiset(x + y)
  {
    assert multiset(init + [last]) == multiset(init) + multiset{last};
    assert multiset(x + [last] + y) == multiset(x + [last]) + multiset(y);
    assert multiset(x + [last]) == multiset(x) + multiset{last};
    assert multiset(x + y) == multiset(x) + multiset(y);
    assert multiset(init) == multiset(init) + multiset{last} - multiset{last};
    assert multiset(x) + multiset(y) == multiset(x) + multiset{last} + multiset(y) - multiset{last};
  }

  lemma {:induction false} CountIgnoresOrder(a: seq<Group>, b: seq<Group>, key: string)
    requires multiset(a) == multiset(b)
    ensures CountOf(a, key) == CountOf(b, key)
  {
    assert |a| == |multiset(a)| == |multiset(b)| == |b|;
    if a != [] {
      var init, last := a[..|a| - 1], a[|a| - 1];
      assert a == init + [last];
      SameMembers(a, b, last);
      var j :| 0 <= j < |b| && b[j] == last;
      var x, y := b[..j], b[j + 1..];
      assert b == x + [last] + y;
      Without(init, last, x, y);
      CountIgnoresOrder(init, x + y, key);
      CountAppend(x, y, key);
      CountAppend(x + [last], y, key);
      CountAppend(x, [last], key);
      CountAppend(init, [last], key);
    }
  }

  /** The entry of an identity does not depend on the order the groups arrive in. */
  lemma MergeIgnoresOrder(a: seq<Group>, b: seq<Group>, key: string)
    requires multiset(a) == multiset(b) && DistinctIds(a)
    ensures Merged(a, key) == Merged(b, key)
  {
    MergedSpeaks(a, key);
    MergedSpeaks(b, key);
    CountIgnoresOrder(a, b, key);
    forall g ensures g in a <==> g in b {
      SameMembers(a, b, g);
    }
    var n := CountOf(a, key);
    if Merged(a, key).Some? {
      var g :| g in a && Counts(g, key) && Merged(a, key).value == EntryFrom(g, n);
      assert g in b;
      var h :| h in b && Counts(h, key) && Merged(b, key).value == EntryFrom(h, n);
      assert h in a;
      assert g.maxId.value == h.maxId.value;
      assert g.maxId == h.maxId;
    }
  }

  // ---- Merging: the loop -------------------------------------------------------------

  function SumCounts(keys: seq<string>, groups: seq<Group>): int {
    if keys == [] then 0 else SumCounts(keys[..|keys| - 1], groups) + CountOf(groups, keys[|keys| - 1])
  }

  function WithWallet(groups: seq<Group>): int {
    if groups == [] then 0
    else WithWallet(groups[..|groups| - 1]) + (if groups[|groups| - 1].maxId.Some? then 1 else 0)
  }

  lemma {:induction false} KeysAreMerged(groups: seq<Group>, key: string)
    ensures key in KeysOf(groups) <==> Merged(groups, key).Some?
  {
    if groups != [] {
      KeysAreMerged(groups[..|groups| - 1], key);
    }
  }

  lemma {:induction false} KeysDoNotRepeat(groups: seq<Group>)
    ensures NoRepeats(KeysOf(groups))
  {
    if groups != [] {
      var init, g := groups[..|groups| - 1], groups[|groups| - 1];
      KeysDoNotRepeat(init);
      if g.maxId.Some? && Merged(init, KeyOf(g)).None? {
        KeysAreMerged(init, KeyOf(g));
        NoRepeatsAppend(KeysOf(init), KeyOf(g));
      }
    }
  }

  /** One more group adds one to the sum if its key is listed, and it is listed once. */
  lemma {:induction false} OneMoreGroup(keys: seq<string>, groups: seq<Group>, init: seq<Group>, g: Group)
    requires NoRepeats(keys) && groups != [] && init == groups[..|groups| - 1] && g == groups[|groups| - 1]
    ensures SumCounts(keys, groups) == SumCounts(keys, init) + (if g.maxId.Some? && KeyOf(g) in keys then 1 else 0)
  {
    if keys != [] {
      InInit(keys, KeyOf(g));
      LastIsNew(keys);
      OneMoreGroup(keys[..|keys| - 1], groups, init, g);
    }
  }

  /** Over the identities listed, the group counts add up to the groups that have a wallet. */
  lemma {:induction false} CountsAddUp(groups: seq<Group>)
    ensures SumCounts(KeysOf(groups), groups) == WithWallet(groups)
  {
    if groups != [] {
      var init, g := groups[..|groups| - 1], groups[|groups| - 1];
      CountsAddUp(init);
      KeysDoNotRepeat(groups);
      KeysDoNotRepeat(init);
      KeysAreMerged(init, KeyOf(g));
      OneMoreGroup(KeysOf(init), groups, init, g);
      if KeysOf(groups) != KeysOf(init) {
        assert KeysOf(groups)[..|KeysOf(groups)| - 1] == KeysOf(init);
        MergedSpeaks(init, KeyOf(g));
      }
    }
  }

  /**
   * The merge loop: one entry per key, inserted where the key first appears and then
   * updated in place.
   */
  method Merge(groups: seq<Group>) returns (keys: seq<string>, merged: map<string, Entry>)
    ensures keys == KeysOf(groups)
    ensures forall k :: k in merged <==> Merged(groups, k).Some?
    ensures forall k :: k in merged ==> Merged(groups, k) == Some(merged[k])
  {
    keys, merged := [], map[];
    for i := 0 to |groups|
      invariant keys == KeysOf(groups[..i])
      invariant forall k :: k in merged <==> Merged(groups[..i], k).Some?
      invariant forall k :: k in merged ==> Merged(groups[..i], k) == Some(merged[k])
    {
      var g := groups[i];
      assert groups[..i + 1][..i] == groups[..i];
      if g.maxId.Some? {
        var id := g.maxId.value;
        var key := KeyOf(g);
        if key !in merged {
          var e := Entry(id, g.address, g.chain, g.currency, g.network, g.env, 1);
          keys := keys + [key];
          merged := merged[key := e];
        } else {
          var e := merged[key].(rowCount := merged[key].rowCount + 1);
          if id > e.id {
            e := e.(id := id, address := g.address, chain := g.chain, currency := g.currency, network := g.network,
              env := g.env);
          }
          merged := merged[key := e];
        }
      }
    }
    assert groups[..|groups|] == groups;
  }
}
