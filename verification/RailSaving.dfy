// Saving a list of deposit rails and picking the default pair beside it: what is accepted,
// what is stored, and what is listed afterwards.

module RailSaving {
  import opened Chains
  import opened Lists
  import opened RailListing
  import opened Rails
  import opened Text

  datatype SaveError = NotAnArray | NoRail | InvalidRail | RailChainDisabled | RailChainNotDefault

  /** The trimmed, non-blank items, in order. */
  function Cleaned(raw: seq<string>): seq<string> {
    if raw == [] then []
    else Cleaned(raw[..|raw| - 1]) + (if Blank(raw[|raw| - 1]) then [] else [Trim(raw[|raw| - 1])])
  }

  function Trc20Items(list: seq<string>): seq<string> {
    if list == [] then []
    else
      Trc20Items(list[..|list| - 1]) +
      (if ParseKey(list[|list| - 1]) == Pair("USDT", "TRC20") then [list[|list| - 1]] else [])
  }

  /** The items to check: with TRON-only on (and not ignored) the TRC20 ones, or the TRC20 key itself. */
  function Items(cfg: Config, raw: seq<string>, ignoreTronOnly: bool): seq<string> {
    var list := Cleaned(raw);
    if cfg.tronOnly && !ignoreTronOnly then
      var only := Trc20Items(list);
      if only == [] then ["USDT|TRC20"] else only
    else list
  }

  function CheckItem(cfg: Config, chains: seq<Chain>, item: string): Result<string, SaveError> {
    match ResolveKey(item)
    case None => Err(InvalidRail)
    case Some(rail) =>
      if !cfg.Live(rail.chain) then Err(RailChainDisabled)
      else if rail.chain !in chains then Err(RailChainNotDefault)
      else Ok(KeyOf(rail))
  }

  /** The keys of the items without repeats, or the first item's error. */
  function Collect(cfg: Config, chains: seq<Chain>, list: seq<string>): Result<seq<string>, SaveError> {
    if list == [] then Ok([])
    else
      match Collect(cfg, chains, list[..|list| - 1])
      case Err(e) => Err(e)
      case Ok(keys) =>
        match CheckItem(cfg, chains, list[|list| - 1])
        case Err(e) => Err(e)
        case Ok(k) => Ok(if k in keys then keys else keys + [k])
  }

  /** raw is None when the payload is not an array. */
  function ParseInput(
      cfg: Config, raw: Option<seq<string>>, chains: seq<Chain>, ignoreTronOnly: bool): Result<seq<string>, SaveError> {
    match raw
    case None => Err(NotAnArray)
    case Some(list) => if list == [] then Err(NoRail) else Collect(cfg, chains, Items(cfg, list, ignoreTronOnly))
  }

  method CollectKeys(cfg: Config, chains: seq<Chain>, list: seq<string>) returns (r: Result<seq<string>, SaveError>)
    ensures r == Collect(cfg, chains, list)
  {
    var keys := [];
    var seen: set<string> := {};
    for i := 0 to |list|
      invariant Collect(cfg, chains, list[..i]) == Ok(keys)
      invariant forall k :: k in seen <==> k in keys
    {
      assert list[..i + 1][..i] == list[..i];
      var rail := ResolveKey(list[i]);
      if rail.None? {
        ErrorSticks(cfg, chains, list, i + 1);
        return Err(InvalidRail);
      }
      if !cfg.Live(rail.value.chain) {
        ErrorSticks(cfg, chains, list, i + 1);
        return Err(RailChainDisabled);
      }
      if rail.value.chain !in chains {
        ErrorSticks(cfg, chains, list, i + 1);
        return Err(RailChainNotDefault);
      }
      var k := KeyOf(rail.value);
      if k !in seen {
        seen := seen + {k};
        keys := keys + [k];
      }
    }
    assert list[..|list|] == list;
    r := Ok(keys);
  }

  lemma {:induction false} ErrorSticks(cfg: Config, chains: seq<Chain>, list: seq<string>, n: nat)
    requires n <= |list| && Collect(cfg, chains, list[..n]).Err?
    ensures Collect(cfg, chains, list) == Collect(cfg, chains, list[..n])
    decreases |list|
  {
    if n < |list| {
      assert list[..|list| - 1][..n] == list[..n];
      ErrorSticks(cfg, chains, list[..|list| - 1], n);
    } else {
      assert list[..n] == list;
    }
  }

  method ParseSupportedRails(cfg: Config, raw: Option<seq<string>>, chains: seq<Chain>, ignoreTronOnly: bool)
      returns (r: Result<seq<string>, SaveError>)
    ensures r == ParseInput(cfg, raw, chains, ignoreTronOnly)
  {
    if raw.None? {
      return Err(NotAnArray);
    }
    if |raw.value| == 0 {
      return Err(NoRail);
    }
    r := CollectKeys(cfg, chains, Items(cfg, raw.value, ignoreTronOnly));
  }

  /** A key a save may store: the canonical key of a live rail on a default chain. */
  ghost predicate Saveable(cfg: Config, chains: seq<Chain>, key: string) {
    exists rail :: rail in GATEWAY_RAILS && KeyOf(rail) == key && cfg.Live(rail.chain) && rail.chain in chains
  }

  /** A save keeps each named rail once, as its canonical key, and refuses the list if any item is bad. */
  lemma {:induction false} CollectMeans(cfg: Config, chains: seq<Chain>, list: seq<string>)
    ensures Collect(cfg, chains, list).Ok? <==> forall x :: x in list ==> CheckItem(cfg, chains, x).Ok?
    ensures Collect(cfg, chains, list).Ok? ==>
      && NoRepeats(Collect(cfg, chains, list).value)
      && (forall k :: k in Collect(cfg, chains, list).value <==>
        exists x :: x in list && CheckItem(cfg, chains, x) == Ok(k))
  {
    if list != [] {
      var init, last := list[..|list| - 1], list[|list| - 1];
      CollectMeans(cfg, chains, init);
      forall x ensures x in list <==> x in init || x == last {
        InInit(list, x);
      }
      CollectStep(cfg, chains, list, init, last);
    }
  }

  lemma CollectStep(cfg: Config, chains: seq<Chain>, list: seq<string>, init: seq<string>, last: string)
    requires list != [] && init == list[..|list| - 1] && last == list[|list| - 1]
    requires forall x :: x in list <==> x in init || x == last
    requires Collect(cfg, chains, init).Ok? <==> forall x :: x in init ==> CheckItem(cfg, chains, x).Ok?
    requires Collect(cfg, chains, init).Ok? ==>
      && NoRepeats(Collect(cfg, chains, init).value)
      && (forall k :: k in Collect(cfg, chains, init).value <==>
        exists x :: x in init && CheckItem(cfg, chains, x) == Ok(k))
    ensures Collect(cfg, chains, list).Ok? <==> forall x :: x in list ==> CheckItem(cfg, chains, x).Ok?
    ensures Collect(cfg, chains, list).Ok? ==>
      && NoRepeats(Collect(cfg, chains, list).value)
      && (forall k :: k in Collect(cfg, chains, list).value <==>
        exists x :: x in list && CheckItem(cfg, chains, x) == Ok(k))
  {
    assert last in list;
    if Collect(cfg, chains, list).Ok? {
      var keys, k := Collect(cfg, chains, init).value, CheckItem(cfg, chains, last).value;
      if k !in keys {
        NoRepeatsAppend(keys, k);
      }
      assert Collect(cfg, chains, list).value == if k in keys then keys else keys + [k];
    }
  }

  lemma CheckedIsSaveable(cfg: Config, chains: seq<Chain>, item: string)
    requires CheckItem(cfg, chains, item).Ok?
    ensures Saveable(cfg, chains, CheckItem(cfg, chains, item).value)
  {
    ResolvedIsGateway(item);
  }

  lemma CollectedSaveable(cfg: Config, chains: seq<Chain>, list: seq<string>, key: string)
    requires Collect(cfg, chains, list).Ok? && key in Collect(cfg, chains, list).value
    ensures Saveable(cfg, chains, key)
  {
    CollectMeans(cfg, chains, list);
    var x :| x in list && CheckItem(cfg, chains, x) == Ok(key);
    CheckedIsSaveable(cfg, chains, x);
  }

  lemma SaveableRail(cfg: Config, chains: seq<Chain>, key: string) returns (rail: Rail)
    requires Saveable(cfg, chains, key)
    ensures rail in GATEWAY_RAILS && KeyOf(rail) == key && cfg.Live(rail.chain) && rail.chain in chains
    ensures ResolveKey(key) == Some(rail)
    ensures CheckItem(cfg, chains, key) == Ok(key)
  {
    rail :| rail in GATEWAY_RAILS && KeyOf(rail) == key && cfg.Live(rail.chain) && rail.chain in chains;
    RailKeyResolves(rail);
  }

  lemma CollectOne(cfg: Config, chains: seq<Chain>, init: seq<string>, last: string)
    requires last !in init && Collect(cfg, chains, init) == Ok(init) && CheckItem(cfg, chains, last) == Ok(last)
    ensures Collect(cfg, chains, init + [last]) == Ok(init + [last])
  {
    assert (init + [last])[..|init|] == init;
  }

  /** Saving again what was saved keeps it, order included. */
  lemma {:induction false} CollectIdempotent(cfg: Config, chains: seq<Chain>, keys: seq<string>)
    requires NoRepeats(keys) && forall k :: k in keys ==> Saveable(cfg, chains, k)
    ensures Collect(cfg, chains, keys) == Ok(keys)
  {
    if keys != [] {
      var init, last := keys[..|keys| - 1], keys[|keys| - 1];
      LastIsNew(keys);
      forall k | k in init ensures Saveable(cfg, chains, k) {
        InInit(keys, k);
      }
      CollectIdempotent(cfg, chains, init);
      assert last in keys;
      var _ := SaveableRail(cfg, chains, last);
      CollectOne(cfg, chains, init, last);
      assert keys == init + [last];
    }
  }

  lemma {:induction false} CleanedEmptyIff(raw: seq<string>)
    ensures Cleaned(raw) == [] <==> forall x :: x in raw ==> Blank(x)
  {
    if raw != [] {
      CleanedEmptyIff(raw[..|raw| - 1]);
      forall x ensures x in raw <==> x in raw[..|raw| - 1] || x == raw[|raw| - 1] {
        InInit(raw, x);
      }
      assert raw[|raw| - 1] in raw;
    }
  }

  lemma CollectEmptyIff(cfg: Config, chains: seq<Chain>, list: seq<string>)
    requires Collect(cfg, chains, list).Ok?
    ensures Collect(cfg, chains, list).value == [] <==> list == []
  {
    if list != [] {
      CollectMeans(cfg, chains, list);
      var x := list[0];
      assert x in list;
      assert CheckItem(cfg, chains, x).value in Collect(cfg, chains, list).value;
    }
  }

  /** An array of blanks is accepted and stores no rail at all, although an empty array is refused. */
  lemma SavesNothingIff(cfg: Config, raw: seq<string>, chains: seq<Chain>, ignoreTronOnly: bool)
    requires ParseInput(cfg, Some(raw), chains, ignoreTronOnly).Ok?
    ensures ParseInput(cfg, Some(raw), chains, ignoreTronOnly).value == []
       <==> !(cfg.tronOnly && !ignoreTronOnly) && forall x :: x in raw ==> Blank(x)
  {
    CleanedEmptyIff(raw);
    CollectEmptyIff(cfg, chains, Items(cfg, raw, ignoreTronOnly));
  }

  /** The item names the rail, whatever its case, white space and further parts. */
  predicate NamesRail(item: string, rail: Rail) {
    ParseKey(item) == Pair(rail.currency, rail.network)
  }

  lemma ItemResolves(item: string, rail: Rail)
    requires rail in GATEWAY_RAILS
    ensures ResolveKey(item) == Some(rail) <==> NamesRail(item, rail)
  {
    var p := ParseKey(item);
    NormalizeIdempotent(UntilBar(item));
    NormalizeIdempotent(UntilBar(AfterBar(item)));
    ResolveNamed(p.currency, p.network, rail);
  }

  lemma KeyTrimmed(item: string)
    ensures ParseKey(Trim(item)) == ParseKey(item)
  {
    var before, after := TrimParts(item);
    assert '|' !in before && '|' !in after;
    if '|' in Trim(item) {
      KeyAround(before, Trim(item), after);
    } else {
      UntilBarWhole(item);
      UntilBarWhole(Trim(item));
      NothingAfterBar(item);
      NothingAfterBar(Trim(item));
      TrimIdempotent(item);
    }
  }

  /** White space around a key with a bar ends up around its two parts. */
  lemma KeyAround(before: string, s: string, after: string)
    requires AllSpace(before) && AllSpace(after) && '|' !in before && '|' !in after && '|' in s
    ensures ParseKey(before + s + after) == ParseKey(s)
  {
    var a, b := UntilBar(s), AfterBar(s);
    BarParts(s);
    SplitAtBar(before + a, b + after);
    assert before + s + after == (before + a) + "|" + (b + after);
    TrimAround(before, a, "");
    assert before + a + "" == before + a;
    EndAround(b, after);
  }

  lemma EndAround(b: string, after: string)
    requires AllSpace(after) && '|' !in after
    ensures NormalizePart(UntilBar(b + after)) == NormalizePart(UntilBar(b))
  {
    if '|' in b {
      BarStays(b, after);
    } else {
      UntilBarWhole(b);
      UntilBarWhole(b + after);
      TrimAfter(b, after);
    }
  }

  lemma BarStays(b: string, after: string)
    requires '|' in b
    ensures UntilBar(b + after) == UntilBar(b)
  {
    BarParts(b);
    SplitAtBar(UntilBar(b), AfterBar(b) + after);
    assert b + after == UntilBar(b) + "|" + (AfterBar(b) + after);
  }

  lemma TrimAfter(b: string, after: string)
    requires AllSpace(after)
    ensures Trim(b + after) == Trim(b)
  {
    TrimAround("", b, after);
    assert "" + b + after == b + after;
  }

  lemma {:induction false} BarParts(s: string)
    requires '|' in s
    ensures s == UntilBar(s) + "|" + AfterBar(s) && '|' !in UntilBar(s)
  {
    UntilBarWhole(s);
    if s[0] != '|' {
      assert s == [s[0]] + s[1..];
      BarParts(s[1..]);
    }
  }

  lemma TrimAround(before: string, s: string, after: string)
    requires AllSpace(before) && AllSpace(after)
    ensures Trim(before + s + after) == Trim(s)
  {
    var a, b := TrimParts(s);
    TrimIs(before + a, Trim(s), b + after);
    assert before + s + after == (before + a) + Trim(s) + (b + after);
  }

  lemma {:induction false} CleanedMembers(raw: seq<string>, item: string)
    ensures item in Cleaned(raw) <==> item != "" && exists x :: x in raw && Trim(x) == item
  {
    if raw != [] {
      var init, last := raw[..|raw| - 1], raw[|raw| - 1];
      CleanedMembers(init, item);
      forall x ensures x in raw <==> x in init || x == last {
        InInit(raw, x);
      }
      assert last in raw;
    }
  }

  /** What an item that is not blank has to be. */
  ghost predicate GoodItem(cfg: Config, chains: seq<Chain>, x: string) {
    || (NamesRail(x, TRC20) && !SwitchedOff(cfg, TRON) && TRON in chains)
    || (NamesRail(x, ERC20) && !SwitchedOff(cfg, ETH) && ETH in chains)
  }

  lemma CheckOfRail(cfg: Config, chains: seq<Chain>, x: string, rail: Rail)
    requires rail in GATEWAY_RAILS
    ensures CheckItem(cfg, chains, Trim(x)) == Ok(KeyOf(rail)) <==>
            NamesRail(x, rail) && !SwitchedOff(cfg, rail.chain) && rail.chain in chains
  {
    KeyTrimmed(x);
    ItemResolves(Trim(x), rail);
    ResolvedIsGateway(Trim(x));
    if ResolveKey(Trim(x)).Some? && KeyOf(ResolveKey(Trim(x)).value) == KeyOf(rail) {
      SameKeySameRail(ResolveKey(Trim(x)).value, rail);
    }
  }

  lemma CheckItemIs(cfg: Config, chains: seq<Chain>, x: string)
    ensures CheckItem(cfg, chains, Trim(x)).Ok? <==> GoodItem(cfg, chains, x)
  {
    CheckOfRail(cfg, chains, x, TRC20);
    CheckOfRail(cfg, chains, x, ERC20);
    if CheckItem(cfg, chains, Trim(x)).Ok? {
      CheckedIsSaveable(cfg, chains, Trim(x));
    }
  }

  lemma AllGood(cfg: Config, chains: seq<Chain>, raw: seq<string>)
    ensures (forall item :: item in Cleaned(raw) ==> CheckItem(cfg, chains, item).Ok?) <==>
            forall x :: x in raw && Trim(x) != "" ==> GoodItem(cfg, chains, x)
  {
    if forall item :: item in Cleaned(raw) ==> CheckItem(cfg, chains, item).Ok? {
      forall x | x in raw && Trim(x) != "" ensures GoodItem(cfg, chains, x) {
        CleanedMembers(raw, Trim(x));
        CheckItemIs(cfg, chains, x);
      }
    } else {
      var item :| item in Cleaned(raw) && CheckItem(cfg, chains, item).Err?;
      CleanedMembers(raw, item);
      var x :| x in raw && Trim(x) == item;
      CheckItemIs(cfg, chains, x);
    }
  }

  lemma CheckedKey(cfg: Config, chains: seq<Chain>, x: string, rail: Rail)
    requires rail in GATEWAY_RAILS
    ensures CheckItem(cfg, chains, Trim(x)) == Ok(KeyOf(rail)) <==> GoodItem(cfg, chains, x) && NamesRail(x, rail)
  {
    CheckItemIs(cfg, chains, x);
    CheckOfRail(cfg, chains, x, rail);
    NamesOneRail(x);
  }

  lemma NamesOneRail(x: string)
    ensures !(NamesRail(x, TRC20) && NamesRail(x, ERC20))
  {
    assert TRC20.network[0] != ERC20.network[0];
  }

  lemma SavedKeyIff(cfg: Config, chains: seq<Chain>, raw: seq<string>, rail: Rail)
    requires rail in GATEWAY_RAILS && Collect(cfg, chains, Cleaned(raw)).Ok?
    ensures KeyOf(rail) in Collect(cfg, chains, Cleaned(raw)).value <==>
            exists x :: x in raw && Trim(x) != "" && NamesRail(x, rail)
  {
    CollectMeans(cfg, chains, Cleaned(raw));
    AllGood(cfg, chains, raw);
    if KeyOf(rail) in Collect(cfg, chains, Cleaned(raw)).value {
      var item :| item in Cleaned(raw) && CheckItem(cfg, chains, item) == Ok(KeyOf(rail));
      CleanedMembers(raw, item);
      var x :| x in raw && Trim(x) == item;
      CheckedKey(cfg, chains, x, rail);
    }
    if x :| x in raw && Trim(x) != "" && NamesRail(x, rail) {
      CleanedMembers(raw, Trim(x));
      CheckedKey(cfg, chains, x, rail);
    }
  }

  /** An item that is not blank names the rail. */
  ghost predicate Named(raw: seq<string>, rail: Rail) {
    exists x :: x in raw && Trim(x) != "" && NamesRail(x, rail)
  }

  lemma CollectedKeys(cfg: Config, chains: seq<Chain>, raw: seq<string>)
    requires Collect(cfg, chains, Cleaned(raw)).Ok?
    ensures var keys := Collect(cfg, chains, Cleaned(raw)).value;
      && NoRepeats(keys) && (forall k :: k in keys ==> k == KeyOf(TRC20) || k == KeyOf(ERC20))
      && (KeyOf(TRC20) in keys <==> Named(raw, TRC20)) && (KeyOf(ERC20) in keys <==> Named(raw, ERC20))
  {
    CollectMeans(cfg, chains, Cleaned(raw));
    SavedKeyIff(cfg, chains, raw, TRC20);
    SavedKeyIff(cfg, chains, raw, ERC20);
    OnlyRailKeys(cfg, chains, Cleaned(raw));
  }

  lemma OnlyRailKeys(cfg: Config, chains: seq<Chain>, list: seq<string>)
    requires Collect(cfg, chains, list).Ok?
    ensures forall k :: k in Collect(cfg, chains, list).value ==> k == KeyOf(TRC20) || k == KeyOf(ERC20)
  {
    forall k | k in Collect(cfg, chains, list).value ensures k == KeyOf(TRC20) || k == KeyOf(ERC20) {
      CollectedSaveable(cfg, chains, list, k);
      var rail := SaveableRail(cfg, chains, k);
    }
  }

  lemma ParsedIsCollected(cfg: Config, raw: seq<string>, chains: seq<Chain>, ignoreTronOnly: bool)
    requires raw != [] && (!cfg.tronOnly || ignoreTronOnly)
    ensures ParseInput(cfg, Some(raw), chains, ignoreTronOnly) == Collect(cfg, chains, Cleaned(raw))
  {}

  /**
   * With TRON-only off or ignored, a list is saved exactly if it has an item and every item
   * that is not blank names a live rail on a default chain. What is saved are the keys of
   * the rails named, each once.
   */
  lemma SaveMeans(cfg: Config, raw: seq<string>, chains: seq<Chain>, ignoreTronOnly: bool)
    requires !cfg.tronOnly || ignoreTronOnly
    ensures var r := ParseInput(cfg, Some(raw), chains, ignoreTronOnly);
      && (r.Ok? <==> raw != [] && forall x :: x in raw && Trim(x) != "" ==> GoodItem(cfg, chains, x))
      && (r.Ok? ==>
            && NoRepeats(r.value) && (forall k :: k in r.value ==> k == "USDT|TRC20" || k == "USDT|ERC20")
            && ("USDT|TRC20" in r.value <==> Named(raw, Rail("USDT", "TRC20", TRON)))
            && ("USDT|ERC20" in r.value <==> Named(raw, Rail("USDT", "ERC20", ETH))))
  {
    KeyTexts();
    if raw != [] {
      ParsedIsCollected(cfg, raw, chains, ignoreTronOnly);
      CollectMeans(cfg, chains, Cleaned(raw));
      AllGood(cfg, chains, raw);
      if Collect(cfg, chains, Cleaned(raw)).Ok? {
        CollectedKeys(cfg, chains, raw);
      }
    }
  }

  lemma {:induction false} CleanedPrefix(raw: seq<string>, n: nat)
    requires n <= |raw|
    ensures Cleaned(raw[..n]) <= Cleaned(raw)
  {
    if n < |raw| {
      CleanedPrefix(raw[..|raw| - 1], n);
      assert raw[..|raw| - 1][..n] == raw[..n];
    } else {
      assert raw[..n] == raw;
    }
  }

  lemma {:induction false} CollectPrefix(cfg: Config, chains: seq<Chain>, list: seq<string>, n: nat)
    requires n <= |list| && Collect(cfg, chains, list).Ok?
    ensures Collect(cfg, chains, list[..n]).Ok?
    ensures Collect(cfg, chains, list[..n]).value <= Collect(cfg, chains, list).value
  {
    if n < |list| {
      CollectPrefix(cfg, chains, list[..|list| - 1], n);
      assert list[..|list| - 1][..n] == list[..n];
    } else {
      assert list[..n] == list;
    }
  }

  /** Rails are saved in the order they are first named in: the items up to any one give the first keys. */
  lemma SaveKeepsOrder(cfg: Config, raw: seq<string>, chains: seq<Chain>, ignoreTronOnly: bool, n: nat)
    requires !cfg.tronOnly || ignoreTronOnly
    requires 0 < n <= |raw| && ParseInput(cfg, Some(raw), chains, ignoreTronOnly).Ok?
    ensures ParseInput(cfg, Some(raw[..n]), chains, ignoreTronOnly).Ok?
    ensures ParseInput(cfg, Some(raw[..n]), chains, ignoreTronOnly).value
         <= ParseInput(cfg, Some(raw), chains, ignoreTronOnly).value
  {
    ParsedIsCollected(cfg, raw, chains, ignoreTronOnly);
    ParsedIsCollected(cfg, raw[..n], chains, ignoreTronOnly);
    CleanedPrefix(raw, n);
    CollectedFromPrefix(cfg, chains, Cleaned(raw[..n]), Cleaned(raw));
  }

  lemma CollectedFromPrefix(cfg: Config, chains: seq<Chain>, prefix: seq<string>, list: seq<string>)
    requires prefix <= list && Collect(cfg, chains, list).Ok?
    ensures Collect(cfg, chains, prefix).Ok? && Collect(cfg, chains, prefix).value <= Collect(cfg, chains, list).value
  {
    assert list[..|prefix|] == prefix;
    CollectPrefix(cfg, chains, list, |prefix|);
  }

  lemma {:induction false} Trc20ItemsMembers(list: seq<string>, item: string)
    ensures item in Trc20Items(list) <==> item in list && NamesRail(item, TRC20)
  {
    if list != [] {
      Trc20ItemsMembers(list[..|list| - 1], item);
      InInit(list, item);
    }
  }

  lemma {:induction false} CollectAlike(
      cfg: Config, chains: seq<Chain>, list: seq<string>, r: Result<string, SaveError>)
    requires list != [] && forall x :: x in list ==> CheckItem(cfg, chains, x) == r
    ensures Collect(cfg, chains, list) == if r.Ok? then Ok([r.value]) else Err(r.error)
  {
    var init := list[..|list| - 1];
    assert list[|list| - 1] in list;
    if r.Ok? {
      assert [] + [r.value] == [r.value];
    }
    if init != [] {
      forall x | x in init ensures CheckItem(cfg, chains, x) == r {
        InInit(list, x);
      }
      CollectAlike(cfg, chains, init, r);
    }
  }

  /** What the one item left to check comes to. */
  lemma CheckTrc20(cfg: Config, chains: seq<Chain>, x: string)
    requires ResolveKey(x) == Some(TRC20)
    ensures CheckItem(cfg, chains, x) ==
            if SwitchedOff(cfg, TRON) then Err(RailChainDisabled)
            else if TRON !in chains then Err(RailChainNotDefault)
            else Ok("USDT|TRC20")
  {
    KeyTexts();
  }

  lemma Trc20Left(cfg: Config, raw: seq<string>, x: string)
    requires cfg.tronOnly && x in Items(cfg, raw, false)
    ensures ResolveKey(x) == Some(TRC20)
  {
    KeyTexts();
    RailKeyResolves(TRC20);
    Trc20ItemsMembers(Cleaned(raw), x);
    if NamesRail(x, TRC20) {
      ItemResolves(x, TRC20);
    }
  }

  /** With TRON-only on, not ignored, any list saves the TRC20 key, if TRON is live and a default chain. */
  lemma TronOnlySave(cfg: Config, raw: seq<string>, chains: seq<Chain>)
    requires cfg.tronOnly && raw != []
    ensures ParseInput(cfg, Some(raw), chains, false) ==
            if SwitchedOff(cfg, TRON) then Err(RailChainDisabled)
            else if TRON !in chains then Err(RailChainNotDefault)
            else Ok(["USDT|TRC20"])
  {
    var items := Items(cfg, raw, false);
    var r := CheckItem(cfg, chains, items[0]);
    assert items[0] in items;
    Trc20Left(cfg, raw, items[0]);
    CheckTrc20(cfg, chains, items[0]);
    forall x | x in items ensures CheckItem(cfg, chains, x) == r {
      Trc20Left(cfg, raw, x);
      CheckTrc20(cfg, chains, x);
    }
    CollectAlike(cfg, chains, items, r);
  }

  // ---- After a save ------------------------------------------------------------------

  function KeysOfPairs(pairs: seq<Rail>): seq<string> {
    if pairs == [] then [] else KeysOfPairs(pairs[..|pairs| - 1]) + [KeyOf(pairs[|pairs| - 1])]
  }

  lemma {:induction false} KeysMembers(pairs: seq<Rail>, r: Rail)
    requires r in pairs
    ensures KeyOf(r) in KeysOfPairs(pairs)
  {
    InInit(pairs, r);
    if r != pairs[|pairs| - 1] {
      KeysMembers(pairs[..|pairs| - 1], r);
    }
  }

  lemma {:induction false} AllLive(cfg: Config, pairs: seq<Rail>)
    requires forall r :: r in pairs ==> cfg.Live(r.chain)
    ensures LivePairs(cfg, pairs) == pairs
  {
    if pairs != [] {
      forall r | r in pairs[..|pairs| - 1] ensures cfg.Live(r.chain) {
        InInit(pairs, r);
      }
      AllLive(cfg, pairs[..|pairs| - 1]);
      assert pairs[|pairs| - 1] in pairs;
      assert pairs == pairs[..|pairs| - 1] + [pairs[|pairs| - 1]];
    }
  }

  lemma KeysAppend(pairs: seq<Rail>, rail: Rail)
    ensures KeysOfPairs(pairs + [rail]) == KeysOfPairs(pairs) + [KeyOf(rail)]
  {
    assert (pairs + [rail])[..|pairs|] == pairs;
  }

  lemma StoredAppend(cfg: Config, m: Merchant, init: seq<string>, last: string, rail: Rail)
    requires ResolveKey(last) == Some(rail) && AllowsRail(cfg, m, rail) && rail !in StoredPairs(cfg, m, init)
    ensures StoredPairs(cfg, m, init + [last]) == StoredPairs(cfg, m, init) + [rail]
  {
    assert (init + [last])[..|init|] == init;
  }

  lemma StoredOne(cfg: Config, m: Merchant, init: seq<string>, last: string, rail: Rail)
    requires ResolveKey(last) == Some(rail) && KeyOf(rail) == last && AllowsRail(cfg, m, rail)
    requires KeysOfPairs(StoredPairs(cfg, m, init)) == init && last !in init
    ensures StoredPairs(cfg, m, init + [last]) == StoredPairs(cfg, m, init) + [rail]
    ensures KeysOfPairs(StoredPairs(cfg, m, init + [last])) == init + [last]
  {
    var prev := StoredPairs(cfg, m, init);
    if rail in prev {
      KeysMembers(prev, rail);
    }
    StoredAppend(cfg, m, init, last, rail);
    KeysAppend(prev, rail);
  }

  lemma StoredAreLive(cfg: Config, m: Merchant, keys: seq<string>)
    requires forall k :: k in keys ==> Saveable(cfg, m.chains, k)
    ensures forall r :: r in StoredPairs(cfg, m, keys) ==> cfg.Live(r.chain)
  {
    forall r | r in StoredPairs(cfg, m, keys) ensures cfg.Live(r.chain) {
      StoredMembers(cfg, m, keys, r);
      var k :| k in keys && ResolveKey(k) == Some(r);
      var rail := SaveableRail(cfg, m.chains, k);
    }
  }

  lemma StoredKey(cfg: Config, m: Merchant, init: seq<string>, last: string)
    requires !cfg.tronOnly && last in m.rails && Saveable(cfg, m.chains, last)
    requires KeysOfPairs(StoredPairs(cfg, m, init)) == init && last !in init
    ensures KeysOfPairs(StoredPairs(cfg, m, init + [last])) == init + [last]
  {
    var rail := SaveableRail(cfg, m.chains, last);
    StoredOne(cfg, m, init, last, rail);
  }

  lemma {:induction false} StoredUpTo(cfg: Config, m: Merchant, keys: seq<string>, n: nat)
    requires !cfg.tronOnly && NoRepeats(keys) && n <= |keys|
    requires forall k :: k in keys ==> k in m.rails && Saveable(cfg, m.chains, k)
    ensures KeysOfPairs(StoredPairs(cfg, m, keys[..n])) == keys[..n]
  {
    if n > 0 {
      StoredUpTo(cfg, m, keys, n - 1);
      NotBefore(keys, n - 1);
      assert keys[n - 1] in keys;
      StoredKey(cfg, m, keys[..n - 1], keys[n - 1]);
      OneMore(keys, n - 1);
    }
  }

  lemma StoredSaveable(cfg: Config, m: Merchant, keys: seq<string>)
    requires !cfg.tronOnly && NoRepeats(keys)
    requires forall k :: k in keys ==> k in m.rails && Saveable(cfg, m.chains, k)
    ensures KeysOfPairs(StoredPairs(cfg, m, keys)) == keys
  {
    StoredUpTo(cfg, m, keys, |keys|);
    assert keys[..|keys|] == keys;
  }

  /**
   * After an accepted save, with TRON-only off and the chain switches unchanged, the
   * merchant is shown the saved keys in their order: exactly when some item was not blank,
   * or the default chains and pair have nothing live to show instead.
   */
  lemma SavedRailsAreListedIff(
    cfg: Config, raw: seq<string>, chains: seq<Chain>, ignoreTronOnly: bool, m: Merchant)
    requires !cfg.tronOnly && ParseInput(cfg, Some(raw), chains, ignoreTronOnly).Ok?
    requires m.rails == ParseInput(cfg, Some(raw), chains, ignoreTronOnly).value && m.chains == chains
    ensures KeysOfPairs(ListedPairs(cfg, m)) == m.rails
       <==> (exists x :: x in raw && !Blank(x)) || NothingElseListed(cfg, m)
  {
    var list := Cleaned(raw);
    SavesNothingIff(cfg, raw, chains, ignoreTronOnly);
    if m.rails != [] {
      CollectMeans(cfg, chains, list);
      forall k | k in m.rails ensures Saveable(cfg, chains, k) {
        CollectedSaveable(cfg, chains, list, k);
      }
      StoredSaveable(cfg, m, m.rails);
      StoredAreLive(cfg, m, m.rails);
      AllLive(cfg, StoredPairs(cfg, m, m.rails));
    } else {
      EmptyListIff(cfg, m);
    }
  }

  /** One blank item is such a save: accepted, while no item at all is refused. */
  lemma BlankSaveIsAccepted(cfg: Config, chains: seq<Chain>)
    ensures ParseInput(cfg, Some([" "]), chains, true) == Ok([])
    ensures ParseInput(cfg, Some([]), chains, true) == Err(NoRail)
  {
    assert forall x :: x in [" "] ==> x == " ";
    assert TrimStart(" ") == "";
    CleanedEmptyIff([" "]);
  }

  // ---- The default pair --------------------------------------------------------------

  datatype PickError = NoDefaultChain | InvalidPair | PairChainDisabled | PairChainNotDefault | PairNotSupported

  function SuggestedPair(chain: Chain): Pair {
    if chain == ETH then Pair("USDT", "ERC20") else Pair("USDT", "TRC20")
  }

  /** constraint is empty when no rails are stored. */
  function PickDefault(cfg: Config, currency: string, network: string, chains: seq<Chain>,
      constraint: seq<string>): Result<Pair, PickError> {
    if chains == [] then Err(NoDefaultChain)
    else
      var fill := if constraint != [] then ParseKey(constraint[0]) else SuggestedPair(chains[0]);
      var c := if NormalizePart(currency) == "" then fill.currency else NormalizePart(currency);
      var n := if NormalizePart(network) == "" then fill.network else NormalizePart(network);
      PickResolved(cfg, ResolveRail(c, n), chains, constraint)
  }

  function PickResolved(cfg: Config, resolved: Option<Rail>, chains: seq<Chain>,
      constraint: seq<string>): Result<Pair, PickError> {
    match resolved
    case None => Err(InvalidPair)
    case Some(rail) =>
      if !cfg.Live(rail.chain) then Err(PairChainDisabled)
      else if rail.chain !in chains then Err(PairChainNotDefault)
      else if constraint != [] && KeyOf(rail) !in constraint then Err(PairNotSupported)
      else Ok(Pair(rail.currency, rail.network))
  }

  lemma PickedIsRail(cfg: Config, currency: string, network: string, chains: seq<Chain>, constraint: seq<string>)
      returns (rail: Rail)
    requires PickDefault(cfg, currency, network, chains, constraint).Ok?
    ensures rail in GATEWAY_RAILS
      && PickDefault(cfg, currency, network, chains, constraint) == Ok(Pair(rail.currency, rail.network))
    ensures cfg.Live(rail.chain) && rail.chain in chains && (constraint != [] ==> KeyOf(rail) in constraint)
  {
    var fill := if constraint != [] then ParseKey(constraint[0]) else SuggestedPair(chains[0]);
    var c := if NormalizePart(currency) == "" then fill.currency else NormalizePart(currency);
    var n := if NormalizePart(network) == "" then fill.network else NormalizePart(network);
    rail := ResolveRail(c, n).value;
    ResolvedInGateway(c, n);
  }

  /** The pair asked for, each part that is blank filled in from the first saved rail, else for the first chain. */
  function AskedFor(currency: string, network: string, chains: seq<Chain>, constraint: seq<string>): Pair
    requires chains != []
  {
    Pair(
      if Trim(currency) != "" then Upper(Trim(currency))
      else if constraint != [] then ParseKey(constraint[0]).currency else "USDT",
      if Trim(network) != "" then Upper(Trim(network))
      else if constraint != [] then ParseKey(constraint[0]).network
      else if chains[0] == ETH then "ERC20" else "TRC20")
  }

  lemma PartFilled(part: string, fill: string)
    ensures (if NormalizePart(part) == "" then fill else NormalizePart(part)) ==
            if Trim(part) == "" then fill else Upper(Trim(part))
  {
    UpperAt(Trim(part));
  }

  lemma FilledIsNormal(part: string, fill: string)
    requires NormalizePart(fill) == fill
    ensures var p := if Trim(part) != "" then Upper(Trim(part)) else fill; NormalizePart(p) == p
  {
    NormalizeIdempotent(part);
  }

  lemma ParsedIsNormal(key: string)
    ensures NormalizePart(ParseKey(key).currency) == ParseKey(key).currency
    ensures NormalizePart(ParseKey(key).network) == ParseKey(key).network
  {
    NormalizeIdempotent(UntilBar(key));
    NormalizeIdempotent(UntilBar(AfterBar(key)));
  }

  lemma AskedIsNormal(currency: string, network: string, chains: seq<Chain>, constraint: seq<string>)
    requires chains != []
    ensures var asked := AskedFor(currency, network, chains, constraint);
            NormalizePart(asked.currency) == asked.currency && NormalizePart(asked.network) == asked.network
  {
    PlainPart("USDT");
    PlainPart("TRC20");
    PlainPart("ERC20");
    var fill := if constraint != [] then ParseKey(constraint[0])
                else Pair("USDT", if chains[0] == ETH then "ERC20" else "TRC20");
    if constraint != [] {
      ParsedIsNormal(constraint[0]);
    }
    FilledIsNormal(currency, fill.currency);
    FilledIsNormal(network, fill.network);
  }

  lemma AskedResolves(currency: string, network: string, chains: seq<Chain>, constraint: seq<string>)
    requires chains != []
    ensures var asked := AskedFor(currency, network, chains, constraint);
            ResolveRail(asked.currency, asked.network) ==
            if asked == Pair("USDT", "TRC20") then Some(TRC20)
            else if asked == Pair("USDT", "ERC20") then Some(ERC20)
            else None
  {
    var asked := AskedFor(currency, network, chains, constraint);
    AskedIsNormal(currency, network, chains, constraint);
    ResolveIs(asked.currency, asked.network);
  }

  lemma PickOfAsked(cfg: Config, currency: string, network: string, chains: seq<Chain>, constraint: seq<string>)
    requires chains != []
    ensures var asked := AskedFor(currency, network, chains, constraint);
            PickDefault(cfg, currency, network, chains, constraint) ==
            PickResolved(cfg, ResolveRail(asked.currency, asked.network), chains, constraint)
  {
    var fill := if constraint != [] then ParseKey(constraint[0]) else SuggestedPair(chains[0]);
    PartFilled(currency, fill.currency);
    PartFilled(network, fill.network);
  }

  /** A rail of the gateway, with its pair and key spelled out: picked, unless something stands in the way. */
  predicate PickedOr(r: Result<Pair, PickError>, cfg: Config, rail: Rail, key: string, chains: seq<Chain>,
      constraint: seq<string>) {
    if SwitchedOff(cfg, rail.chain) then r == Err(PairChainDisabled)
    else if rail.chain !in chains then r == Err(PairChainNotDefault)
    else if constraint != [] && key !in constraint then r == Err(PairNotSupported)
    else r == Ok(Pair(rail.currency, rail.network))
  }

  lemma PickOfRail(cfg: Config, chains: seq<Chain>, constraint: seq<string>)
    ensures PickedOr(PickResolved(cfg, Some(TRC20), chains, constraint), cfg, TRC20, "USDT|TRC20", chains, constraint)
    ensures PickedOr(PickResolved(cfg, Some(ERC20), chains, constraint), cfg, ERC20, "USDT|ERC20", chains, constraint)
  {
    KeyTexts();
  }

  /** That pair is picked if it is one of the two, its chain live and a default one, its key among any saved. */
  lemma PickDefaultIs(cfg: Config, currency: string, network: string, chains: seq<Chain>, constraint: seq<string>)
    ensures var r := PickDefault(cfg, currency, network, chains, constraint);
      if chains == [] then r == Err(NoDefaultChain)
      else
        var asked := AskedFor(currency, network, chains, constraint);
        if asked == Pair("USDT", "TRC20") then
          PickedOr(r, cfg, Rail("USDT", "TRC20", TRON), "USDT|TRC20", chains, constraint)
        else if asked == Pair("USDT", "ERC20") then
          PickedOr(r, cfg, Rail("USDT", "ERC20", ETH), "USDT|ERC20", chains, constraint)
        else r == Err(InvalidPair)
  {
    if chains != [] {
      PickOfAsked(cfg, currency, network, chains, constraint);
      AskedResolves(currency, network, chains, constraint);
      PickOfRail(cfg, chains, constraint);
    }
  }

  /**
   * The pair picked beside a save is accepted for deposits exactly if TRON-only is off or
   * it is USDT/TRC20, and then it is one of the pairs listed.
   */
  lemma PickedPairWorksIff(cfg: Config, currency: string, network: string, m: Merchant)
    requires PickDefault(cfg, currency, network, m.chains, m.rails).Ok?
    ensures var p := PickDefault(cfg, currency, network, m.chains, m.rails).value;
      && (DepositCheck(cfg, m, p.currency, p.network).Ok? <==> !cfg.tronOnly || p == Pair("USDT", "TRC20"))
      && (DepositCheck(cfg, m, p.currency, p.network).Ok? ==>
            DepositCheck(cfg, m, p.currency, p.network).value in ListedPairs(cfg, m))
  {
    var rail := PickedIsRail(cfg, currency, network, m.chains, m.rails);
    RailKeyResolves(rail);
    assert rail == TRC20 <==> rail.network == "TRC20" by {
      assert "TRC20"[0] != "ERC20"[0];
    }
    assert ChainsCoverARail(m);
    ListedMembers(cfg, m, rail);
  }

  /** With nothing requested, the first saved rail becomes the default pair. */
  lemma PickDefaultsToFirst(cfg: Config, currency: string, network: string, chains: seq<Chain>, keys: seq<string>)
    requires Blank(currency) && Blank(network) && keys != [] && forall k :: k in keys ==> Saveable(cfg, chains, k)
    ensures PickDefault(cfg, currency, network, chains, keys) == Ok(ParseKey(keys[0]))
  {
    assert keys[0] in keys;
    var rail := SaveableRail(cfg, chains, keys[0]);
    RailParts(rail);
    PartsRoundTripIff(rail.currency, rail.network);
  }
}
