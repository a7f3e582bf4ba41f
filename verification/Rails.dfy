// Payment rails: which currency/network pairs a merchant is shown, which ones the
// deposit-address call accepts, and what saving a list of rails does to both.

module Rails {
  import opened Chains
  import opened Text

  datatype Rail = Rail(currency: string, network: string, chain: Chain)

  datatype Pair = Pair(currency: string, network: string)

  const TRC20 := Rail("USDT", "TRC20", TRON)
  const ERC20 := Rail("USDT", "ERC20", ETH)

  const GATEWAY_RAILS: seq<Rail> := [TRC20, ERC20]

  /** The scanner-state table read in key order: ETH, then TRON. */
  const SCANNER_ROWS: seq<Rail> := [ERC20, TRC20]

  /** The merchant columns the rail checks read; a null column counts as empty. */
  datatype Merchant = Merchant(rails: seq<string>, chains: seq<Chain>, defaultCurrency: string, defaultNetwork: string)

  // ---- Rail keys ---------------------------------------------------------------------

  function NormalizePart(s: string): string {
    Upper(Trim(s))
  }

  function RailKey(currency: string, network: string): string {
    NormalizePart(currency) + "|" + NormalizePart(network)
  }

  function KeyOf(r: Rail): string {
    RailKey(r.currency, r.network)
  }

  function UntilBar(s: string): string {
    if s == "" || s[0] == '|' then "" else [s[0]] + UntilBar(s[1..])
  }

  function AfterBar(s: string): string {
    if s == "" then "" else if s[0] == '|' then s[1..] else AfterBar(s[1..])
  }

  /** The first two parts of the key split on bars, missing ones empty. */
  function ParseKey(key: string): Pair {
    Pair(NormalizePart(UntilBar(key)), NormalizePart(UntilBar(AfterBar(key))))
  }

  lemma {:induction false} SplitAtBar(a: string, b: string)
    requires '|' !in a
    ensures UntilBar(a + "|" + b) == a && AfterBar(a + "|" + b) == b
  {
    if a == "" {
      assert (a + "|" + b)[1..] == b;
    } else {
      assert (a + "|" + b)[1..] == a[1..] + "|" + b;
      SplitAtBar(a[1..], b);
      assert a == [a[0]] + a[1..];
    }
  }

  lemma {:induction false} UntilBarWhole(s: string)
    ensures |UntilBar(s)| <= |s| && '|' !in UntilBar(s)
    ensures '|' !in s ==> UntilBar(s) == s
    ensures '|' in s ==> |UntilBar(s)| < |s|
  {
    if s != "" {
      assert s == [s[0]] + s[1..];
      UntilBarWhole(s[1..]);
    }
  }

  lemma {:induction false} UntilBarOfKey(a: string, b: string)
    requires '|' in a
    ensures |UntilBar(a + "|" + b)| < |a|
  {
    assert (a + "|" + b)[0] == a[0];
    if a[0] != '|' {
      assert (a + "|" + b)[1..] == a[1..] + "|" + b;
      assert a == [a[0]] + a[1..];
      UntilBarOfKey(a[1..], b);
    }
  }

  lemma TrimShortens(s: string)
    ensures |TrimStart(s)| <= |s| && |TrimEnd(s)| <= |s|
  {}

  lemma NormalizeShortens(s: string)
    ensures |NormalizePart(s)| <= |s|
  {
    TrimShortens(s);
    TrimShortens(TrimStart(s));
    UpperAt(Trim(s));
  }

  lemma NormalizeIdempotent(s: string)
    ensures NormalizePart(NormalizePart(s)) == NormalizePart(s)
  {
    var t := Trim(s);
    TrimIsTrimmed(s);
    UpperTrimmed(t);
    TrimOfTrimmed(Upper(t));
    UpperTwice(t);
  }

  lemma PartsRoundTripIff(currency: string, network: string)
    ensures ParseKey(RailKey(currency, network)) == Pair(NormalizePart(currency), NormalizePart(network))
       <==> '|' !in NormalizePart(currency) && '|' !in NormalizePart(network)
  {
    var c, n := NormalizePart(currency), NormalizePart(network);
    NormalizeIdempotent(currency);
    NormalizeIdempotent(network);
    if '|' in c {
      UntilBarOfKey(c, n);
      NormalizeShortens(UntilBar(c + "|" + n));
    } else {
      SplitAtBar(c, n);
      UntilBarWhole(n);
      NormalizeShortens(UntilBar(n));
    }
  }

  lemma NormalizeNoBar(s: string)
    requires '|' !in s
    ensures '|' !in NormalizePart(s)
  {
    TrimNoBar(s);
    TrimNoBar(TrimStart(s));
    var t := Trim(s);
    UpperAt(t);
    forall i | 0 <= i < |t| ensures Upper(t)[i] != '|' {
      assert t[i] in t;
    }
  }

  lemma NormalizeBarIff(s: string)
    ensures '|' in NormalizePart(s) <==> '|' in s
  {
    if '|' in s {
      var before, after := TrimParts(s);
      var i :| 0 <= i < |s| && s[i] == '|';
      assert !IsSpace('|');
      assert |before| <= i < |before| + |Trim(s)| && Trim(s)[i - |before|] == '|';
      UpperAt(Trim(s));
      assert Upper(Trim(s))[i - |before|] == '|';
    } else {
      NormalizeNoBar(s);
    }
  }

  /**
   * Printing a rail key and parsing it back gives both parts, trimmed and in capitals,
   * exactly when neither holds a bar.
   */
  lemma KeyRoundTripIff(currency: string, network: string)
    ensures ParseKey(RailKey(currency, network)) == Pair(Upper(Trim(currency)), Upper(Trim(network)))
       <==> '|' !in currency && '|' !in network
  {
    PartsRoundTripIff(currency, network);
    NormalizeBarIff(currency);
    NormalizeBarIff(network);
  }

  /** Of a key the parts before and after its first bar count, up to a second one. */
  lemma KeySplits(a: string, b: string, rest: string)
    requires '|' !in a && '|' !in b && (rest != "" ==> rest[0] == '|')
    ensures ParseKey(a + "|" + b + rest) == Pair(Upper(Trim(a)), Upper(Trim(b)))
    ensures ParseKey(a) == Pair(Upper(Trim(a)), "")
  {
    assert a + "|" + b + rest == a + "|" + (b + rest);
    SplitAtBar(a, b + rest);
    if rest == "" {
      assert b + rest == b;
      UntilBarWhole(b);
    } else {
      assert b + rest == b + "|" + rest[1..];
      SplitAtBar(b, rest[1..]);
    }
    UntilBarWhole(a);
    NothingAfterBar(a);
    assert NormalizePart("") == "";
  }

  lemma NothingAfterBar(s: string)
    requires '|' !in s
    ensures AfterBar(s) == ""
  {}

  lemma TrimNoBar(s: string)
    requires '|' !in s
    ensures '|' !in TrimStart(s) && '|' !in TrimEnd(s)
  {}

  /** Reprinting a parsed key is a canonical form: parsing and reprinting it changes nothing. */
  lemma KeyCanonical(key: string)
    ensures var p := ParseKey(key); ParseKey(RailKey(p.currency, p.network)) == p
  {
    var p := ParseKey(key);
    UntilBarWhole(key);
    UntilBarWhole(AfterBar(key));
    NormalizeNoBar(UntilBar(key));
    NormalizeNoBar(UntilBar(AfterBar(key)));
    NormalizeIdempotent(UntilBar(key));
    NormalizeIdempotent(UntilBar(AfterBar(key)));
    PartsRoundTripIff(p.currency, p.network);
  }

  // ---- Resolving ---------------------------------------------------------------------

  function FindRail(rails: seq<Rail>, currency: string, network: string): Option<Rail> {
    if rails == [] then None
    else if rails[0].currency == currency && rails[0].network == network then Some(rails[0])
    else FindRail(rails[1..], currency, network)
  }

  function FindGatewayRail(currency: string, network: string): Option<Rail> {
    FindRail(GATEWAY_RAILS, NormalizePart(currency), NormalizePart(network))
  }

  function ResolveRail(currency: string, network: string): Option<Rail> {
    var c, n := NormalizePart(currency), NormalizePart(network);
    match FindGatewayRail(c, n)
    case Some(r) => Some(r)
    case None => FindRail(SCANNER_ROWS, c, n)
  }

  function ResolveKey(key: string): Option<Rail> {
    var p := ParseKey(key);
    ResolveRail(p.currency, p.network)
  }

  lemma {:induction false} FindRailIn(rails: seq<Rail>, c: string, n: string)
    ensures FindRail(rails, c, n).Some? ==>
      FindRail(rails, c, n).value in rails && FindRail(rails, c, n).value.currency == c
        && FindRail(rails, c, n).value.network == n
    ensures FindRail(rails, c, n).None? ==> forall r :: r in rails ==> r.currency != c || r.network != n
  {
    if rails != [] {
      FindRailIn(rails[1..], c, n);
      assert rails == [rails[0]] + rails[1..];
    }
  }

  lemma ResolveNamed(currency: string, network: string, rail: Rail)
    ensures ResolveRail(currency, network) == Some(rail) <==>
      rail in GATEWAY_RAILS && NormalizePart(currency) == rail.currency && NormalizePart(network) == rail.network
  {
    var c, n := NormalizePart(currency), NormalizePart(network);
    NormalizeIdempotent(currency);
    NormalizeIdempotent(network);
    FindRailIn(GATEWAY_RAILS, c, n);
    FindRailIn(SCANNER_ROWS, c, n);
    assert TRC20.network != ERC20.network by {
      assert TRC20.network[0] == 'T' && ERC20.network[0] == 'E';
    }
    assert forall r :: r in SCANNER_ROWS ==> r in GATEWAY_RAILS;
    assert forall r :: r in GATEWAY_RAILS ==> r == TRC20 || r == ERC20;
  }

  /**
   * Two pairs resolve, in any letter case and with white space around their parts: USDT on
   * TRC20 to TRON and USDT on ERC20 to Ethereum. The scanner rows add none.
   */
  lemma ResolveIs(currency: string, network: string)
    ensures var c, n := Upper(Trim(currency)), Upper(Trim(network));
            ResolveRail(currency, network) ==
            if c == "USDT" && n == "TRC20" then Some(Rail("USDT", "TRC20", TRON))
            else if c == "USDT" && n == "ERC20" then Some(Rail("USDT", "ERC20", ETH))
            else None
  {
    ResolveNamed(currency, network, TRC20);
    ResolveNamed(currency, network, ERC20);
    if ResolveRail(currency, network).Some? {
      ResolveNamed(currency, network, ResolveRail(currency, network).value);
    }
  }

  lemma PlainPart(s: string)
    requires s == "USDT" || s == "TRC20" || s == "ERC20"
    ensures NormalizePart(s) == s && '|' !in s
  {
    TrimOfTrimmed(s);
    UpperAt(s);
    assert Upper(s) == s;
  }

  lemma RailParts(rail: Rail)
    requires rail in GATEWAY_RAILS
    ensures NormalizePart(rail.currency) == rail.currency && NormalizePart(rail.network) == rail.network
    ensures '|' !in rail.currency && '|' !in rail.network
  {
    PlainPart(rail.currency);
    PlainPart(rail.network);
  }

  lemma KeyText(rail: Rail)
    requires rail in GATEWAY_RAILS
    ensures KeyOf(rail) == rail.currency + "|" + rail.network
  {
    RailParts(rail);
  }

  lemma KeyTexts()
    ensures KeyOf(TRC20) == "USDT|TRC20" && KeyOf(ERC20) == "USDT|ERC20"
  {
    KeyText(TRC20);
    KeyText(ERC20);
    Literals();
  }

  lemma Literals()
    ensures "USDT" + "|" + "TRC20" == "USDT|TRC20" && "USDT" + "|" + "ERC20" == "USDT|ERC20"
    ensures "USDT|TRC20" != "USDT|ERC20"
  {
    assert "USDT|TRC20"[5] != "USDT|ERC20"[5];
  }

  /** A gateway rail with this key and chain, if the key is one of the two. */
  lemma RailWithKey(key: string, chain: Chain)
    ensures (exists rail :: rail in GATEWAY_RAILS && KeyOf(rail) == key && rail.chain == chain) <==>
      (key == KeyOf(TRC20) && chain == TRON) || (key == KeyOf(ERC20) && chain == ETH)
  {
    assert TRC20 in GATEWAY_RAILS && ERC20 in GATEWAY_RAILS;
  }

  /** A rail's own key resolves to the rail. */
  lemma RailKeyResolves(rail: Rail)
    requires rail in GATEWAY_RAILS
    ensures ResolveKey(KeyOf(rail)) == Some(rail)
    ensures ResolveRail(rail.currency, rail.network) == Some(rail)
  {
    RailParts(rail);
    PartsRoundTripIff(rail.currency, rail.network);
    ResolveNamed(rail.currency, rail.network, rail);
  }

  lemma SameKeySameRail(r: Rail, s: Rail)
    requires r in GATEWAY_RAILS && s in GATEWAY_RAILS && KeyOf(r) == KeyOf(s)
    ensures r == s
  {
    RailKeyResolves(r);
    RailKeyResolves(s);
  }

  lemma ResolvedIsGateway(key: string)
    ensures ResolveKey(key).Some? ==> ResolveKey(key).value in GATEWAY_RAILS
  {
    var p := ParseKey(key);
    if ResolveKey(key).Some? {
      ResolveNamed(p.currency, p.network, ResolveKey(key).value);
    }
  }

  // ---- Accepting a deposit -----------------------------------------------------------

  function AllowsRail(cfg: Config, m: Merchant, rail: Rail): bool {
    if cfg.tronOnly then rail == TRC20
    else if m.rails != [] then KeyOf(rail) in m.rails
    else rail.chain in m.chains
  }

  datatype Refusal = UnsupportedPair | RailNotEnabled | ChainDisabled

  /** The three checks of the deposit-address call, in order. */
  function DepositCheck(cfg: Config, m: Merchant, currency: string, network: string): Result<Rail, Refusal> {
    match ResolveRail(currency, network)
    case None => Err(UnsupportedPair)
    case Some(rail) =>
      if !AllowsRail(cfg, m, rail) then Err(RailNotEnabled)
      else if !cfg.Live(rail.chain) then Err(ChainDisabled)
      else Ok(rail)
  }

  ghost predicate Accepted(cfg: Config, m: Merchant, rail: Rail) {
    DepositCheck(cfg, m, rail.currency, rail.network) == Ok(rail)
  }

  lemma AcceptedIs(cfg: Config, m: Merchant, rail: Rail)
    ensures Accepted(cfg, m, rail) <==> rail in GATEWAY_RAILS && AllowsRail(cfg, m, rail) && cfg.Live(rail.chain)
  {
    if rail in GATEWAY_RAILS {
      RailKeyResolves(rail);
    } else {
      ResolveNamed(rail.currency, rail.network, rail);
    }
  }

  lemma AllowsIs(cfg: Config, m: Merchant)
    ensures AllowsRail(cfg, m, TRC20) <==>
            cfg.tronOnly || (if m.rails != [] then "USDT|TRC20" in m.rails else TRON in m.chains)
    ensures AllowsRail(cfg, m, ERC20) <==>
            !cfg.tronOnly && (if m.rails != [] then "USDT|ERC20" in m.rails else ETH in m.chains)
  {
    KeyTexts();
    assert TRC20.chain != ERC20.chain;
  }

  predicate SwitchedOff(cfg: Config, c: Chain) {
    c in cfg.enabled && !cfg.enabled[c]
  }

  /**
   * The outcome of the three checks for any text asked for. With TRON-only on, TRC20 is all
   * a merchant has; otherwise it is the saved keys if there are any, else the default
   * chains. Only a chain that is switched off is not live.
   */
  lemma DepositCheckIs(cfg: Config, m: Merchant, currency: string, network: string)
    ensures Upper(Trim(currency)) == "USDT" && Upper(Trim(network)) == "TRC20" ==>
      DepositCheck(cfg, m, currency, network) ==
        if !cfg.tronOnly && (if m.rails != [] then "USDT|TRC20" !in m.rails else TRON !in m.chains)
        then Err(RailNotEnabled)
        else if SwitchedOff(cfg, TRON) then Err(ChainDisabled)
        else Ok(Rail("USDT", "TRC20", TRON))
    ensures Upper(Trim(currency)) == "USDT" && Upper(Trim(network)) == "ERC20" ==>
      DepositCheck(cfg, m, currency, network) ==
        if cfg.tronOnly || (if m.rails != [] then "USDT|ERC20" !in m.rails else ETH !in m.chains)
        then Err(RailNotEnabled)
        else if SwitchedOff(cfg, ETH) then Err(ChainDisabled)
        else Ok(Rail("USDT", "ERC20", ETH))
    ensures Upper(Trim(currency)) != "USDT" || (Upper(Trim(network)) != "TRC20" && Upper(Trim(network)) != "ERC20") ==>
      DepositCheck(cfg, m, currency, network) == Err(UnsupportedPair)
  {
    ResolveIs(currency, network);
    AllowsIs(cfg, m);
    assert "TRC20"[0] != "ERC20"[0];
  }

  // ---- Listing -----------------------------------------------------------------------

  function LivePairs(cfg: Config, pairs: seq<Rail>): seq<Rail> {
    if pairs == [] then []
    else
      LivePairs(cfg, pairs[..|pairs| - 1]) + (if cfg.Live(pairs[|pairs| - 1].chain) then [pairs[|pairs| - 1]] else [])
  }

  function OnlyTrc20(pairs: seq<Rail>): seq<Rail> {
    if pairs == [] then []
    else OnlyTrc20(pairs[..|pairs| - 1]) + (if pairs[|pairs| - 1] == TRC20 then [TRC20] else [])
  }

  function Finalize(cfg: Config, pairs: seq<Rail>): seq<Rail> {
    var filtered := LivePairs(cfg, pairs);
    if !cfg.tronOnly then filtered
    else
      var only := OnlyTrc20(filtered);
      if only != [] then only else if cfg.Live(TRON) then [TRC20] else []
  }

  /** The rails the stored keys name, in order of first appearance, as far as the merchant is allowed them. */
  function StoredPairs(cfg: Config, m: Merchant, keys: seq<string>): seq<Rail> {
    if keys == [] then []
    else
      var prev := StoredPairs(cfg, m, keys[..|keys| - 1]);
      match ResolveKey(keys[|keys| - 1])
      case None => prev
      case Some(rail) => if !AllowsRail(cfg, m, rail) || rail in prev then prev else prev + [rail]
  }

  function Fallback(m: Merchant): seq<Chain> {
    if m.chains != [] then m.chains else [TRON]
  }

  function ChainPairs(cfg: Config, m: Merchant, rails: seq<Rail>): seq<Rail> {
    if rails == [] then []
    else
      var prev := ChainPairs(cfg, m, rails[..|rails| - 1]);
      var rail := rails[|rails| - 1];
      if rail.chain !in Fallback(m) || !AllowsRail(cfg, m, rail) || rail in prev then prev else prev + [rail]
  }

  function ListedPairs(cfg: Config, m: Merchant): seq<Rail> {
    if m.rails != [] then Finalize(cfg, StoredPairs(cfg, m, m.rails))
    else
      var out := ChainPairs(cfg, m, GATEWAY_RAILS);
      if out != [] then Finalize(cfg, out)
      else
        match ResolveRail(NormalizePart(m.defaultCurrency), NormalizePart(m.defaultNetwork))
        case Some(rail) => Finalize(cfg, [rail])
        case None => Finalize(cfg, [])
  }

  /** The seen keys are those of the rails already listed. */
  ghost predicate Tracks(seen: set<string>, out: seq<Rail>) {
    && (forall r :: r in out ==> r in GATEWAY_RAILS)
    && (forall r :: r in GATEWAY_RAILS ==> (KeyOf(r) in seen <==> r in out))
  }

  lemma SeenIff(seen: set<string>, out: seq<Rail>, rail: Rail)
    requires Tracks(seen, out) && rail in GATEWAY_RAILS
    ensures KeyOf(rail) in seen <==> rail in out
  {}

  lemma StoredNext(cfg: Config, m: Merchant, keys: seq<string>, i: nat)
    requires i < |keys|
    ensures StoredPairs(cfg, m, keys[..i + 1]) ==
      match ResolveKey(keys[i])
      case None => StoredPairs(cfg, m, keys[..i])
      case Some(rail) =>
        if !AllowsRail(cfg, m, rail) || rail in StoredPairs(cfg, m, keys[..i]) then StoredPairs(cfg, m, keys[..i])
        else StoredPairs(cfg, m, keys[..i]) + [rail]
  {
    assert keys[..i + 1][..i] == keys[..i];
  }

  lemma TrackOne(seen: set<string>, out: seq<Rail>, rail: Rail)
    requires Tracks(seen, out) && rail in GATEWAY_RAILS
    ensures Tracks(seen + {KeyOf(rail)}, out + [rail])
  {
    forall r | r in GATEWAY_RAILS ensures KeyOf(r) in seen + {KeyOf(rail)} <==> r in out + [rail] {
      if KeyOf(r) == KeyOf(rail) {
        SameKeySameRail(r, rail);
      }
    }
  }

  method ListStored(cfg: Config, m: Merchant) returns (out: seq<Rail>)
    ensures out == StoredPairs(cfg, m, m.rails)
  {
    out := [];
    var seen: set<string> := {};
    for i := 0 to |m.rails|
      invariant out == StoredPairs(cfg, m, m.rails[..i])
      invariant Tracks(seen, out)
    {
      StoredNext(cfg, m, m.rails, i);
      ResolvedIsGateway(m.rails[i]);
      var rail := ResolveKey(m.rails[i]);
      if rail.None? || !AllowsRail(cfg, m, rail.value) {
        continue;
      }
      var k := KeyOf(rail.value);
      SeenIff(seen, out, rail.value);
      if k in seen {
        continue;
      }
      TrackOne(seen, out, rail.value);
      seen := seen + {k};
      out := out + [rail.value];
    }
    assert m.rails[..|m.rails|] == m.rails;
  }

  method ListByChain(cfg: Config, m: Merchant) returns (out: seq<Rail>)
    ensures out == ChainPairs(cfg, m, GATEWAY_RAILS)
  {
    out := [];
    var seen: set<string> := {};
    for i := 0 to |GATEWAY_RAILS|
      invariant out == ChainPairs(cfg, m, GATEWAY_RAILS[..i])
      invariant Tracks(seen, out)
    {
      assert GATEWAY_RAILS[..i + 1][..i] == GATEWAY_RAILS[..i];
      var rail := GATEWAY_RAILS[i];
      assert rail in GATEWAY_RAILS;
      if rail.chain !in Fallback(m) || !AllowsRail(cfg, m, rail) {
        continue;
      }
      var k := KeyOf(rail);
      if k in seen {
        continue;
      }
      TrackOne(seen, out, rail);
      seen := seen + {k};
      out := out + [rail];
    }
    assert GATEWAY_RAILS[..|GATEWAY_RAILS|] == GATEWAY_RAILS;
  }

  method ListSupportedPairs(cfg: Config, m: Merchant) returns (pairs: seq<Rail>)
    ensures pairs == ListedPairs(cfg, m)
  {
    if |m.rails| > 0 {
      pairs := ListStored(cfg, m);
      return Finalize(cfg, pairs);
    }
    pairs := ListByChain(cfg, m);
    if |pairs| > 0 {
      return Finalize(cfg, pairs);
    }
    var rail := ResolveRail(NormalizePart(m.defaultCurrency), NormalizePart(m.defaultNetwork));
    pairs := if rail.Some? then Finalize(cfg, [rail.value]) else Finalize(cfg, []);
  }
}
