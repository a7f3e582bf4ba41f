// What the listed pairs mean: exactly when they are the accepted rails.

module RailListing {
  import opened Chains
  import opened Lists
  import opened Rails
  import opened Text

  // ---- Members of the list -----------------------------------------------------------

  lemma {:induction false} LiveMembers(cfg: Config, pairs: seq<Rail>, r: Rail)
    ensures r in LivePairs(cfg, pairs) <==> r in pairs && cfg.Live(r.chain)
  {
    if pairs != [] {
      LiveMembers(cfg, pairs[..|pairs| - 1], r);
      InInit(pairs, r);
    }
  }

  lemma {:induction false} OnlyMembers(pairs: seq<Rail>, r: Rail)
    ensures r in OnlyTrc20(pairs) <==> r in pairs && r == TRC20
  {
    if pairs != [] {
      OnlyMembers(pairs[..|pairs| - 1], r);
      InInit(pairs, r);
    }
  }

  /** With TRON-only on, whatever was listed becomes USDT/TRC20 if TRON is live, and nothing otherwise. */
  lemma FinalizeMembers(cfg: Config, pairs: seq<Rail>, r: Rail)
    ensures !cfg.tronOnly ==> (r in Finalize(cfg, pairs) <==> r in pairs && cfg.Live(r.chain))
    ensures cfg.tronOnly ==> (r in Finalize(cfg, pairs) <==> r == TRC20 && cfg.Live(TRON))
  {
    var filtered := LivePairs(cfg, pairs);
    LiveMembers(cfg, pairs, r);
    LiveMembers(cfg, pairs, TRC20);
    OnlyMembers(filtered, r);
    OnlyMembers(filtered, TRC20);
    if OnlyTrc20(filtered) != [] {
      OnlyMembers(filtered, OnlyTrc20(filtered)[0]);
      assert OnlyTrc20(filtered)[0] in OnlyTrc20(filtered);
    }
  }

  lemma {:induction false} StoredMembers(cfg: Config, m: Merchant, keys: seq<string>, r: Rail)
    ensures r in StoredPairs(cfg, m, keys) <==>
      AllowsRail(cfg, m, r) && exists k :: k in keys && ResolveKey(k) == Some(r)
  {
    if keys != [] {
      var init, last := keys[..|keys| - 1], keys[|keys| - 1];
      StoredMembers(cfg, m, init, r);
      forall k ensures k in keys <==> k in init || k == last {
        InInit(keys, k);
      }
      assert last in keys;
    }
  }

  lemma {:induction false} ChainMembers(cfg: Config, m: Merchant, rails: seq<Rail>, r: Rail)
    ensures r in ChainPairs(cfg, m, rails) <==> r in rails && r.chain in Fallback(m) && AllowsRail(cfg, m, r)
  {
    if rails != [] {
      ChainMembers(cfg, m, rails[..|rails| - 1], r);
      InInit(rails, r);
    }
  }

  // ---- Listed means accepted, exactly when -------------------------------------------

  /** A gateway rail runs on one of the merchant's default chains. */
  predicate ChainsCoverARail(m: Merchant) {
    TRON in m.chains || ETH in m.chains
  }

  /** The branch that lists the default pair without asking whether the merchant is allowed it. */
  predicate ListsUnaskedDefault(cfg: Config, m: Merchant) {
    && !cfg.tronOnly && m.rails == [] && !ChainsCoverARail(m)
    && var rail := ResolveRail(m.defaultCurrency, m.defaultNetwork);
       rail.Some? && cfg.Live(rail.value.chain)
  }

  lemma ResolveNormalized(c: string, n: string)
    ensures ResolveRail(NormalizePart(c), NormalizePart(n)) == ResolveRail(c, n)
  {
    NormalizeIdempotent(c);
    NormalizeIdempotent(n);
  }

  lemma ResolvedInGateway(c: string, n: string)
    ensures ResolveRail(c, n).Some? ==> ResolveRail(c, n).value in GATEWAY_RAILS
  {
    if ResolveRail(c, n).Some? {
      ResolveNamed(c, n, ResolveRail(c, n).value);
    }
  }

  lemma ChainListIsEmptyIff(cfg: Config, m: Merchant)
    requires !cfg.tronOnly && m.rails == []
    ensures ChainPairs(cfg, m, GATEWAY_RAILS) == [] <==> !ChainsCoverARail(m)
  {
    var out := ChainPairs(cfg, m, GATEWAY_RAILS);
    ChainMembers(cfg, m, GATEWAY_RAILS, TRC20);
    ChainMembers(cfg, m, GATEWAY_RAILS, ERC20);
    if out != [] {
      assert out[0] in out;
      ChainMembers(cfg, m, GATEWAY_RAILS, out[0]);
    }
  }

  lemma ListedMembers(cfg: Config, m: Merchant, r: Rail)
    requires !ListsUnaskedDefault(cfg, m)
    ensures r in ListedPairs(cfg, m) <==> Accepted(cfg, m, r)
  {
    AcceptedIs(cfg, m, r);
    if cfg.tronOnly {
      TronOnlyMembers(cfg, m, r);
    } else if m.rails != [] {
      FinalizeMembers(cfg, StoredPairs(cfg, m, m.rails), r);
      StoredMembers(cfg, m, m.rails, r);
      if r in GATEWAY_RAILS {
        RailKeyResolves(r);
      } else {
        forall k ensures ResolveKey(k) != Some(r) {
          ResolvedIsGateway(k);
        }
      }
    } else {
      ByChainMembers(cfg, m, r);
    }
  }

  lemma TronOnlyMembers(cfg: Config, m: Merchant, r: Rail)
    requires cfg.tronOnly
    ensures r in ListedPairs(cfg, m) <==> r == TRC20 && cfg.Live(TRON)
  {
    FinalizeMembers(cfg, StoredPairs(cfg, m, m.rails), r);
    FinalizeMembers(cfg, ChainPairs(cfg, m, GATEWAY_RAILS), r);
    FinalizeMembers(cfg, [], r);
    var rail := ResolveRail(NormalizePart(m.defaultCurrency), NormalizePart(m.defaultNetwork));
    if rail.Some? {
      FinalizeMembers(cfg, [rail.value], r);
    }
  }

  lemma ByChainMembers(cfg: Config, m: Merchant, r: Rail)
    requires !cfg.tronOnly && m.rails == [] && !ListsUnaskedDefault(cfg, m)
    ensures r in ListedPairs(cfg, m) <==> r in GATEWAY_RAILS && AllowsRail(cfg, m, r) && cfg.Live(r.chain)
  {
    var out := ChainPairs(cfg, m, GATEWAY_RAILS);
    ChainListIsEmptyIff(cfg, m);
    if out != [] {
      FinalizeMembers(cfg, out, r);
      ChainMembers(cfg, m, GATEWAY_RAILS, r);
    } else {
      ResolveNormalized(m.defaultCurrency, m.defaultNetwork);
      var rail := ResolveRail(m.defaultCurrency, m.defaultNetwork);
      FinalizeMembers(cfg, [], r);
      if rail.Some? {
        FinalizeMembers(cfg, [rail.value], r);
      }
    }
  }

  /**
   * A merchant row left at the schema's column defaults is in that branch while TRON is
   * live. Creating or editing a merchant demands a default chain, so such a row was
   * migrated without one or written past the API.
   */
  lemma BareMerchantListsUnaskedDefault()
    ensures ListsUnaskedDefault(Config(false, map[]), Merchant([], [], "USDT", "TRC20"))
  {
    RailKeyResolves(TRC20);
  }

  /** In the unasked-default branch the one pair listed is refused. */
  lemma UnaskedDefaultIsRefused(cfg: Config, m: Merchant)
    requires ListsUnaskedDefault(cfg, m)
    ensures var rail := ResolveRail(m.defaultCurrency, m.defaultNetwork).value;
      && rail in ListedPairs(cfg, m) && !Accepted(cfg, m, rail)
      && DepositCheck(cfg, m, m.defaultCurrency, m.defaultNetwork) == Err(RailNotEnabled)
  {
    var rail := ResolveRail(m.defaultCurrency, m.defaultNetwork).value;
    ChainListIsEmptyIff(cfg, m);
    ResolveNormalized(m.defaultCurrency, m.defaultNetwork);
    ResolvedInGateway(m.defaultCurrency, m.defaultNetwork);
    FinalizeMembers(cfg, [rail], rail);
    AcceptedIs(cfg, m, rail);
  }

  /**
   * A merchant is shown exactly the rails the deposit-address call accepts, unless the
   * list falls back to a live default pair on a chain the merchant does not have.
   */
  lemma ListedExactlyAcceptedIff(cfg: Config, m: Merchant)
    ensures (forall r :: r in ListedPairs(cfg, m) <==> Accepted(cfg, m, r)) <==> !ListsUnaskedDefault(cfg, m)
  {
    if ListsUnaskedDefault(cfg, m) {
      UnaskedDefaultIsRefused(cfg, m);
    } else {
      forall r ensures r in ListedPairs(cfg, m) <==> Accepted(cfg, m, r) {
        ListedMembers(cfg, m, r);
      }
    }
  }

  lemma OneLive(cfg: Config, rail: Rail)
    ensures LivePairs(cfg, [rail]) == if cfg.Live(rail.chain) then [rail] else []
  {
    assert [rail][..0] == [];
    assert LivePairs(cfg, []) == [];
  }

  lemma PairsByChain(cfg: Config, m: Merchant)
    requires !cfg.tronOnly && m.rails == []
    ensures ChainPairs(cfg, m, GATEWAY_RAILS) ==
            (if TRON in m.chains then [TRC20] else []) + (if ETH in m.chains then [ERC20] else [])
  {
    assert GATEWAY_RAILS[..1] == [TRC20] && [TRC20][..0] == [];
    assert ChainPairs(cfg, m, []) == [];
    assert ChainPairs(cfg, m, [TRC20]) == if TRON in m.chains then [TRC20] else [];
    assert TRC20.chain != ERC20.chain;
  }

  lemma {:induction false} LiveConcat(cfg: Config, a: seq<Rail>, b: seq<Rail>)
    ensures LivePairs(cfg, a + b) == LivePairs(cfg, a) + LivePairs(cfg, b)
  {
    if b == [] {
      assert a + b == a;
    } else {
      assert (a + b)[..|a + b| - 1] == a + b[..|b| - 1];
      LiveConcat(cfg, a, b[..|b| - 1]);
    }
  }

  lemma ListedIsLive(cfg: Config, m: Merchant)
    requires !cfg.tronOnly && m.rails == [] && ChainsCoverARail(m)
    ensures ListedPairs(cfg, m) == LivePairs(cfg, ChainPairs(cfg, m, GATEWAY_RAILS))
  {
    ChainListIsEmptyIff(cfg, m);
  }

  lemma LiveOfTwo(cfg: Config, tron: bool, eth: bool)
    ensures LivePairs(cfg, (if tron then [TRC20] else []) + (if eth then [ERC20] else [])) ==
            (if tron && cfg.Live(TRON) then [TRC20] else []) + (if eth && cfg.Live(ETH) then [ERC20] else [])
  {
    LiveConcat(cfg, if tron then [TRC20] else [], if eth then [ERC20] else []);
    OneLive(cfg, TRC20);
    OneLive(cfg, ERC20);
    assert LivePairs(cfg, []) == [];
  }

  /** By chain, TRC20 is listed before ERC20, whatever the order of the default chains. */
  lemma ListedByChain(cfg: Config, m: Merchant)
    requires !cfg.tronOnly && m.rails == [] && ChainsCoverARail(m)
    ensures ListedPairs(cfg, m) ==
            (if TRON in m.chains && !SwitchedOff(cfg, TRON) then [Rail("USDT", "TRC20", TRON)] else []) +
            (if ETH in m.chains && !SwitchedOff(cfg, ETH) then [Rail("USDT", "ERC20", ETH)] else [])
  {
    ListedIsLive(cfg, m);
    PairsByChain(cfg, m);
    LiveOfTwo(cfg, TRON in m.chains, ETH in m.chains);
  }

  // ---- No pair twice -----------------------------------------------------------------

  lemma {:induction false} LiveNoRepeats(cfg: Config, pairs: seq<Rail>)
    requires NoRepeats(pairs)
    ensures NoRepeats(LivePairs(cfg, pairs))
  {
    if pairs != [] {
      var init, last := pairs[..|pairs| - 1], pairs[|pairs| - 1];
      LastIsNew(pairs);
      LiveNoRepeats(cfg, init);
      LiveMembers(cfg, init, last);
      if cfg.Live(last.chain) {
        NoRepeatsAppend(LivePairs(cfg, init), last);
      }
    }
  }

  lemma {:induction false} OnlyNoRepeats(pairs: seq<Rail>)
    requires NoRepeats(pairs)
    ensures |OnlyTrc20(pairs)| <= 1
  {
    if pairs != [] {
      LastIsNew(pairs);
      OnlyNoRepeats(pairs[..|pairs| - 1]);
      var init := OnlyTrc20(pairs[..|pairs| - 1]);
      if init != [] {
        OnlyMembers(pairs[..|pairs| - 1], init[0]);
        assert init[0] in init;
      }
    }
  }

  lemma FinalizeNoRepeats(cfg: Config, pairs: seq<Rail>)
    requires NoRepeats(pairs)
    ensures NoRepeats(Finalize(cfg, pairs))
  {
    LiveNoRepeats(cfg, pairs);
    OnlyNoRepeats(LivePairs(cfg, pairs));
  }

  lemma {:induction false} StoredNoRepeats(cfg: Config, m: Merchant, keys: seq<string>)
    ensures NoRepeats(StoredPairs(cfg, m, keys))
  {
    if keys != [] {
      var prev := StoredPairs(cfg, m, keys[..|keys| - 1]);
      StoredNoRepeats(cfg, m, keys[..|keys| - 1]);
      if StoredPairs(cfg, m, keys) != prev {
        NoRepeatsAppend(prev, ResolveKey(keys[|keys| - 1]).value);
      }
    }
  }

  lemma {:induction false} ChainNoRepeats(cfg: Config, m: Merchant, rails: seq<Rail>)
    ensures NoRepeats(ChainPairs(cfg, m, rails))
  {
    if rails != [] {
      var prev := ChainPairs(cfg, m, rails[..|rails| - 1]);
      ChainNoRepeats(cfg, m, rails[..|rails| - 1]);
      if ChainPairs(cfg, m, rails) != prev {
        NoRepeatsAppend(prev, rails[|rails| - 1]);
      }
    }
  }

  lemma ListedWithoutRepeats(cfg: Config, m: Merchant)
    ensures NoRepeats(ListedPairs(cfg, m))
  {
    StoredNoRepeats(cfg, m, m.rails);
    ChainNoRepeats(cfg, m, GATEWAY_RAILS);
    FinalizeNoRepeats(cfg, StoredPairs(cfg, m, m.rails));
    FinalizeNoRepeats(cfg, ChainPairs(cfg, m, GATEWAY_RAILS));
    FinalizeNoRepeats(cfg, []);
    var rail := ResolveRail(NormalizePart(m.defaultCurrency), NormalizePart(m.defaultNetwork));
    if rail.Some? {
      FinalizeNoRepeats(cfg, [rail.value]);
    }
  }

  // ---- When nothing is listed -------------------------------------------------------

  /** With no stored rails: no default chain with a rail is live, or none has a rail and the default pair is dead. */
  predicate NothingElseListed(cfg: Config, m: Merchant) {
    if ChainsCoverARail(m) then !(TRON in m.chains && cfg.Live(TRON)) && !(ETH in m.chains && cfg.Live(ETH))
    else
      var rail := ResolveRail(m.defaultCurrency, m.defaultNetwork);
      rail.None? || !cfg.Live(rail.value.chain)
  }

  lemma EmptyListIff(cfg: Config, m: Merchant)
    requires !cfg.tronOnly && m.rails == []
    ensures ListedPairs(cfg, m) == [] <==> NothingElseListed(cfg, m)
  {
    var out := ChainPairs(cfg, m, GATEWAY_RAILS);
    ChainListIsEmptyIff(cfg, m);
    if out != [] {
      LiveChainsEmptyIff(cfg, m, out);
    } else {
      ResolveNormalized(m.defaultCurrency, m.defaultNetwork);
      var rail := ResolveRail(m.defaultCurrency, m.defaultNetwork);
      if rail.Some? {
        OneLive(cfg, rail.value);
      }
    }
  }

  lemma LiveChainsEmptyIff(cfg: Config, m: Merchant, out: seq<Rail>)
    requires !cfg.tronOnly && m.rails == [] && out == ChainPairs(cfg, m, GATEWAY_RAILS)
    ensures LivePairs(cfg, out) == [] <==> !(TRON in m.chains && cfg.Live(TRON)) && !(ETH in m.chains && cfg.Live(ETH))
  {
    var live := LivePairs(cfg, out);
    ChainMembers(cfg, m, GATEWAY_RAILS, TRC20);
    ChainMembers(cfg, m, GATEWAY_RAILS, ERC20);
    LiveMembers(cfg, out, TRC20);
    LiveMembers(cfg, out, ERC20);
    if live != [] {
      assert live[0] in live;
      LiveMembers(cfg, out, live[0]);
      ChainMembers(cfg, m, GATEWAY_RAILS, live[0]);
    }
  }
}
