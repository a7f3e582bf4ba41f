// Validating auto-swap settings against the merchant's rails, and what the workers may
// rely on when they read the plan back.

module AutoSwapPlan {
  import opened AutoSwap
  import opened Chains
  import opened Lists
  import opened Text
  import Rails

  /**
   * Foreign checks: TronWeb's address decoder (does it succeed), ethers.getAddress and
   * parseUnits with six decimals (None where they throw), and whether Number() gives a
   * finite value that is not negative.
   */
  datatype Foreign = Foreign(
    tronValid: string -> bool,
    evmAddress: string -> Option<string>,
    parseUnits: string -> Option<int>,
    finiteNonNegative: string -> bool)

  /** ethers.getAddress: its answer is an address it maps to itself, without white space. */
  ghost predicate Stable(f: Foreign) {
    forall a :: f.evmAddress(a).Some? ==>
      var b := f.evmAddress(a).value; f.evmAddress(b) == Some(b) && Trimmed(b) && b != ""
  }

  datatype Family = Tron | Evm

  datatype Problem = UnknownRail | AddressRequired | InvalidTron | InvalidEvm | InvalidMin | NoDepositRails
    | TreasuryRequired

  datatype Fault = Fault(problem: Problem, rail: string)

  // ---- Addresses ---------------------------------------------------------------------

  function FamilyOf(railKey: string): Option<Family> {
    var k := Trim(railKey);
    if k == "USDT|TRC20" then Some(Tron) else if k == "USDT|ERC20" then Some(Evm) else None
  }

  /** The keys with an address family are exactly those of the gateway rails, Tron's for TRON and EVM's for ETH. */
  lemma FamiliesAreGatewayRails(key: string, family: Family)
    ensures FamilyOf(key) == Some(family) <==>
      exists rail :: rail in Rails.GATEWAY_RAILS && Rails.KeyOf(rail) == Trim(key)
        && rail.chain == (if family == Tron then TRON else ETH)
  {
    Rails.RailWithKey(Trim(key), if family == Tron then TRON else ETH);
    Rails.KeyTexts();
    Rails.Literals();
  }

  function CheckAddress(f: Foreign, railKey: string, address: string): Result<string, Problem> {
    match FamilyOf(railKey)
    case None => Err(UnknownRail)
    case Some(family) =>
      var a := Trim(address);
      if a == "" then Err(AddressRequired)
      else if family == Tron then (if f.tronValid(a) then Ok(a) else Err(InvalidTron))
      else if f.evmAddress(a).Some? then Ok(f.evmAddress(a).value) else Err(InvalidEvm)
  }

  /** A checked address checks again as itself. */
  lemma CheckedAddressIsStable(f: Foreign, rail: string, address: string)
    requires Stable(f) && CheckAddress(f, rail, address).Ok?
    ensures var a := CheckAddress(f, rail, address).value;
      CheckAddress(f, rail, a) == Ok(a) && Trimmed(a) && a != ""
  {
    var a := CheckAddress(f, rail, address).value;
    TrimIsTrimmed(address);
    if FamilyOf(rail) == Some(Evm) {
      assert f.evmAddress(Trim(address)).Some?;
    }
    TrimOfTrimmed(a);
  }

  // ---- Validation --------------------------------------------------------------------

  /** The merchant's rails: trimmed, non-blank, each once, in order of first appearance. */
  function UniqueRailsOf(supported: seq<string>): seq<string> {
    if supported == [] then []
    else
      var prev, r := UniqueRailsOf(supported[..|supported| - 1]), Trim(supported[|supported| - 1]);
      if r == "" || r in prev then prev else prev + [r]
  }

  /** The Map built from the destinations, then trimmed; a missing rail reads as blank. */
  function AddressFor(s: Settings, rail: string): string {
    TextOf(Lookup(PutAll([], s.destinations), rail))
  }

  function MinFor(s: Settings, rail: string): string {
    TextOf(Find(s.mins, rail))
  }

  function FirstUnknown(rails: seq<string>): Option<Fault> {
    if rails == [] then None
    else if FamilyOf(rails[0]).None? then Some(Fault(UnknownRail, rails[0]))
    else FirstUnknown(rails[1..])
  }

  function RailFault(f: Foreign, s: Settings, rail: string): Option<Fault> {
    if MinFor(s, rail) != "" && !f.finiteNonNegative(MinFor(s, rail)) then Some(Fault(InvalidMin, rail))
    else if AddressFor(s, rail) == "" then None
    else
      match CheckAddress(f, rail, AddressFor(s, rail))
      case Err(e) => Some(Fault(e, rail))
      case Ok(_) => None
  }

  function FirstFault(f: Foreign, s: Settings, rails: seq<string>): Option<Fault> {
    if rails == [] then None
    else if RailFault(f, s, rails[0]).Some? then RailFault(f, s, rails[0])
    else FirstFault(f, s, rails[1..])
  }

  function FirstMissing(s: Settings, rails: seq<string>): Option<Fault> {
    if rails == [] then None
    else if AddressFor(s, rails[0]) == "" then Some(Fault(TreasuryRequired, rails[0]))
    else FirstMissing(s, rails[1..])
  }

  function OutDests(f: Foreign, s: Settings, rails: seq<string>): seq<Dest> {
    if rails == [] then []
    else
      var prev, rail := OutDests(f, s, rails[..|rails| - 1]), rails[|rails| - 1];
      if AddressFor(s, rail) == "" || CheckAddress(f, rail, AddressFor(s, rail)).Err? then prev
      else prev + [Dest(rail, CheckAddress(f, rail, AddressFor(s, rail)).value)]
  }

  function OutMins(s: Settings, rails: seq<string>): map<string, string> {
    if rails == [] then map[]
    else
      var prev, rail := OutMins(s, rails[..|rails| - 1]), rails[|rails| - 1];
      if MinFor(s, rail) == "" then prev else prev[rail := MinFor(s, rail)]
  }

  function Validate(f: Foreign, s: Settings, supported: seq<string>, enabled: bool): Result<Settings, Fault> {
    var rails := UniqueRailsOf(supported);
    if FirstUnknown(rails).Some? then Err(FirstUnknown(rails).value)
    else if FirstFault(f, s, rails).Some? then Err(FirstFault(f, s, rails).value)
    else if enabled && rails == [] then Err(Fault(NoDepositRails, ""))
    else if enabled && FirstMissing(s, rails).Some? then Err(FirstMissing(s, rails).value)
    else Ok(Settings(2, OutDests(f, s, rails), OutMins(s, rails)))
  }

  /** The rails are the texts of the list, trimmed, that are not blank. */
  lemma {:induction false} RailsMembers(supported: seq<string>, r: string)
    ensures r in UniqueRailsOf(supported) <==> r != "" && exists x :: x in supported && Trim(x) == r
  {
    if supported != [] {
      var init, last := supported[..|supported| - 1], supported[|supported| - 1];
      RailsMembers(init, r);
      forall x ensures x in supported <==> x in init || x == last {
        InInit(supported, x);
      }
      assert last in supported;
    }
  }

  /** The last row for a rail counts. */
  lemma {:induction false} LastPutCounts(d: seq<Dest>, rail: string, i: nat)
    requires i < |d| && d[i].rail == rail && forall j :: i < j < |d| ==> d[j].rail != rail
    ensures Lookup(PutAll([], d), rail) == Some(d[i].address)
  {
    var init, last := d[..|d| - 1], d[|d| - 1];
    LookupPut(PutAll([], init), last.rail, last.address, rail);
    if i < |d| - 1 {
      LastPutCounts(init, rail, i);
    }
  }

  lemma {:induction false} NeverPut(d: seq<Dest>, rail: string)
    requires forall j :: 0 <= j < |d| ==> d[j].rail != rail
    ensures Lookup(PutAll([], d), rail) == None
  {
    if d != [] {
      var init, last := d[..|d| - 1], d[|d| - 1];
      NeverPut(init, rail);
      LookupPut(PutAll([], init), last.rail, last.address, rail);
    }
  }

  predicate IsLastRow(d: seq<Dest>, rail: string, i: nat) {
    i < |d| && d[i].rail == rail && forall j :: i < j < |d| ==> d[j].rail != rail
  }

  /** The address validated for a rail is that of its last row, trimmed, the minimum that of the map, trimmed. */
  lemma ReadForValidation(s: Settings, rail: string, i: nat)
    ensures IsLastRow(s.destinations, rail, i) ==> AddressFor(s, rail) == Trim(s.destinations[i].address)
    ensures (forall j :: 0 <= j < |s.destinations| ==> s.destinations[j].rail != rail) ==> AddressFor(s, rail) == ""
    ensures MinFor(s, rail) == if rail in s.mins then Trim(s.mins[rail]) else ""
  {
    if forall j :: 0 <= j < |s.destinations| ==> s.destinations[j].rail != rail {
      NeverPut(s.destinations, rail);
    } else if IsLastRow(s.destinations, rail, i) {
      LastPutCounts(s.destinations, rail, i);
    }
  }

  /**
   * What the platform makes of an address given for a rail: TronWeb has to decode one for
   * TRC20, and ethers to parse one for ERC20, where its form is the one kept.
   */
  predicate Passes(f: Foreign, rail: string, given: string, kept: string) {
    || (rail == "USDT|TRC20" && f.tronValid(given) && kept == given)
    || (rail == "USDT|ERC20" && f.evmAddress(given) == Some(kept))
  }

  lemma CheckAddressIs(f: Foreign, rail: string, given: string, kept: string)
    requires Trimmed(rail) && Trimmed(given)
    ensures CheckAddress(f, rail, given) == Ok(kept) <==> given != "" && Passes(f, rail, given, kept)
    ensures FamilyOf(rail).Some? <==> rail == "USDT|TRC20" || rail == "USDT|ERC20"
  {
    TrimOfTrimmed(rail);
    TrimOfTrimmed(given);
    Rails.Literals();
  }

  /** What validation demands of each rail, without its order of checks. */
  ghost predicate RailReady(f: Foreign, s: Settings, rail: string, enabled: bool) {
    && FamilyOf(rail).Some?
    && (MinFor(s, rail) == "" || f.finiteNonNegative(MinFor(s, rail)))
    && (AddressFor(s, rail) == "" || CheckAddress(f, rail, AddressFor(s, rail)).Ok?)
    && (enabled ==> AddressFor(s, rail) != "")
  }

  lemma {:induction false} NoUnknownIff(rails: seq<string>)
    ensures FirstUnknown(rails).None? <==> forall r :: r in rails ==> FamilyOf(r).Some?
  {
    if rails != [] {
      NoUnknownIff(rails[1..]);
      assert rails == [rails[0]] + rails[1..];
    }
  }

  lemma {:induction false} NoFaultIff(f: Foreign, s: Settings, rails: seq<string>)
    ensures FirstFault(f, s, rails).None? <==> forall r :: r in rails ==> RailFault(f, s, r).None?
  {
    if rails != [] {
      NoFaultIff(f, s, rails[1..]);
      assert rails == [rails[0]] + rails[1..];
    }
  }

  lemma {:induction false} NoMissingIff(s: Settings, rails: seq<string>)
    ensures FirstMissing(s, rails).None? <==> forall r :: r in rails ==> AddressFor(s, r) != ""
  {
    if rails != [] {
      NoMissingIff(s, rails[1..]);
      assert rails == [rails[0]] + rails[1..];
    }
  }

  lemma ReadyIff(f: Foreign, s: Settings, supported: seq<string>, enabled: bool)
    ensures Validate(f, s, supported, enabled).Ok? <==>
      && (forall r :: r in UniqueRailsOf(supported) ==> RailReady(f, s, r, enabled))
      && (enabled ==> UniqueRailsOf(supported) != [])
  {
    var rails := UniqueRailsOf(supported);
    NoUnknownIff(rails);
    NoFaultIff(f, s, rails);
    NoMissingIff(s, rails);
    forall r ensures RailReady(f, s, r, enabled) <==>
      FamilyOf(r).Some? && RailFault(f, s, r).None? && (enabled ==> AddressFor(s, r) != "")
    {
    }
  }

  lemma ReadyIs(f: Foreign, s: Settings, rail: string, enabled: bool)
    requires Trimmed(rail)
    ensures RailReady(f, s, rail, enabled) <==> Acceptable(f, s, rail, enabled)
  {
    var a := AddressFor(s, rail);
    TextIsTrimmed(Lookup(PutAll([], s.destinations), rail));
    CheckAddressIs(f, rail, a, a);
    if f.evmAddress(a).Some? {
      CheckAddressIs(f, rail, a, f.evmAddress(a).value);
    }
    if CheckAddress(f, rail, a).Ok? {
      CheckAddressIs(f, rail, a, CheckAddress(f, rail, a).value);
    }
  }

  /**
   * The rail is one of the two of the gateway. Its minimum is blank or a number that is not
   * negative, its address passes or is blank, and not blank if auto-swap is on.
   */
  ghost predicate Acceptable(f: Foreign, s: Settings, rail: string, enabled: bool) {
    var a, min := AddressFor(s, rail), MinFor(s, rail);
    && (rail == "USDT|TRC20" || rail == "USDT|ERC20")
    && (min != "" ==> f.finiteNonNegative(min))
    && (a != "" ==> exists kept :: Passes(f, rail, a, kept))
    && (enabled ==> a != "")
  }

  /** Settings validate exactly when every rail named is acceptable, and auto-swap is off or there is one. */
  lemma ValidIff(f: Foreign, s: Settings, supported: seq<string>, enabled: bool)
    ensures Validate(f, s, supported, enabled).Ok? <==>
      && (forall x :: x in supported && Trim(x) != "" ==> Acceptable(f, s, Trim(x), enabled))
      && (enabled ==> exists x :: x in supported && Trim(x) != "")
  {
    var rails := UniqueRailsOf(supported);
    ReadyIff(f, s, supported, enabled);
    RailsAreClean(supported);
    forall r
      ensures r in rails <==> r != "" && exists x :: x in supported && Trim(x) == r
      ensures r in rails ==> (RailReady(f, s, r, enabled) <==> Acceptable(f, s, r, enabled))
    {
      RailsMembers(supported, r);
      if r in rails {
        ReadyIs(f, s, r, enabled);
      }
    }
    if x :| x in supported && Trim(x) != "" {
      assert Trim(x) in rails;
    }
    if rails != [] {
      assert rails[0] in rails;
    }
  }

  method ValidateState(
      f: Foreign, s: Settings, supported: seq<string>, enabled: bool) returns (r: Result<Settings, Fault>)
    ensures r == Validate(f, s, supported, enabled)
  {
    var rails := UniqueRailsOf(supported);
    var byRail := PutAll([], s.destinations);
    var unknown := ScanUnknown(rails);
    if unknown.Some? {
      return Err(unknown.value);
    }
    var fault := ScanFaults(f, s, rails, byRail);
    if fault.Some? {
      return Err(fault.value);
    }
    if enabled {
      if |rails| == 0 {
        return Err(Fault(NoDepositRails, ""));
      }
      var missing := ScanMissing(s, rails, byRail);
      if missing.Some? {
        return Err(missing.value);
      }
    }
    var dests, mins := CollectOutput(f, s, rails, byRail);
    r := Ok(Settings(2, dests, mins));
  }

  method ScanUnknown(rails: seq<string>) returns (r: Option<Fault>)
    ensures r == FirstUnknown(rails)
  {
    for i := 0 to |rails|
      invariant FirstUnknown(rails) == FirstUnknown(rails[i..])
    {
      if FamilyOf(rails[i]).None? {
        return Some(Fault(UnknownRail, rails[i]));
      }
      assert rails[i..][1..] == rails[i + 1..];
    }
    r := None;
  }

  method ScanFaults(f: Foreign, s: Settings, rails: seq<string>, byRail: seq<Dest>) returns (r: Option<Fault>)
    requires byRail == PutAll([], s.destinations)
    ensures r == FirstFault(f, s, rails)
  {
    for i := 0 to |rails|
      invariant FirstFault(f, s, rails) == FirstFault(f, s, rails[i..])
    {
      var rail := rails[i];
      assert rails[i..][1..] == rails[i + 1..];
      var addr, min := TextOf(Lookup(byRail, rail)), TextOf(Find(s.mins, rail));
      if min != "" && !f.finiteNonNegative(min) {
        return Some(Fault(InvalidMin, rail));
      }
      if addr != "" {
        var v := CheckAddress(f, rail, addr);
        if v.Err? {
          return Some(Fault(v.error, rail));
        }
      }
    }
    r := None;
  }

  method ScanMissing(s: Settings, rails: seq<string>, byRail: seq<Dest>) returns (r: Option<Fault>)
    requires byRail == PutAll([], s.destinations)
    ensures r == FirstMissing(s, rails)
  {
    for i := 0 to |rails|
      invariant FirstMissing(s, rails) == FirstMissing(s, rails[i..])
    {
      if TextOf(Lookup(byRail, rails[i])) == "" {
        return Some(Fault(TreasuryRequired, rails[i]));
      }
      assert rails[i..][1..] == rails[i + 1..];
    }
    r := None;
  }

  method CollectOutput(f: Foreign, s: Settings, rails: seq<string>, byRail: seq<Dest>)
      returns (dests: seq<Dest>, mins: map<string, string>)
    requires byRail == PutAll([], s.destinations)
    ensures dests == OutDests(f, s, rails) && mins == OutMins(s, rails)
  {
    dests, mins := [], map[];
    for i := 0 to |rails|
      invariant dests == OutDests(f, s, rails[..i]) && mins == OutMins(s, rails[..i])
    {
      assert rails[..i + 1][..i] == rails[..i];
      var rail := rails[i];
      var addr, min := TextOf(Lookup(byRail, rail)), TextOf(Find(s.mins, rail));
      if addr != "" {
        var v := CheckAddress(f, rail, addr);
        if v.Ok? {
          dests := dests + [Dest(rail, v.value)];
        }
      }
      if min != "" {
        mins := mins[rail := min];
      }
    }
    assert rails[..|rails|] == rails;
  }

  // ---- The output --------------------------------------------------------------------

  lemma {:induction false} RailsAreClean(supported: seq<string>)
    ensures NoRepeats(UniqueRailsOf(supported))
    ensures forall r :: r in UniqueRailsOf(supported) ==> Trimmed(r) && r != ""
  {
    if supported != [] {
      var prev, r := UniqueRailsOf(supported[..|supported| - 1]), Trim(supported[|supported| - 1]);
      RailsAreClean(supported[..|supported| - 1]);
      TrimIsTrimmed(supported[|supported| - 1]);
      if r !in prev {
        NoRepeatsAppend(prev, r);
      }
    }
  }

  function OutAddress(f: Foreign, s: Settings, rail: string): Option<string> {
    if AddressFor(s, rail) == "" || CheckAddress(f, rail, AddressFor(s, rail)).Err? then None
    else Some(CheckAddress(f, rail, AddressFor(s, rail)).value)
  }

  lemma {:induction false} OutDestMembers(f: Foreign, s: Settings, rails: seq<string>, d: Dest)
    ensures d in OutDests(f, s, rails) <==> d.rail in rails && OutAddress(f, s, d.rail) == Some(d.address)
  {
    if rails != [] {
      OutDestMembers(f, s, rails[..|rails| - 1], d);
      InInit(rails, d.rail);
    }
  }

  lemma {:induction false} OutDestsUnique(f: Foreign, s: Settings, rails: seq<string>)
    requires NoRepeats(rails)
    ensures UniqueRails(OutDests(f, s, rails))
  {
    if rails != [] {
      var init, last := rails[..|rails| - 1], rails[|rails| - 1];
      LastIsNew(rails);
      OutDestsUnique(f, s, init);
      var prev := OutDests(f, s, init);
      forall i | 0 <= i < |prev| ensures prev[i].rail != last {
        OutDestMembers(f, s, init, prev[i]);
      }
    }
  }

  lemma {:induction false} OutMinRead(s: Settings, rails: seq<string>, k: string)
    ensures Find(OutMins(s, rails), k) == if k in rails && MinFor(s, k) != "" then Some(MinFor(s, k)) else None
  {
    if rails != [] {
      OutMinRead(s, rails[..|rails| - 1], k);
      InInit(rails, k);
    }
  }

  /** A Map built from unique rows reads like the rows. */
  lemma UniqueReads(d: seq<Dest>, rail: string)
    requires UniqueRails(d)
    ensures Lookup(PutAll([], d), rail) == Lookup(d, rail)
  {
    LookupPutAll([], d, rail);
  }

  /** Reading the validated settings back gives each rail its checked address and its minimum. */
  lemma OutputReads(f: Foreign, s: Settings, supported: seq<string>, enabled: bool, rail: string)
    requires Stable(f) && Validate(f, s, supported, enabled).Ok?
    ensures var out := Validate(f, s, supported, enabled).value;
      && UniqueRails(out.destinations)
      && Lookup(out.destinations, rail) == (if rail in UniqueRailsOf(supported) then OutAddress(f, s, rail) else None)
      && Find(out.mins, rail) ==
         if rail in UniqueRailsOf(supported) && MinFor(s, rail) != "" then Some(MinFor(s, rail)) else None
  {
    var rails := UniqueRailsOf(supported);
    var out := OutDests(f, s, rails);
    RailsAreClean(supported);
    OutDestsUnique(f, s, rails);
    OutMinRead(s, rails, rail);
    LookupNone(out, rail);
    if Lookup(out, rail).Some? {
      OutDestMembers(f, s, rails, Dest(rail, Lookup(out, rail).value));
    } else if OutAddress(f, s, rail).Some? {
      OutDestMembers(f, s, rails, Dest(rail, OutAddress(f, s, rail).value));
    }
  }

  lemma OutAddressStable(f: Foreign, s: Settings, rail: string)
    requires Stable(f) && OutAddress(f, s, rail).Some?
    ensures var a := OutAddress(f, s, rail).value; Trimmed(a) && a != "" && CheckAddress(f, rail, a) == Ok(a)
  {
    CheckedAddressIsStable(f, rail, AddressFor(s, rail));
  }

  lemma OutputIsNormal(f: Foreign, s: Settings, supported: seq<string>, enabled: bool)
    requires Stable(f) && Validate(f, s, supported, enabled).Ok?
    ensures Normal(Validate(f, s, supported, enabled).value)
  {
    var rails := UniqueRailsOf(supported);
    RailsAreClean(supported);
    OutDestsUnique(f, s, rails);
    forall d | d in OutDests(f, s, rails) ensures CleanDest(d) {
      OutDestMembers(f, s, rails, d);
      OutAddressStable(f, s, d.rail);
    }
    forall k | k in OutMins(s, rails)
      ensures Trimmed(k) && k != "" && Trimmed(OutMins(s, rails)[k]) && OutMins(s, rails)[k] != ""
    {
      OutMinRead(s, rails, k);
      assert Find(OutMins(s, rails), k).Some?;
      TextIsTrimmed(Find(s.mins, k));
    }
  }

  /** On the rails validated, the output reads as itself. */
  lemma OutputStableAt(f: Foreign, s: Settings, supported: seq<string>, enabled: bool, rail: string)
    requires Stable(f) && Validate(f, s, supported, enabled).Ok? && rail in UniqueRailsOf(supported)
    ensures var out := Validate(f, s, supported, enabled).value;
      && OutAddress(f, out, rail) == OutAddress(f, s, rail) && MinFor(out, rail) == MinFor(s, rail)
      && (AddressFor(out, rail) == "" <==> OutAddress(f, s, rail).None?)
  {
    var out := Validate(f, s, supported, enabled).value;
    OutputReads(f, s, supported, enabled, rail);
    UniqueReads(out.destinations, rail);
    if OutAddress(f, s, rail).Some? {
      OutAddressStable(f, s, rail);
      TrimOfTrimmed(OutAddress(f, s, rail).value);
    }
    TextIsTrimmed(Find(s.mins, rail));
    TrimOfTrimmed(MinFor(s, rail));
  }

  lemma {:induction false} SameOutput(f: Foreign, s: Settings, t: Settings, rails: seq<string>)
    requires forall r :: r in rails ==> OutAddress(f, s, r) == OutAddress(f, t, r) && MinFor(s, r) == MinFor(t, r)
    ensures OutDests(f, s, rails) == OutDests(f, t, rails) && OutMins(s, rails) == OutMins(t, rails)
  {
    if rails != [] {
      forall r | r in rails[..|rails| - 1]
        ensures OutAddress(f, s, r) == OutAddress(f, t, r) && MinFor(s, r) == MinFor(t, r)
      {
        InInit(rails, r);
      }
      SameOutput(f, s, t, rails[..|rails| - 1]);
      assert rails[|rails| - 1] in rails;
    }
  }

  /** Validated settings, stored and read back, validate to themselves. */
  lemma ValidationIsFixedPoint(f: Foreign, s: Settings, supported: seq<string>, enabled: bool, stored: Raw)
    requires Stable(f) && Validate(f, s, supported, enabled).Ok?
    requires Stores(stored, Validate(f, s, supported, enabled).value)
    ensures Normalize(stored) == Validate(f, s, supported, enabled).value
    ensures Validate(f, Normalize(stored), supported, enabled) == Validate(f, s, supported, enabled)
  {
    var out := Validate(f, s, supported, enabled).value;
    var rails := UniqueRailsOf(supported);
    OutputIsNormal(f, s, supported, enabled);
    NormalReadsBack(stored, out);
    ReadyIff(f, s, supported, enabled);
    forall r | r in rails
      ensures OutAddress(f, out, r) == OutAddress(f, s, r) && MinFor(out, r) == MinFor(s, r)
        && RailReady(f, out, r, enabled)
    {
      OutputStableAt(f, s, supported, enabled, r);
      assert RailReady(f, s, r, enabled);
    }
    ReadyIff(f, out, supported, enabled);
    SameOutput(f, out, s, rails);
  }

  // ---- The plan and the sweep --------------------------------------------------------

  /** The merchant columns the plan reads. */
  datatype MerchantRow = MerchantRow(autoSwap: bool, settings: Raw, supported: seq<string>)

  datatype Plan = Disabled | Enabled(destinations: seq<Dest>, mins: map<string, string>)

  /** None when no live merchant row has the id. */
  function PlanOf(f: Foreign, m: Option<MerchantRow>): Plan {
    if m.None? || !m.value.autoSwap then Disabled
    else
      match Validate(f, Normalize(m.value.settings), m.value.supported, true)
      case Err(_) => Disabled
      case Ok(json) => Enabled(json.destinations, json.mins)
  }

  datatype Sweep = Sweep(master: string, minAtomic: int, rail: string)

  datatype SweepError = AutoSwapRequired | TreasuryMissing | BadTreasury(problem: Problem) | BadMinimum

  function MinToAtomic(f: Foreign, text: string): (atomic: Option<int>)
    ensures Trim(text) == "" ==> atomic == Some(0)
  {
    if Trim(text) == "" then Some(0) else f.parseUnits(Trim(text))
  }

  function ResolveSweep(f: Foreign, m: Option<MerchantRow>, railKey: string): Result<Sweep, SweepError> {
    var rail := Trim(railKey);
    match PlanOf(f, m)
    case Disabled => Err(AutoSwapRequired)
    case Enabled(dests, mins) =>
      if TextOf(Lookup(dests, rail)) == "" then Err(TreasuryMissing)
      else
        match CheckAddress(f, rail, Lookup(dests, rail).value)
        case Err(e) => Err(BadTreasury(e))
        case Ok(master) =>
          if TextOf(Find(mins, rail)) == "" then Ok(Sweep(master, 0, rail))
          else
            match MinToAtomic(f, mins[rail])
            case None => Err(BadMinimum)
            case Some(n) => Ok(Sweep(master, n, rail))
  }

  lemma PlanReadyIff(f: Foreign, m: MerchantRow)
    ensures PlanOf(f, Some(m)).Enabled? <==>
      m.autoSwap && UniqueRailsOf(m.supported) != [] &&
      forall r :: r in UniqueRailsOf(m.supported) ==> RailReady(f, Normalize(m.settings), r, true)
  {
    ReadyIff(f, Normalize(m.settings), m.supported, true);
  }

  /** The plan is enabled exactly when auto-swap is on and every supported rail, at least one, is acceptable. */
  lemma PlanEnabledIff(f: Foreign, m: Option<MerchantRow>)
    ensures PlanOf(f, m).Enabled? <==>
      && m.Some? && m.value.autoSwap && (exists x :: x in m.value.supported && Trim(x) != "")
      && forall x :: x in m.value.supported && Trim(x) != "" ==>
           Acceptable(f, Normalize(m.value.settings), Trim(x), true)
    ensures !PlanOf(f, m).Enabled? ==> forall railKey :: ResolveSweep(f, m, railKey) == Err(AutoSwapRequired)
  {
    if m.Some? {
      ValidIff(f, Normalize(m.value.settings), m.value.supported, true);
    }
  }

  /** The address of the rail in the merchant's stored settings. */
  function StoredAddress(m: MerchantRow, rail: string): string {
    TextOf(Lookup(Normalize(m.settings).destinations, rail))
  }

  lemma StoredIsRead(m: MerchantRow, rail: string)
    ensures AddressFor(Normalize(m.settings), rail) == StoredAddress(m, rail) && Trimmed(StoredAddress(m, rail))
  {
    NormalizeIsNormal(m.settings);
    UniqueReads(Normalize(m.settings).destinations, rail);
    TextIsTrimmed(Lookup(Normalize(m.settings).destinations, rail));
  }

  lemma PlannedAddress(f: Foreign, m: MerchantRow, rail: string)
    requires Stable(f) && PlanOf(f, Some(m)).Enabled?
    ensures UniqueRails(PlanOf(f, Some(m)).destinations)
    ensures Lookup(PlanOf(f, Some(m)).destinations, rail).Some? <==> rail in UniqueRailsOf(m.supported)
    ensures rail in UniqueRailsOf(m.supported) ==>
      var a := Lookup(PlanOf(f, Some(m)).destinations, rail).value;
      && CheckAddress(f, rail, StoredAddress(m, rail)) == Ok(a)
      && CheckAddress(f, rail, a) == Ok(a) && Trimmed(a) && a != ""
  {
    var s := Normalize(m.settings);
    OutputReads(f, s, m.supported, true, rail);
    ReadyIff(f, s, m.supported, true);
    StoredIsRead(m, rail);
    if rail in UniqueRailsOf(m.supported) {
      assert RailReady(f, s, rail, true);
      OutAddressStable(f, s, rail);
    }
  }

  /**
   * Under an enabled plan every supported rail, and no other, has exactly one destination.
   * For TRC20 it is the stored address, which TronWeb decodes; for ERC20 it is what ethers
   * makes of the stored address. It passes again as it stands.
   */
  lemma PlanCoversRails(f: Foreign, m: MerchantRow, rail: string)
    requires Stable(f) && PlanOf(f, Some(m)).Enabled?
    ensures UniqueRails(PlanOf(f, Some(m)).destinations)
    ensures Lookup(PlanOf(f, Some(m)).destinations, rail).Some? <==>
      rail != "" && exists x :: x in m.supported && Trim(x) == rail
    ensures Lookup(PlanOf(f, Some(m)).destinations, rail).Some? ==>
      var a := Lookup(PlanOf(f, Some(m)).destinations, rail).value;
      Passes(f, rail, StoredAddress(m, rail), a) && Passes(f, rail, a, a) && Trimmed(a) && a != ""
  {
    PlannedAddress(f, m, rail);
    RailsMembers(m.supported, rail);
    RailsAreClean(m.supported);
    StoredIsRead(m, rail);
    if rail in UniqueRailsOf(m.supported) {
      var a := Lookup(PlanOf(f, Some(m)).destinations, rail).value;
      CheckAddressIs(f, rail, StoredAddress(m, rail), a);
      CheckAddressIs(f, rail, a, a);
    }
  }

  lemma SweepOfPlan(f: Foreign, m: MerchantRow, railKey: string)
    requires Stable(f) && PlanOf(f, Some(m)).Enabled?
    ensures Trim(railKey) !in UniqueRailsOf(m.supported) ==> ResolveSweep(f, Some(m), railKey) == Err(TreasuryMissing)
    ensures Trim(railKey) in UniqueRailsOf(m.supported) ==>
      ResolveSweep(f, Some(m), railKey) ==
        var rail := Trim(railKey);
        var a := TextOf(Lookup(PlanOf(f, Some(m)).destinations, rail));
        var min := MinFor(Normalize(m.settings), rail);
        if min == "" then Ok(Sweep(a, 0, rail))
        else if f.parseUnits(min).Some? then Ok(Sweep(a, f.parseUnits(min).value, rail))
        else Err(BadMinimum)
  {
    var s := Normalize(m.settings);
    var rail := Trim(railKey);
    var min := MinFor(s, rail);
    PlannedAddress(f, m, rail);
    OutputReads(f, s, m.supported, true, rail);
    TextIsTrimmed(Find(s.mins, rail));
    TrimOfTrimmed(min);
    if rail in UniqueRailsOf(m.supported) {
      TrimOfTrimmed(Lookup(PlanOf(f, Some(m)).destinations, rail).value);
    }
  }

  /**
   * Under an enabled plan a sweep of a supported rail goes to an address that passes, made
   * of the stored one, with the stored minimum in millionths; it fails only when that
   * minimum, though a number, is not an amount of six decimals. A sweep of any other rail
   * finds no treasury.
   */
  lemma SweepResolves(f: Foreign, m: MerchantRow, railKey: string)
    requires Stable(f) && PlanOf(f, Some(m)).Enabled?
    ensures var rail, r := Trim(railKey), ResolveSweep(f, Some(m), railKey);
      var min := Find(Normalize(m.settings).mins, rail);
      if rail == "" || forall x :: x in m.supported ==> Trim(x) != rail then r == Err(TreasuryMissing)
      else if min.Some? && f.parseUnits(min.value).None? then r == Err(BadMinimum) && f.finiteNonNegative(min.value)
      else
        && r.Ok? && r.value.rail == rail && Passes(f, rail, StoredAddress(m, rail), r.value.master)
        && r.value.minAtomic == if min.Some? then f.parseUnits(min.value).value else 0
  {
    var s := Normalize(m.settings);
    var rail := Trim(railKey);
    SweepOfPlan(f, m, railKey);
    PlanCoversRails(f, m, rail);
    RailsMembers(m.supported, rail);
    NormalizeIsNormal(m.settings);
    if rail in s.mins {
      TrimOfTrimmed(s.mins[rail]);
    }
    PlanReadyIff(f, m);
    if rail in UniqueRailsOf(m.supported) {
      assert RailReady(f, s, rail, true);
    }
  }

  /** ethers and TronWeb as far as the example below needs them: seven decimals are too many for six. */
  const STRICT := Foreign(a => true, a => Some("0x0"), a => if a == "0.0000001" then None else Some(0), a => true)

  const TINY_MIN := RawRow(Some("USDT|TRC20"), Some("T"), None, Some("0.0000001"), None)

  /** A number with seven decimals passes validation, and the sweep then refuses it. */
  lemma ValidMinimumMayNotSweep()
    ensures Stable(STRICT)
    ensures var m := MerchantRow(true, Raw(None, [TINY_MIN], []), ["USDT|TRC20"]);
      PlanOf(STRICT, Some(m)).Enabled? && ResolveSweep(STRICT, Some(m), "USDT|TRC20") == Err(BadMinimum)
  {
    var m := MerchantRow(true, Raw(None, [TINY_MIN], []), ["USDT|TRC20"]);
    var rail, min := "USDT|TRC20", "0.0000001";
    TrimOfTrimmed(rail);
    TrimOfTrimmed(min);
    TrimOfTrimmed("T");
    TrimOfTrimmed("0x0");
    assert ["USDT|TRC20"][..0] == [] && UniqueRailsOf([]) == [];
    assert UniqueRailsOf(m.supported) == [rail];
    NormalizedReads(m.settings, rail);
    assert [TINY_MIN][..0] == [];
    var s := Normalize(m.settings);
    assert MinFor(s, rail) == min;
    NormalizeIsNormal(m.settings);
    UniqueReads(s.destinations, rail);
    assert AddressFor(s, rail) == "T";
    assert RailReady(STRICT, s, rail, true);
    PlanReadyIff(STRICT, m);
    SweepResolves(STRICT, m, rail);
  }
}
