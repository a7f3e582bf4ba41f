// What an accepted settings patch leaves in the cache after the reload: for every key,
// whatever the cache held before and whatever legacy rows there are.

module PatchedSettings {
  import opened Text
  import opened SettingsTable
  import opened AppSettings

  // ---- The migration, key by key -----------------------------------------------------

  /** The seconds waiting under the key's old name. */
  function LegacyFor(t: Table, key: string): Option<nat> {
    if key == NEW_ERC20 then LegacySeconds(t, OLD_ERC20)
    else if key == NEW_TRC20 then LegacySeconds(t, OLD_TRC20)
    else None
  }

  /** The key the old name migrates to; other keys stand for themselves. */
  function NewName(key: string): string {
    if key == OLD_ERC20 then NEW_ERC20 else if key == OLD_TRC20 then NEW_TRC20 else key
  }

  /**
   * What the migration makes of each key: one without a value takes the seconds waiting
   * for it, the name they waited under goes, and every other key keeps its value.
   */
  ghost predicate MigratedAt(t: Table, soft: bool, after: map<string, string>, key: string) {
    if LegacyFor(t, key).Some? && !HasValue(t, key, soft) then
      key in after && after[key] == Print(LegacyFor(t, key).value)
    else if NewName(key) != key && LegacyFor(t, NewName(key)).Some? && !HasValue(t, NewName(key), soft) then
      key !in after
    else SameValue(Contents(t.rows, soft), after, key)
  }

  lemma Names()
    ensures NEW_ERC20 != NEW_TRC20 && OLD_ERC20 != OLD_TRC20
    ensures {OLD_ERC20, OLD_TRC20} !! {NEW_ERC20, NEW_TRC20}
  {
    FourKeys();
  }

  /** One pair alone, at any key. */
  lemma PairAt(t: Table, oldKey: string, newKey: string, soft: bool, key: string)
    requires Valid(t) && oldKey != newKey
    ensures var after := Contents(MigratePair(t, oldKey, newKey, soft).rows, soft);
            if Settled(t, oldKey, newKey, soft) || key !in {oldKey, newKey} then
              SameValue(Contents(t.rows, soft), after, key)
            else if key == newKey then key in after && after[key] == Print(LegacySeconds(t, oldKey).value)
            else key !in after
  {
    MigratePairEffect(t, oldKey, newKey, soft);
  }

  /** MigratedAt, told from the two pairs one after the other. */
  predicate PairMoved(before: map<string, string>, after: map<string, string>, settled: bool, seconds: Option<nat>,
    oldKey: string, newKey: string, key: string)
  {
    if settled || seconds.None? || key !in {oldKey, newKey} then SameValue(before, after, key)
    else if key == newKey then key in after && after[key] == Print(seconds.value)
    else key !in after
  }

  lemma PairMoves(t: Table, oldKey: string, newKey: string, soft: bool, key: string)
    requires Valid(t) && oldKey != newKey
    ensures Valid(MigratePair(t, oldKey, newKey, soft))
    ensures PairMoved(Contents(t.rows, soft), Contents(MigratePair(t, oldKey, newKey, soft).rows, soft),
                      HasValue(t, newKey, soft), LegacySeconds(t, oldKey), oldKey, newKey, key)
  {
    PairAt(t, oldKey, newKey, soft, key);
    MigratePairEffect(t, oldKey, newKey, soft);
  }

  lemma TwoPairsMove(t: Table, a: map<string, string>, b: map<string, string>, soft: bool, key: string)
    requires PairMoved(Contents(t.rows, soft), a, HasValue(t, NEW_ERC20, soft), LegacySeconds(t, OLD_ERC20),
      OLD_ERC20, NEW_ERC20, key)
    requires PairMoved(a, b, HasValue(t, NEW_TRC20, soft), LegacySeconds(t, OLD_TRC20), OLD_TRC20, NEW_TRC20, key)
    ensures MigratedAt(t, soft, b, key)
  {
    Names();
    FourKeys();
  }

  lemma MigratedEverywhere(t: Table, soft: bool, key: string)
    requires Valid(t)
    ensures MigratedAt(t, soft, Contents(Migrate(t, soft).rows, soft), key)
  {
    FourKeys();
    var first := MigratePair(t, OLD_ERC20, NEW_ERC20, soft);
    PairMoves(t, OLD_ERC20, NEW_ERC20, soft, key);
    OtherPairUntouched(t, OLD_ERC20, NEW_ERC20, soft, OLD_TRC20, NEW_TRC20);
    PairMoves(first, OLD_TRC20, NEW_TRC20, soft, key);
    TwoPairsMove(t, Contents(first.rows, soft), Contents(Migrate(t, soft).rows, soft), soft, key);
  }

  /**
   * What one load does to the two names of each rail's poll interval, and to any other key.
   * If the new name is unset or blank, and some row of the old name, deleted or not, holds
   * at least one millisecond, then the new name gets the seconds they make, rounded up, and
   * the old name goes. Otherwise all stays as it is.
   */
  lemma MigrationMeaning(t: Table, soft: bool, rail: string, key: string)
    requires Valid(t) && rail in ["ERC20", "TRC20"]
    ensures LoadMoves(t, soft, "WORKER_POLL_INTERVAL_MS_" + rail, "WORKER_POLL_INTERVAL_SEC_" + rail)
    ensures !("WORKER_POLL_INTERVAL_" <= key) ==>
              SameValue(Contents(t.rows, soft), Contents(Migrate(t, soft).rows, soft), key)
  {
    RailNames(rail);
    Names();
    MovesByLoad(t, soft, OLD_ERC20, NEW_ERC20);
    MovesByLoad(t, soft, OLD_TRC20, NEW_TRC20);
    if !("WORKER_POLL_INTERVAL_" <= key) {
      OtherNames(key);
      MigratedEverywhere(t, soft, key);
    }
  }

  ghost predicate LoadMoves(t: Table, soft: bool, oldKey: string, newKey: string) {
    var before, after := Contents(t.rows, soft), Contents(Migrate(t, soft).rows, soft);
    if HoldsMilliseconds(t, oldKey) && (newKey !in before || Trim(before[newKey]) == "") then
      var ms := ParseInt(Trim(Contents(t.rows, false)[oldKey])).value;
      && oldKey !in after && newKey in after
      && exists s: nat :: 1000 * (s - 1) < ms <= 1000 * s && after[newKey] == Print(s)
    else SameValue(before, after, oldKey) && SameValue(before, after, newKey)
  }

  lemma MovesByLoad(t: Table, soft: bool, oldKey: string, newKey: string)
    requires Valid(t) && (oldKey, newKey) in [(OLD_ERC20, NEW_ERC20), (OLD_TRC20, NEW_TRC20)]
    ensures LoadMoves(t, soft, oldKey, newKey)
  {
    Names();
    MigratedEverywhere(t, soft, oldKey);
    MigratedEverywhere(t, soft, newKey);
    if LegacySeconds(t, oldKey).Some? {
      assert MakeSeconds(t, oldKey, LegacySeconds(t, oldKey).value);
    }
  }

  lemma RailNames(rail: string)
    requires rail in ["ERC20", "TRC20"]
    ensures rail == "ERC20" ==>
      "WORKER_POLL_INTERVAL_MS_" + rail == OLD_ERC20 && "WORKER_POLL_INTERVAL_SEC_" + rail == NEW_ERC20
    ensures rail == "TRC20" ==>
      "WORKER_POLL_INTERVAL_MS_" + rail == OLD_TRC20 && "WORKER_POLL_INTERVAL_SEC_" + rail == NEW_TRC20
  {}

  lemma OtherNames(key: string)
    requires !("WORKER_POLL_INTERVAL_" <= key)
    ensures key !in [OLD_ERC20, OLD_TRC20, NEW_ERC20, NEW_TRC20]
  {}

  // ---- The patch and the reload ------------------------------------------------------

  /** The table after an accepted patch and the reload. */
  function Reloaded(
      t: Table, defs: seq<Def>, patch: Patch, cache: map<string, string>, json: JsonNormalizer, soft: bool): Table
    requires Plan(defs, patch, cache, json).Ok?
  {
    Migrate(ApplyAll(t, Plan(defs, patch, cache, json).value, soft), soft)
  }

  /** Once the patch is written the key will have a value: a submitted one, or the one it has. */
  ghost predicate WillHaveValue(
      t: Table, defs: seq<Def>, patch: Patch, cache: map<string, string>, soft: bool, key: string) {
    if Known(defs, key) && Submitted(patch, key).Some? && !Dropped(defs, patch, cache, key)
    then !Blank(Submitted(patch, key).value)
    else HasValue(t, key, soft)
  }

  /** A blank for a sensitive key is lost if the cache lacks a row that the table has. */
  ghost predicate ClearIsLost(
      t: Table, defs: seq<Def>, patch: Patch, cache: map<string, string>, soft: bool, key: string) {
    Dropped(defs, patch, cache, key) && key in Contents(t.rows, soft)
  }

  /** The reload itself changes the key: seconds move into it, or out of it. */
  ghost predicate LegacyMoves(
      t: Table, defs: seq<Def>, patch: Patch, cache: map<string, string>, soft: bool, key: string) {
    && LegacyFor(t, NewName(key)).Some? && !WillHaveValue(t, defs, patch, cache, soft, NewName(key))
    && (NewName(key) != key ==> key in Contents(t.rows, soft))
  }

  lemma WrittenAt(
    t: Table, defs: seq<Def>, patch: Patch, cache: map<string, string>, json: JsonNormalizer, soft: bool, key: string)
    requires Valid(t) && ValidRegistry(defs) && NeverBlank(json) && Plan(defs, patch, cache, json).Ok?
    ensures var w := ApplyAll(t, Plan(defs, patch, cache, json).value, soft);
            && Valid(w)
            && (if Dropped(defs, patch, cache, key) then SameValue(Contents(t.rows, soft), Contents(w.rows, soft), key)
                else PatchedAt(defs, patch, json, Contents(t.rows, soft), Contents(w.rows, soft), key))
            && (HasValue(w, key, soft) <==> WillHaveValue(t, defs, patch, cache, soft, key))
  {
    var ops := Plan(defs, patch, cache, json).value;
    TableRefinesMap(t, ops, soft);
    PlanDoesThePatch(defs, patch, cache, json, Contents(t.rows, soft), key);
    if Known(defs, key) && Submitted(patch, key).Some? && !Blank(Submitted(patch, key).value) {
      var i :| 0 <= i < |defs| && defs[i].key == key;
      TrimIdempotent(Submitted(patch, key).value);
      ValidatedNotBlank(defs[i], Trim(Submitted(patch, key).value), json);
    }
  }

  lemma LegacyKept(
      t: Table, defs: seq<Def>, patch: Patch, cache: map<string, string>, json: JsonNormalizer, soft: bool, key: string)
    requires Valid(t) && ValidRegistry(defs) && Plan(defs, patch, cache, json).Ok?
    ensures LegacyFor(ApplyAll(t, Plan(defs, patch, cache, json).value, soft), key) == LegacyFor(t, key)
  {
    var ops := Plan(defs, patch, cache, json).value;
    PlannedKeys(defs, patch, cache, json);
    OtherKeysKept(t, ops, soft, OLD_ERC20);
    OtherKeysKept(t, ops, soft, OLD_TRC20);
  }

  /**
   * After an accepted patch and the reload the cache holds, at a key, exactly what the
   * patch makes of it (its normalized value, nothing for a blank, the value it had if not
   * submitted), unless its clearing was lost to a stale cache or legacy seconds moved.
   * Both exceptions can be told before the patch is applied.
   */
  lemma PatchReachesCacheIff(
    t: Table, defs: seq<Def>, patch: Patch, cache: map<string, string>, json: JsonNormalizer, soft: bool, key: string)
    requires Valid(t) && ValidRegistry(defs) && NeverBlank(json) && Plan(defs, patch, cache, json).Ok?
    ensures PatchedAt(defs, patch, json, Contents(t.rows, soft),
                      Contents(Reloaded(t, defs, patch, cache, json, soft).rows, soft), key)
       <==> !ClearIsLost(t, defs, patch, cache, soft, key) && !LegacyMoves(t, defs, patch, cache, soft, key)
  {
    var w := ApplyAll(t, Plan(defs, patch, cache, json).value, soft);
    Names();
    WrittenAt(t, defs, patch, cache, json, soft, key);
    WrittenAt(t, defs, patch, cache, json, soft, NewName(key));
    LegacyKept(t, defs, patch, cache, json, soft, NewName(key));
    MigratedEverywhere(w, soft, key);
    if LegacyFor(t, NewName(key)).Some? {
      PrintNotBlank(LegacyFor(t, NewName(key)).value);
    }
  }

  /**
   * What any registered setting resolves to after an accepted patch and the reload: the
   * legacy seconds if it is left without a value and they wait for it; otherwise its
   * normalized value if one was submitted, the environment's if it was cleared, and what
   * it was before in every other case.
   */
  lemma PatchedSettingsResolve(
    t: Table, defs: seq<Def>, patch: Patch, cache: map<string, string>, json: JsonNormalizer, soft: bool, i: nat,
      fallback: string)
    requires Valid(t) && ValidRegistry(defs) && NeverBlank(json) && Plan(defs, patch, cache, json).Ok? && i < |defs|
    ensures var key := defs[i].key;
            var after := Contents(Reloaded(t, defs, patch, cache, json, soft).rows, soft);
            var sent := Submitted(patch, key);
            && (sent.Some? && !Blank(sent.value) ==> Validate(defs[i], Trim(sent.value), json).Ok?)
            && ResolveString(defs, after, key, fallback) ==
               if LegacyFor(t, key).Some? && !WillHaveValue(t, defs, patch, cache, soft, key) then
                 Print(LegacyFor(t, key).value)
               else if sent.Some? && !Blank(sent.value) then Validate(defs[i], Trim(sent.value), json).value
               else if sent.Some? && !Dropped(defs, patch, cache, key) then fallback
               else ResolveString(defs, Contents(t.rows, soft), key, fallback)
  {
    var key := defs[i].key;
    var w := ApplyAll(t, Plan(defs, patch, cache, json).value, soft);
    assert Known(defs, key) && NewName(key) == key;
    WrittenAt(t, defs, patch, cache, json, soft, key);
    LegacyKept(t, defs, patch, cache, json, soft, key);
    MigratedEverywhere(w, soft, key);
    if LegacyFor(t, key).Some? {
      PrintNotBlank(LegacyFor(t, key).value);
    }
    if Submitted(patch, key).Some? && !Blank(Submitted(patch, key).value) {
      TrimIdempotent(Submitted(patch, key).value);
      ValidatedNotBlank(defs[i], Trim(Submitted(patch, key).value), json);
    }
  }

  /** The typed getters read a submitted value as the number or flag that was entered. */
  lemma PatchedValuesReadBack(
    t: Table, defs: seq<Def>, patch: Patch, cache: map<string, string>, json: JsonNormalizer, soft: bool, i: nat)
    requires Valid(t) && ValidRegistry(defs) && NeverBlank(json) && Plan(defs, patch, cache, json).Ok? && i < |defs|
    requires Submitted(patch, defs[i].key).Some? && !Blank(Submitted(patch, defs[i].key).value)
    ensures var after := Contents(Reloaded(t, defs, patch, cache, json, soft).rows, soft);
            var key, kind, text := defs[i].key, defs[i].kind, Trim(Submitted(patch, defs[i].key).value);
            && (kind.IntKind? ==> forall f :: Some(ResolveInt(defs, after, key, f)) == ParseInt(text))
            && (kind.BigIntKind? ==> forall f :: Some(ResolveBigInt(defs, after, key, f)) == BigIntOf(text))
            && (kind.BoolKind? ==>
              forall f :: ResolveBool(defs, after, key, f) == (Lower(text) in ["true", "1", "yes"]))
            && (kind.BoolTronGateway? ==>
                  forall f :: ResolveTronGateway(defs, after, key, f) == (Lower(text) !in ["false", "0", "no"]))
  {
    var key, sent := defs[i].key, Submitted(patch, defs[i].key).value;
    var after := Contents(Reloaded(t, defs, patch, cache, json, soft).rows, soft);
    assert Known(defs, key) && NewName(key) == key;
    PatchReachesCacheIff(t, defs, patch, cache, json, soft, key);
    TrimIdempotent(sent);
    NormalizedValuesReadBack(defs, defs[i], Trim(sent), json, after);
  }

  // ---- A cleared interval that comes back --------------------------------------------

  /** A legacy row deleted long ago, and the interval the administrator set since. */
  const LEFTOVER :=
    Table([Row(0, "WORKER_POLL_INTERVAL_MS_TRC20", "4001", true),
           Row(1, "WORKER_POLL_INTERVAL_SEC_TRC20", "60", false)], 2)

  lemma FiveSeconds()
    ensures ParseInt(Trim("4001")) == Some(4001) && CeilSeconds(4001) == 5 && Print(5) == "5"
  {
    TrimOfTrimmed("4001");
    assert Print(5) == "5" && Print(4) == "4" && Print(40) == "40" && Print(400) == "400" && Print(4001) == "4001";
    ParseIntOfPrintInt(4001);
  }

  lemma LeftoverLegacy()
    ensures Valid(LEFTOVER) && LegacySeconds(LEFTOVER, OLD_TRC20) == Some(5)
  {
    Names();
    FiveSeconds();
    ContentsOf(LEFTOVER.rows, false, OLD_TRC20);
    assert LEFTOVER.rows[0].key == OLD_TRC20;
  }

  /** Clearing the interval of a minute brings back the five seconds of the deleted row. */
  lemma ClearedIntervalReturns()
    ensures Valid(LEFTOVER)
    ensures var after := Contents(Migrate(SoftDelete(LEFTOVER, NEW_TRC20, true), true).rows, true);
            "WORKER_POLL_INTERVAL_SEC_TRC20" in after && after["WORKER_POLL_INTERVAL_SEC_TRC20"] == "5"
  {
    var cleared := SoftDelete(LEFTOVER, NEW_TRC20, true);
    LeftoverLegacy();
    FourKeys();
    Names();
    FiveSeconds();
    ClearingKeepsLegacy(LEFTOVER, OLD_TRC20, NEW_TRC20, true);
    MigratedEverywhere(cleared, true, NEW_TRC20);
    assert LegacyFor(cleared, NEW_TRC20) == Some(5);
  }

  // ---- A clearing that is lost -------------------------------------------------------

  const KEY_ROW := Table([Row(0, "TRON_API_KEY", "k", false)], 1)
  const KEY_DEF := Def("TRON_API_KEY", StringKind, true)
  const CLEAR_KEY: Patch := [("TRON_API_KEY", Some(""))]

  /**
   * Another process stored the key after this one filled its cache. Here the administrator
   * clears it: the patch is accepted, plans nothing, and the key stays.
   */
  lemma ClearingIsLost(json: JsonNormalizer)
    ensures Valid(KEY_ROW) && ValidRegistry([KEY_DEF]) && FirstUnknown([KEY_DEF], CLEAR_KEY).None?
    ensures ClearIsLost(KEY_ROW, [KEY_DEF], CLEAR_KEY, map[], true, "TRON_API_KEY")
    ensures Plan([KEY_DEF], CLEAR_KEY, map[], json) == Ok([])
    ensures Contents(Reloaded(KEY_ROW, [KEY_DEF], CLEAR_KEY, map[], json, true).rows, true) ==
            map["TRON_API_KEY" := "k"]
  {
    KeyRowContents(true);
    KeyRowContents(false);
    KeyRowStays();
    NothingPlanned(json);
  }

  lemma NothingPlanned(json: JsonNormalizer)
    ensures ValidRegistry([KEY_DEF]) && FirstUnknown([KEY_DEF], CLEAR_KEY).None?
    ensures Dropped([KEY_DEF], CLEAR_KEY, map[], "TRON_API_KEY")
    ensures Plan([KEY_DEF], CLEAR_KEY, map[], json) == Ok([])
  {
    var key := "TRON_API_KEY";
    OtherName(key);
    assert [KEY_DEF][0].key == key && Known([KEY_DEF], key);
    PlanOfOne(KEY_DEF, CLEAR_KEY, map[], json);
    assert Submitted(CLEAR_KEY, key) == Some("") && Trim("") == "";
  }

  lemma KeyRowStays()
    ensures Migrate(KEY_ROW, true) == KEY_ROW
  {
    OtherName("TRON_API_KEY");
    KeyRowContents(false);
    assert LegacySeconds(KEY_ROW, OLD_ERC20).None? && LegacySeconds(KEY_ROW, OLD_TRC20).None?;
    MigratePairEffect(KEY_ROW, OLD_ERC20, NEW_ERC20, true);
    MigratePairEffect(KEY_ROW, OLD_TRC20, NEW_TRC20, true);
  }

  lemma PlanOfOne(def: Def, patch: Patch, cache: map<string, string>, json: JsonNormalizer)
    ensures Plan([def], patch, cache, json) == PlanOne(def, patch, cache, json)
  {
    var defs := [def];
    assert defs[..|defs| - 1] == [] && defs[|defs| - 1] == def;
    var one := PlanOne(def, patch, cache, json);
    if one.Ok? {
      assert [] + one.value == one.value;
    }
  }

  lemma OtherName(key: string)
    requires key == "TRON_API_KEY"
    ensures key !in [OLD_ERC20, OLD_TRC20, NEW_ERC20, NEW_TRC20]
  {
    assert key[0] == 'T';
    assert OLD_ERC20[0] == 'W' && OLD_TRC20[0] == 'W' && NEW_ERC20[0] == 'W' && NEW_TRC20[0] == 'W';
  }

  lemma KeyRowContents(soft: bool)
    ensures Contents(KEY_ROW.rows, soft) == map["TRON_API_KEY" := "k"]
  {
    assert KEY_ROW.rows[..0] == [] && KEY_ROW.rows[1..] == [];
    assert Contents([], soft) == map[];
  }
}
