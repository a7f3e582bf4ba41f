// Runtime settings: a process-wide cache over the app_settings table, the migration of
// legacy keys at every load, and the two-phase patch of the administrator's form.

module AppSettings {
  import opened Text
  import opened SettingsTable
  import Amounts

  // ---- Registry and validation -------------------------------------------------------

  datatype Kind = StringKind | IntKind | BoolKind | BoolTronGateway | BigIntKind | Usdt6 | JsonKind | CommaOrigins

  datatype Def = Def(key: string, kind: Kind, sensitive: bool)

  datatype SettingError = UnknownKey(key: string) | InvalidValue(key: string)

  /** JSON.parse, the object test and re-serialisation of a key's text; None where they throw. */
  type JsonNormalizer = (string, string) -> Option<string>

  ghost predicate NeverBlank(json: JsonNormalizer) {
    forall key, s :: json(key, s).Some? ==> !Blank(json(key, s).value)
  }

  const OLD_ERC20 := "WORKER_POLL_INTERVAL_MS_ERC20"
  const NEW_ERC20 := "WORKER_POLL_INTERVAL_SEC_ERC20"
  const OLD_TRC20 := "WORKER_POLL_INTERVAL_MS_TRC20"
  const NEW_TRC20 := "WORKER_POLL_INTERVAL_SEC_TRC20"

  ghost predicate ValidRegistry(defs: seq<Def>) {
    && (forall i, j :: 0 <= i < j < |defs| ==> defs[i].key != defs[j].key)
    && (forall i :: 0 <= i < |defs| ==> defs[i].key !in [OLD_ERC20, OLD_TRC20])
  }

  predicate Known(defs: seq<Def>, key: string) {
    exists i :: 0 <= i < |defs| && defs[i].key == key
  }

  /** The limits some integer settings have. */
  predicate InRange(key: string, n: int) {
    if key == "EVM_DEPOSIT_SCAN_MAX_BLOCKS_PER_TICK" then 1 <= n <= 50
    else if key in [NEW_ERC20, NEW_TRC20] then 1 <= n
    else if key in ["DEPOSIT_SCANNER_API_MAX_PER_SECOND_ERC20", "DEPOSIT_SCANNER_API_MAX_PER_SECOND_TRC20"] then
      0 <= n <= 500
    else if key == "CHECKOUT_EXPIRY_CRON_MINUTES" then 1 <= n <= 59
    else if key == "CHECKOUT_CREATED_EXPIRY_HOURS" then 1 <= n <= 8760
    else if key == "GATEWAY_DEPOSIT_ADDRESS_COOLDOWN_SEC" then 0 <= n <= 86400
    else true
  }

  function Validate(def: Def, stored: string, json: JsonNormalizer): Result<string, SettingError> {
    var s := Trim(stored);
    match def.kind
    case IntKind =>
      (match ParseInt(s)
       case None => Err(InvalidValue(def.key))
       case Some(n) => if InRange(def.key, n) then Ok(PrintInt(n)) else Err(InvalidValue(def.key)))
    case BoolKind | BoolTronGateway =>
      if Lower(s) in ["true", "1", "yes"] then Ok("true")
      else if Lower(s) in ["false", "0", "no"] then Ok("false")
      else Err(InvalidValue(def.key))
    case BigIntKind =>
      (match BigIntOf(s)
       case None => Err(InvalidValue(def.key))
       case Some(b) =>
         if b < 0 || (b < 1 && def.key == "SWEEP_TRX_TOPUP_SUN") then Err(InvalidValue(def.key)) else Ok(PrintInt(b)))
    case Usdt6 =>
      (match Amounts.ParseAdminUsdt(s)
       case Err(_) => Err(InvalidValue(def.key))
       case Ok(atomic) => Ok(atomic))
    case JsonKind =>
      (match json(def.key, s)
       case None => Err(InvalidValue(def.key))
       case Some(text) => Ok(text))
    case CommaOrigins => Ok(s)
    case StringKind => Ok(stored)
  }

  lemma LimitedKeys()
    ensures "EVM_DEPOSIT_SCAN_MAX_BLOCKS_PER_TICK" != "GATEWAY_DEPOSIT_ADDRESS_COOLDOWN_SEC"
    ensures "WORKER_POLL_INTERVAL_SEC_ERC20" != "WORKER_POLL_INTERVAL_SEC_TRC20"
    ensures "DEPOSIT_SCANNER_API_MAX_PER_SECOND_ERC20" != "DEPOSIT_SCANNER_API_MAX_PER_SECOND_TRC20"
  {
    assert "EVM_DEPOSIT_SCAN_MAX_BLOCKS_PER_TICK"[0] != "GATEWAY_DEPOSIT_ADDRESS_COOLDOWN_SEC"[0];
    assert "WORKER_POLL_INTERVAL_SEC_ERC20"[25] != "WORKER_POLL_INTERVAL_SEC_TRC20"[25];
    assert "DEPOSIT_SCANNER_API_MAX_PER_SECOND_ERC20"[35] != "DEPOSIT_SCANNER_API_MAX_PER_SECOND_TRC20"[35];
  }

  lemma RangeIs(key: string, n: int)
    ensures InRange(key, n) <==>
      && (key == "EVM_DEPOSIT_SCAN_MAX_BLOCKS_PER_TICK" ==> 1 <= n <= 50)
      && (key == "WORKER_POLL_INTERVAL_SEC_ERC20" ==> 1 <= n)
      && (key == "WORKER_POLL_INTERVAL_SEC_TRC20" ==> 1 <= n)
      && (key == "DEPOSIT_SCANNER_API_MAX_PER_SECOND_ERC20" ==> 0 <= n <= 500)
      && (key == "DEPOSIT_SCANNER_API_MAX_PER_SECOND_TRC20" ==> 0 <= n <= 500)
      && (key == "CHECKOUT_EXPIRY_CRON_MINUTES" ==> 1 <= n <= 59)
      && (key == "CHECKOUT_CREATED_EXPIRY_HOURS" ==> 1 <= n <= 8760)
      && (key == "GATEWAY_DEPOSIT_ADDRESS_COOLDOWN_SEC" ==> 0 <= n <= 86400)
  {
    LimitedKeys();
  }

  /**
   * Which texts each kind of setting accepts and what is stored for them: integers within
   * the limits of their key, six words for a flag, non-negative big integers, amounts of at
   * least one millionth with at most six decimals, everything else as it is or trimmed.
   */
  lemma ValidateMeans(def: Def, stored: string, json: JsonNormalizer)
    ensures def.kind.IntKind? ==>
      var n, key := ParseInt(Trim(stored)), def.key;
      Validate(def, stored, json) ==
        if n.Some?
          && (key == "EVM_DEPOSIT_SCAN_MAX_BLOCKS_PER_TICK" ==> 1 <= n.value <= 50)
          && (key == "WORKER_POLL_INTERVAL_SEC_ERC20" ==> 1 <= n.value)
          && (key == "WORKER_POLL_INTERVAL_SEC_TRC20" ==> 1 <= n.value)
          && (key == "DEPOSIT_SCANNER_API_MAX_PER_SECOND_ERC20" ==> 0 <= n.value <= 500)
          && (key == "DEPOSIT_SCANNER_API_MAX_PER_SECOND_TRC20" ==> 0 <= n.value <= 500)
          && (key == "CHECKOUT_EXPIRY_CRON_MINUTES" ==> 1 <= n.value <= 59)
          && (key == "CHECKOUT_CREATED_EXPIRY_HOURS" ==> 1 <= n.value <= 8760)
          && (key == "GATEWAY_DEPOSIT_ADDRESS_COOLDOWN_SEC" ==> 0 <= n.value <= 86400)
        then Ok(PrintInt(n.value)) else Err(InvalidValue(key))
    ensures def.kind.BoolKind? || def.kind.BoolTronGateway? ==>
      var word := Lower(Trim(stored));
      && (word == "true" || word == "1" || word == "yes" ==> Validate(def, stored, json) == Ok("true"))
      && (word == "false" || word == "0" || word == "no" ==> Validate(def, stored, json) == Ok("false"))
      && (word !in ["true", "1", "yes", "false", "0", "no"] ==>
            Validate(def, stored, json) == Err(InvalidValue(def.key)))
    ensures def.kind.BigIntKind? ==>
      var b := BigIntOf(Trim(stored));
      Validate(def, stored, json) ==
        if b.Some? && b.value >= 0 && (def.key == "SWEEP_TRX_TOPUP_SUN" ==> b.value >= 1) then Ok(PrintInt(b.value))
        else Err(InvalidValue(def.key))
    ensures def.kind.Usdt6? ==>
      var s := Trim(Trim(stored));
      Validate(def, stored, json) ==
        if Amounts.WellFormed(s) && Amounts.WholePart(s) != "" && |Amounts.FracPart(s)| <= 6
          && Amounts.FloorAtomic(s, 6) >= 1
        then Ok(Print(Amounts.FloorAtomic(s, 6))) else Err(InvalidValue(def.key))
    ensures def.kind.JsonKind? ==>
      var text := json(def.key, Trim(stored));
      Validate(def, stored, json) == if text.Some? then Ok(text.value) else Err(InvalidValue(def.key))
    ensures def.kind.CommaOrigins? ==> Validate(def, stored, json) == Ok(Trim(stored))
    ensures def.kind.StringKind? ==> Validate(def, stored, json) == Ok(stored)
  {
    match def.kind
    case IntKind => if ParseInt(Trim(stored)).Some? { RangeIs(def.key, ParseInt(Trim(stored)).value); }
    case Usdt6 => Amounts.AdminParseIsExact(Trim(stored));
    case _ =>
  }

  /** A flag is stored as one of two words, which say whether a word for yes was entered. */
  lemma ValidatedFlag(def: Def, stored: string, json: JsonNormalizer)
    requires (def.kind.BoolKind? || def.kind.BoolTronGateway?) && Validate(def, stored, json).Ok?
    ensures var v := Validate(def, stored, json).value;
            && !Blank(v) && Lower(Trim(v)) == v && v in ["true", "false"]
            && (v == "true" <==> Lower(Trim(stored)) in ["true", "1", "yes"])
            && (v == "true" <==> Lower(Trim(stored)) !in ["false", "0", "no"])
  {
    FlagWords();
  }

  lemma ValidatedNumber(def: Def, stored: string, json: JsonNormalizer)
    requires (def.kind.IntKind? || def.kind.BigIntKind?) && Validate(def, stored, json).Ok?
    ensures var n := if def.kind.IntKind? then ParseInt(Trim(stored)) else BigIntOf(Trim(stored));
            n.Some? && Validate(def, stored, json).value == PrintInt(n.value) && !Blank(PrintInt(n.value))
  {
    IntReadsBack((if def.kind.IntKind? then ParseInt(Trim(stored)) else BigIntOf(Trim(stored))).value);
  }

  lemma ValidatedUsdt(def: Def, stored: string, json: JsonNormalizer)
    requires def.kind.Usdt6? && Validate(def, stored, json).Ok?
    ensures !Blank(Validate(def, stored, json).value)
  {
    Amounts.AdminParseIsExact(Trim(stored));
    DigitsAreTrimmed(Validate(def, stored, json).value);
  }

  lemma ValidatedText(def: Def, stored: string, json: JsonNormalizer)
    requires def.kind in {StringKind, JsonKind, CommaOrigins} && NeverBlank(json) && !Blank(stored)
    requires Validate(def, stored, json).Ok?
    ensures !Blank(Validate(def, stored, json).value)
  {
    TrimIdempotent(stored);
  }

  lemma ValidatedNotBlank(def: Def, stored: string, json: JsonNormalizer)
    requires NeverBlank(json) && !Blank(stored)
    requires Validate(def, stored, json).Ok?
    ensures !Blank(Validate(def, stored, json).value)
  {
    match def.kind
    case BoolKind | BoolTronGateway => ValidatedFlag(def, stored, json);
    case IntKind | BigIntKind => ValidatedNumber(def, stored, json);
    case Usdt6 => ValidatedUsdt(def, stored, json);
    case _ => ValidatedText(def, stored, json);
  }

  lemma FlagWords()
    ensures Trim("true") == "true" && Trim("false") == "false"
    ensures Lower("true") == "true" && Lower("false") == "false"
  {}

  lemma IntReadsBack(n: int)
    ensures !Blank(PrintInt(n))
    ensures ParseInt(Trim(PrintInt(n))) == Some(n) && BigIntOf(Trim(PrintInt(n))) == Some(n)
  {
    Amounts.IntIsTrimmed(n);
    ParseIntOfPrintInt(n);
    Amounts.BigIntOfPrintInt(n);
  }

  // ---- Migration of legacy keys ------------------------------------------------------

  /** Whole seconds, rounded up. */
  function CeilSeconds(ms: int): (s: nat)
    requires ms >= 1
    ensures 1000 * (s - 1) < ms <= 1000 * s
  {
    (ms + 999) / 1000
  }

  /** One pair: the newest row of the old key, tombstone or not, moves to the new key. */
  function MigratePair(t: Table, oldKey: string, newKey: string, soft: bool): Table {
    var o := FindLatest(t.rows, oldKey, false);
    if o == |t.rows| || Blank(t.rows[o].value) then t
    else
      var active := FindFirst(t.rows, newKey, soft);
      if active < |t.rows| && !Blank(t.rows[active].value) then t
      else
        match ParseInt(Trim(t.rows[o].value))
        case None => t
        case Some(ms) =>
          if ms < 1 then t
          else SoftDelete(Upsert(t, newKey, Print(CeilSeconds(ms)), soft), oldKey, soft)
  }

  function Migrate(t: Table, soft: bool): Table {
    MigratePair(MigratePair(t, OLD_ERC20, NEW_ERC20, soft), OLD_TRC20, NEW_TRC20, soft)
  }

  /** Some row of the key, deleted or not, holds at least one millisecond. */
  predicate HoldsMilliseconds(t: Table, key: string) {
    && key in Contents(t.rows, false)
    && var ms := ParseInt(Trim(Contents(t.rows, false)[key]));
       ms.Some? && ms.value >= 1
  }

  /** They make so many seconds, rounded up. */
  predicate MakeSeconds(t: Table, key: string, s: nat)
    requires HoldsMilliseconds(t, key)
  {
    var ms := ParseInt(Trim(Contents(t.rows, false)[key])).value;
    1000 * (s - 1) < ms <= 1000 * s
  }

  /** The seconds a key's stored value in milliseconds migrates to, if it can. */
  function LegacySeconds(t: Table, oldKey: string): (s: Option<nat>)
    ensures s.Some? <==> HoldsMilliseconds(t, oldKey)
    ensures s.Some? ==> MakeSeconds(t, oldKey, s.value)
  {
    var stored := Contents(t.rows, false);
    if oldKey !in stored then None
    else
      match ParseInt(Trim(stored[oldKey]))
      case None => None
      case Some(ms) => if ms < 1 then None else Some(CeilSeconds(ms))
  }

  predicate HasValue(t: Table, key: string, soft: bool) {
    key in Contents(t.rows, soft) && !Blank(Contents(t.rows, soft)[key])
  }

  /** Nothing left to migrate for this pair. */
  predicate Settled(t: Table, oldKey: string, newKey: string, soft: bool) {
    LegacySeconds(t, oldKey).None? || HasValue(t, newKey, soft)
  }

  lemma Found(t: Table, key: string, soft: bool)
    requires Valid(t)
    ensures var i := FindFirst(t.rows, key, soft);
            && (i < |t.rows| <==> key in Contents(t.rows, soft))
            && (i < |t.rows| ==> Contents(t.rows, soft)[key] == t.rows[i].value)
    ensures var i := FindLatest(t.rows, key, false);
            && (i < |t.rows| <==> key in Contents(t.rows, false))
            && (i < |t.rows| ==> Contents(t.rows, false)[key] == t.rows[i].value)
  {
    ContentsOf(t.rows, soft, key);
    ContentsOf(t.rows, false, key);
  }

  lemma BlankIsNoNumber(text: string)
    requires Blank(text)
    ensures ParseInt(Trim(text)) == None
  {
    assert ParseInt("") == None;
  }

  lemma MigratePairCases(t: Table, oldKey: string, newKey: string, soft: bool)
    requires Valid(t)
    ensures Settled(t, oldKey, newKey, soft) ==> MigratePair(t, oldKey, newKey, soft) == t
    ensures !Settled(t, oldKey, newKey, soft) ==>
              MigratePair(t, oldKey, newKey, soft)
              == SoftDelete(Upsert(t, newKey, Print(LegacySeconds(t, oldKey).value), soft), oldKey, soft)
  {
    Found(t, oldKey, soft);
    Found(t, newKey, soft);
    var o := FindLatest(t.rows, oldKey, false);
    if o < |t.rows| && Blank(t.rows[o].value) {
      BlankIsNoNumber(t.rows[o].value);
    }
  }

  /** The new key holds the seconds and the old key is gone, but for the tombstone of a soft delete. */
  predicate Moved(before: Table, after: Table, oldKey: string, newKey: string, soft: bool, s: nat) {
    && Contents(after.rows, soft) == Contents(before.rows, soft)[newKey := Print(s)] - {oldKey}
    && (soft ==> Contents(after.rows, false) == Contents(before.rows, false)[newKey := Print(s)])
  }

  lemma MigratePairEffect(t: Table, oldKey: string, newKey: string, soft: bool)
    requires Valid(t)
    ensures Valid(MigratePair(t, oldKey, newKey, soft))
    ensures Settled(t, oldKey, newKey, soft) ==> MigratePair(t, oldKey, newKey, soft) == t
    ensures !Settled(t, oldKey, newKey, soft) ==>
              Moved(t, MigratePair(t, oldKey, newKey, soft), oldKey, newKey, soft, LegacySeconds(t, oldKey).value)
  {
    MigratePairCases(t, oldKey, newKey, soft);
    if !Settled(t, oldKey, newKey, soft) {
      var text := Print(LegacySeconds(t, oldKey).value);
      UpsertRefines(t, newKey, text, soft);
      SoftDeleteRefines(Upsert(t, newKey, text, soft), oldKey, soft);
    }
  }

  /**
   * A pair migrates exactly when its new key is unset or blank and some row of its old key,
   * deleted or not, holds at least one millisecond. Then the new key gets the seconds those
   * milliseconds make, rounded up, the old key goes, and nothing else changes.
   */
  lemma MigratePairMeaning(t: Table, oldKey: string, newKey: string, soft: bool)
    requires Valid(t)
    ensures var out, before := MigratePair(t, oldKey, newKey, soft), Contents(t.rows, soft);
            if HoldsMilliseconds(t, oldKey) && (newKey !in before || Trim(before[newKey]) == "") then
              var ms := ParseInt(Trim(Contents(t.rows, false)[oldKey])).value;
              exists s: nat :: 1000 * (s - 1) < ms <= 1000 * s && Moved(t, out, oldKey, newKey, soft, s)
            else out == t
  {
    MigratePairEffect(t, oldKey, newKey, soft);
    if !Settled(t, oldKey, newKey, soft) {
      var s := LegacySeconds(t, oldKey).value;
      assert MakeSeconds(t, oldKey, s) && Moved(t, MigratePair(t, oldKey, newKey, soft), oldKey, newKey, soft, s);
    }
  }

  /** At a key other than its own, or at a new key that has a value, a pair changes nothing. */
  lemma MigratePairAt(t: Table, oldKey: string, newKey: string, soft: bool, key: string)
    requires Valid(t) && key != oldKey && (key == newKey ==> HasValue(t, key, soft))
    ensures SameValue(Contents(t.rows, soft), Contents(MigratePair(t, oldKey, newKey, soft).rows, soft), key)
  {
    MigratePairEffect(t, oldKey, newKey, soft);
  }

  lemma ClearingKeepsLegacy(t: Table, oldKey: string, newKey: string, soft: bool)
    requires Valid(t) && oldKey != newKey
    ensures Valid(SoftDelete(t, newKey, soft)) && newKey !in Contents(SoftDelete(t, newKey, soft).rows, soft)
    ensures LegacySeconds(SoftDelete(t, newKey, soft), oldKey) == LegacySeconds(t, oldKey)
  {
    SoftDeleteRefines(t, newKey, soft);
  }

  /** A pair brings an unset new key back exactly when its old key has milliseconds. */
  lemma UnsetReturnsIff(t: Table, oldKey: string, newKey: string, soft: bool)
    requires Valid(t) && oldKey != newKey && newKey !in Contents(t.rows, soft)
    ensures newKey in Contents(MigratePair(t, oldKey, newKey, soft).rows, soft) <==> LegacySeconds(t, oldKey).Some?
  {
    MigratePairEffect(t, oldKey, newKey, soft);
  }

  lemma PrintNotBlank(n: nat)
    ensures !Blank(Print(n))
  {
    DigitsAreTrimmed(Print(n));
  }

  lemma MigratePairSettles(t: Table, oldKey: string, newKey: string, soft: bool)
    requires Valid(t) && oldKey != newKey
    ensures Settled(MigratePair(t, oldKey, newKey, soft), oldKey, newKey, soft)
  {
    MigratePairEffect(t, oldKey, newKey, soft);
    if !Settled(t, oldKey, newKey, soft) {
      PrintNotBlank(LegacySeconds(t, oldKey).value);
    }
  }

  lemma OtherPairUntouched(t: Table, oldKey: string, newKey: string, soft: bool, old2: string, new2: string)
    requires Valid(t) && {oldKey, newKey} !! {old2, new2}
    ensures Settled(MigratePair(t, oldKey, newKey, soft), old2, new2, soft) <==> Settled(t, old2, new2, soft)
    ensures LegacySeconds(MigratePair(t, oldKey, newKey, soft), old2) == LegacySeconds(t, old2)
    ensures HasValue(MigratePair(t, oldKey, newKey, soft), new2, soft) <==> HasValue(t, new2, soft)
  {
    MigratePairEffect(t, oldKey, newKey, soft);
  }

  lemma FourKeys()
    ensures {OLD_ERC20, NEW_ERC20} !! {OLD_TRC20, NEW_TRC20}
    ensures OLD_ERC20 != NEW_ERC20 && OLD_TRC20 != NEW_TRC20
  {
    assert OLD_ERC20[24] != OLD_TRC20[24];
    assert NEW_ERC20[25] != NEW_TRC20[25];
    assert |OLD_ERC20| != |NEW_TRC20| && |NEW_ERC20| != |OLD_TRC20|;
  }

  /** Migrating again changes nothing, and the table stays valid. */
  lemma MigrationIdempotent(t: Table, soft: bool)
    requires Valid(t)
    ensures Valid(Migrate(t, soft))
    ensures Migrate(Migrate(t, soft), soft) == Migrate(t, soft)
  {
    FourKeys();
    var first := MigratePair(t, OLD_ERC20, NEW_ERC20, soft);
    MigratePairEffect(t, OLD_ERC20, NEW_ERC20, soft);
    MigratePairSettles(t, OLD_ERC20, NEW_ERC20, soft);
    var out := Migrate(t, soft);
    MigratePairEffect(first, OLD_TRC20, NEW_TRC20, soft);
    MigratePairSettles(first, OLD_TRC20, NEW_TRC20, soft);
    OtherPairUntouched(first, OLD_TRC20, NEW_TRC20, soft, OLD_ERC20, NEW_ERC20);
    MigratePairEffect(out, OLD_ERC20, NEW_ERC20, soft);
    MigratePairEffect(out, OLD_TRC20, NEW_TRC20, soft);
  }

  /** Migration never overwrites a key that has a value, and touches no other keys. */
  lemma MigrationKeepsValues(t: Table, soft: bool, key: string)
    requires Valid(t) && key !in [OLD_ERC20, OLD_TRC20]
    requires HasValue(t, key, soft) || key !in [NEW_ERC20, NEW_TRC20]
    ensures SameValue(Contents(t.rows, soft), Contents(Migrate(t, soft).rows, soft), key)
  {
    FourKeys();
    var first := MigratePair(t, OLD_ERC20, NEW_ERC20, soft);
    MigratePairEffect(t, OLD_ERC20, NEW_ERC20, soft);
    MigratePairAt(t, OLD_ERC20, NEW_ERC20, soft, key);
    MigratePairAt(first, OLD_TRC20, NEW_TRC20, soft, key);
  }

  /**
   * The migration reads deleted rows too, so a poll interval cleared by the administrator
   * comes back at the next load exactly when its legacy row, deleted or not, holds at
   * least one millisecond.
   */
  lemma ClearedIntervalReturnsIff(t: Table, soft: bool)
    requires Valid(t)
    ensures "WORKER_POLL_INTERVAL_SEC_ERC20"
              in Contents(Migrate(SoftDelete(t, "WORKER_POLL_INTERVAL_SEC_ERC20", soft), soft).rows, soft)
       <==> HoldsMilliseconds(t, "WORKER_POLL_INTERVAL_MS_ERC20")
    ensures "WORKER_POLL_INTERVAL_SEC_TRC20"
              in Contents(Migrate(SoftDelete(t, "WORKER_POLL_INTERVAL_SEC_TRC20", soft), soft).rows, soft)
       <==> HoldsMilliseconds(t, "WORKER_POLL_INTERVAL_MS_TRC20")
  {
    FourKeys();
    var erc := SoftDelete(t, NEW_ERC20, soft);
    ClearingKeepsLegacy(t, OLD_ERC20, NEW_ERC20, soft);
    UnsetReturnsIff(erc, OLD_ERC20, NEW_ERC20, soft);
    MigratePairEffect(erc, OLD_ERC20, NEW_ERC20, soft);
    MigratePairAt(MigratePair(erc, OLD_ERC20, NEW_ERC20, soft), OLD_TRC20, NEW_TRC20, soft, NEW_ERC20);
    var trc := SoftDelete(t, NEW_TRC20, soft);
    ClearingKeepsLegacy(t, OLD_TRC20, NEW_TRC20, soft);
    OtherPairUntouched(trc, OLD_ERC20, NEW_ERC20, soft, OLD_TRC20, NEW_TRC20);
    MigratePairEffect(trc, OLD_ERC20, NEW_ERC20, soft);
    MigratePairAt(trc, OLD_ERC20, NEW_ERC20, soft, NEW_TRC20);
    UnsetReturnsIff(MigratePair(trc, OLD_ERC20, NEW_ERC20, soft), OLD_TRC20, NEW_TRC20, soft);
  }

  // ---- Planning a patch --------------------------------------------------------------

  /** A submitted form: own keys in order; None stands for null or undefined. */
  type Patch = seq<(string, Option<string>)>

  function Submitted(patch: Patch, key: string): Option<string> {
    if patch == [] then None
    else if patch[0].0 == key then patch[0].1
    else Submitted(patch[1..], key)
  }

  function FirstUnknown(defs: seq<Def>, patch: Patch): Option<string> {
    if patch == [] then None
    else if !Known(defs, patch[0].0) then Some(patch[0].0)
    else FirstUnknown(defs, patch[1..])
  }

  /** The operation one definition contributes, if any. */
  function PlanOne(
      def: Def, patch: Patch, cache: map<string, string>, json: JsonNormalizer): Result<seq<Op>, SettingError> {
    match Submitted(patch, def.key)
    case None => Ok([])
    case Some(str) =>
      var t := Trim(str);
      if t == "" then
        if def.sensitive && def.key !in cache then Ok([]) else Ok([Clear(def.key)])
      else
        match Validate(def, t, json)
        case Err(e) => Err(e)
        case Ok(normalized) => Ok([Put(def.key, normalized)])
  }

  function Plan(
      defs: seq<Def>, patch: Patch, cache: map<string, string>, json: JsonNormalizer): Result<seq<Op>, SettingError> {
    if defs == [] then Ok([])
    else
      var earlier := Plan(defs[..|defs| - 1], patch, cache, json);
      if earlier.Err? then earlier
      else
        match PlanOne(defs[|defs| - 1], patch, cache, json)
        case Err(e) => Err(e)
        case Ok(ops) => Ok(earlier.value + ops)
  }

  /** What the patch makes of one key. */
  ghost predicate PatchedAt(
    defs: seq<Def>, patch: Patch, json: JsonNormalizer, before: map<string, string>, after: map<string, string>,
      key: string)
  {
    if Known(defs, key) && Submitted(patch, key).Some? then
      if Blank(Submitted(patch, key).value) then key !in after
      else
        forall i :: 0 <= i < |defs| && defs[i].key == key ==>
          var r := Validate(defs[i], Trim(Submitted(patch, key).value), json);
          r.Ok? && key in after && after[key] == r.value
    else SameValue(before, after, key)
  }

  lemma {:induction false} MapAfterConcat(m: map<string, string>, a: seq<Op>, b: seq<Op>)
    ensures MapAfter(m, a + b) == MapAfter(MapAfter(m, a), b)
    decreases |a|
  {
    if a == [] {
      assert a + b == b;
    } else {
      assert (a + b)[1..] == a[1..] + b;
      match a[0]
      case Put(key, value) => MapAfterConcat(m[key := value], a[1..], b);
      case Clear(key) => MapAfterConcat(m - {key}, a[1..], b);
    }
  }

  lemma {:induction false} PlannedKeys(defs: seq<Def>, patch: Patch, cache: map<string, string>, json: JsonNormalizer)
    requires Plan(defs, patch, cache, json).Ok?
    ensures forall i :: 0 <= i < |Plan(defs, patch, cache, json).value| ==>
              Known(defs, Plan(defs, patch, cache, json).value[i].key)
  {
    if defs != [] {
      var init := defs[..|defs| - 1];
      PlannedKeys(init, patch, cache, json);
      forall key | Known(init, key)
        ensures Known(defs, key)
      {
        var i :| 0 <= i < |init| && init[i].key == key;
        assert defs[i].key == key;
      }
      assert defs[|defs| - 1].key == defs[|defs| - 1].key;
    }
  }

  lemma KnownPrefix(defs: seq<Def>, key: string)
    requires defs != []
    ensures Known(defs, key) <==> Known(defs[..|defs| - 1], key) || key == defs[|defs| - 1].key
  {
    var init := defs[..|defs| - 1];
    if Known(defs, key) && key != defs[|defs| - 1].key {
      var i :| 0 <= i < |defs| && defs[i].key == key;
      assert init[i].key == key;
    }
    if Known(init, key) {
      var i :| 0 <= i < |init| && init[i].key == key;
      assert defs[i].key == key;
    }
  }

  lemma PlanOneElsewhere(
      def: Def, patch: Patch, cache: map<string, string>, json: JsonNormalizer, m: map<string, string>, key: string)
    requires PlanOne(def, patch, cache, json).Ok? && key != def.key
    ensures SameValue(m, MapAfter(m, PlanOne(def, patch, cache, json).value), key)
  {
    var ops := PlanOne(def, patch, cache, json).value;
    assert |ops| == 1 ==> ops[1..] == [];
  }

  /** A blank for a sensitive key is dropped, not planned, if the cache has no row for the key. */
  ghost predicate Dropped(defs: seq<Def>, patch: Patch, cache: map<string, string>, key: string) {
    && key !in cache && Submitted(patch, key).Some? && Blank(Submitted(patch, key).value)
    && exists i :: 0 <= i < |defs| && defs[i].key == key && defs[i].sensitive
  }

  lemma PlanOneHere(def: Def, patch: Patch, cache: map<string, string>, json: JsonNormalizer, m: map<string, string>)
    requires PlanOne(def, patch, cache, json).Ok?
    ensures var after := MapAfter(m, PlanOne(def, patch, cache, json).value);
            if Submitted(patch, def.key).None? then SameValue(m, after, def.key)
            else if Blank(Submitted(patch, def.key).value) then
              if def.sensitive && def.key !in cache then SameValue(m, after, def.key) else def.key !in after
            else
              var r := Validate(def, Trim(Submitted(patch, def.key).value), json);
              r.Ok? && def.key in after && after[def.key] == r.value
  {
    var ops := PlanOne(def, patch, cache, json).value;
    assert |ops| == 1 ==> ops[1..] == [];
  }

  /**
   * Whatever the cache, the planned operations do to each key of a map exactly what was
   * submitted, unless the key is dropped: then they leave it as it is.
   */
  lemma {:induction false} PlanDoesThePatch(
    defs: seq<Def>, patch: Patch, cache: map<string, string>, json: JsonNormalizer, m: map<string, string>, key: string)
    requires ValidRegistry(defs) && Plan(defs, patch, cache, json).Ok?
    ensures var after := MapAfter(m, Plan(defs, patch, cache, json).value);
            if Dropped(defs, patch, cache, key) then SameValue(m, after, key)
            else PatchedAt(defs, patch, json, m, after, key)
  {
    if defs != [] {
      var init, last := defs[..|defs| - 1], defs[|defs| - 1];
      PlanDoesThePatch(init, patch, cache, json, m, key);
      KnownPrefix(defs, key);
      DroppedPrefix(defs, patch, cache, key);
      var earlier := Plan(init, patch, cache, json).value;
      MapAfterConcat(m, earlier, PlanOne(last, patch, cache, json).value);
      if key == last.key {
        assert !Known(init, key);
        PlanOneHere(last, patch, cache, json, MapAfter(m, earlier));
      } else {
        assert forall i :: 0 <= i < |defs| && defs[i].key == key ==> i < |init| && init[i] == defs[i];
        PlanOneElsewhere(last, patch, cache, json, MapAfter(m, earlier), key);
      }
    }
  }

  lemma DroppedPrefix(defs: seq<Def>, patch: Patch, cache: map<string, string>, key: string)
    requires ValidRegistry(defs) && defs != []
    ensures ValidRegistry(defs[..|defs| - 1])
    ensures key != defs[|defs| - 1].key ==>
      (Dropped(defs, patch, cache, key) <==> Dropped(defs[..|defs| - 1], patch, cache, key))
    ensures key == defs[|defs| - 1].key ==>
      !Known(defs[..|defs| - 1], key) && !Dropped(defs[..|defs| - 1], patch, cache, key)
  {
    var init := defs[..|defs| - 1];
    assert forall i :: 0 <= i < |init| ==> init[i] == defs[i];
  }

  // ---- The settings object -----------------------------------------------------------

  class Settings {
    var table: Table
    var cache: map<string, string>

    /** Whether the database client accepts deletedAt, probed once per process. */
    const soft: bool

    ghost predicate Sound()
      reads this
    {
      Valid(table)
    }

    /** The map the table stands for under this client. */
    ghost function Active(): map<string, string>
      reads this
    {
      Contents(table.rows, soft)
    }

    constructor (table: Table, soft: bool)
      requires Valid(table)
      ensures this.table == table && this.soft == soft && cache == map[] && Sound()
    {
      this.table, this.soft, this.cache := table, soft, map[];
    }

    method UpsertKeyValue(key: string, value: string)
      requires Sound()
      modifies this`table
      ensures Sound() && table == Upsert(old(table), key, value, soft)
      ensures Active() == old(Active())[key := value]
    {
      UpsertRefines(table, key, value, soft);
      var rows := table.rows;
      var active := FindFirst(rows, key, soft);
      if active < |rows| {
        var row := rows[active].(value := value);
        table := table.(rows := rows[active := if soft then row.(deleted := false) else row]);
        return;
      }
      if soft {
        var tomb := FindLatest(rows, key, true);
        if tomb < |rows| {
          table := table.(rows := rows[tomb := rows[tomb].(value := value, deleted := false)]);
          return;
        }
      }
      table := Table(rows + [Row(table.nextId, key, value, false)], table.nextId + 1);
    }

    method SoftDeleteKey(key: string)
      requires Sound()
      modifies this`table
      ensures Sound() && table == SoftDelete(old(table), key, soft)
      ensures Active() == old(Active()) - {key}
    {
      SoftDeleteRefines(table, key, soft);
      table := SoftDelete(table, key, soft);
    }

    method MigrateLegacyKeys()
      requires Sound()
      modifies this`table
      ensures Sound() && table == Migrate(old(table), soft)
    {
      MigrationIdempotent(table, soft);
      var pairs := [(OLD_ERC20, NEW_ERC20), (OLD_TRC20, NEW_TRC20)];
      for n := 0 to |pairs|
        invariant Sound()
        invariant table == if n == 0 then old(table)
                           else if n == 1 then MigratePair(old(table), OLD_ERC20, NEW_ERC20, soft)
                           else Migrate(old(table), soft)
      {
        var (oldKey, newKey) := pairs[n];
        MigratePairEffect(table, oldKey, newKey, soft);
        var o := FindLatest(table.rows, oldKey, false);
        if o == |table.rows| || Blank(table.rows[o].value) { continue; }
        var active := FindFirst(table.rows, newKey, soft);
        if active < |table.rows| && !Blank(table.rows[active].value) { continue; }
        var ms := ParseInt(Trim(table.rows[o].value));
        if ms.None? || ms.value < 1 { continue; }
        UpsertKeyValue(newKey, Print(CeilSeconds(ms.value)));
        SoftDeleteKey(oldKey);
      }
    }

    /** Migrate, then rebuild the cache: afterwards it is exactly the rows in scope. */
    method Load()
      requires Sound()
      modifies this
      ensures Sound() && table == Migrate(old(table), soft) && cache == Active()
    {
      MigrateLegacyKeys();
      cache := map[];
      var rows := table.rows;
      for n := 0 to |rows|
        invariant table == Migrate(old(table), soft) && table.rows == rows
        invariant cache == Contents(rows[..n], soft)
      {
        assert rows[..n + 1][..n] == rows[..n];
        if InScope(rows[n], soft) {
          cache := cache[rows[n].key := rows[n].value];
        }
      }
      assert rows[..|rows|] == rows;
    }

    /**
     * Check every key and value first, then write, then reload. A rejected patch changes
     * neither rows nor cache; an accepted one ends with a cache that equals the table.
     */
    method ApplyPatch(defs: seq<Def>, patch: Patch, json: JsonNormalizer) returns (r: Result<bool, SettingError>)
      requires Sound()
      modifies this
      ensures Sound()
      ensures r.Ok? <==> FirstUnknown(defs, patch).None? && Plan(defs, patch, old(cache), json).Ok?
      ensures r.Err? ==> table == old(table) && cache == old(cache)
      ensures r.Err? ==> r.error == if FirstUnknown(defs, patch).Some? then UnknownKey(FirstUnknown(defs, patch).value)
                                    else Plan(defs, patch, old(cache), json).error
      ensures r.Ok? ==> table == Migrate(ApplyAll(old(table), Plan(defs, patch, old(cache), json).value, soft), soft)
      ensures r.Ok? ==> cache == Active()
    {
      var unknown := UnknownIn(defs, patch);
      if unknown.Some? {
        return Err(UnknownKey(unknown.value));
      }
      var plan := PlanPatch(defs, patch, cache, json);
      if plan.Err? {
        return Err(plan.error);
      }
      WriteAll(plan.value);
      Load();
      return Ok(true);
    }

    /** The writes of an accepted patch, in order; the cache is not touched. */
    method WriteAll(ops: seq<Op>)
      requires Sound()
      modifies this`table
      ensures Sound() && table == ApplyAll(old(table), ops, soft)
    {
      for n := 0 to |ops|
        invariant Sound() && ApplyAll(table, ops[n..], soft) == ApplyAll(old(table), ops, soft)
      {
        assert ops[n..][1..] == ops[n + 1..];
        match ops[n] {
          case Put(key, value) => UpsertKeyValue(key, value);
          case Clear(key) => SoftDeleteKey(key);
        }
      }
    }
  }

  method UnknownIn(defs: seq<Def>, patch: Patch) returns (r: Option<string>)
    ensures r == FirstUnknown(defs, patch)
  {
    for n := 0 to |patch|
      invariant FirstUnknown(defs, patch) == FirstUnknown(defs, patch[n..])
    {
      if !Known(defs, patch[n].0) {
        return Some(patch[n].0);
      }
    }
    r := None;
  }

  method PlanPatch(defs: seq<Def>, patch: Patch, cache: map<string, string>, json: JsonNormalizer)
      returns (r: Result<seq<Op>, SettingError>)
    ensures r == Plan(defs, patch, cache, json)
  {
    var ops: seq<Op> := [];
    for n := 0 to |defs|
      invariant Plan(defs[..n], patch, cache, json) == Ok(ops)
    {
      assert defs[..n + 1][..n] == defs[..n];
      var one := PlanOne(defs[n], patch, cache, json);
      if one.Err? {
        PlanStopsAtError(defs, n + 1, patch, cache, json);
        return Err(one.error);
      }
      ops := ops + one.value;
    }
    assert defs[..|defs|] == defs;
    r := Ok(ops);
  }

  lemma {:induction false} PlanStopsAtError(
      defs: seq<Def>, n: nat, patch: Patch, cache: map<string, string>, json: JsonNormalizer)
    requires n <= |defs| && Plan(defs[..n], patch, cache, json).Err?
    ensures Plan(defs, patch, cache, json) == Plan(defs[..n], patch, cache, json)
  {
    if n == |defs| {
      assert defs[..n] == defs;
    } else {
      assert defs[..|defs| - 1][..n] == defs[..n];
      PlanStopsAtError(defs[..|defs| - 1], n, patch, cache, json);
    }
  }

  // ---- Resolution --------------------------------------------------------------------

  /** getResolvedString: a non-blank override wins over the environment's value. */
  function ResolveString(defs: seq<Def>, cache: map<string, string>, key: string, fallback: string): string {
    if Known(defs, key) && key in cache && !Blank(cache[key]) then cache[key] else fallback
  }

  function ResolveInt(defs: seq<Def>, cache: map<string, string>, key: string, fallback: int): int {
    if Known(defs, key) && key in cache && !Blank(cache[key]) then
      match ParseInt(Trim(cache[key]))
      case None => fallback
      case Some(n) => n
    else fallback
  }

  function ResolveBool(defs: seq<Def>, cache: map<string, string>, key: string, fallback: bool): bool {
    if Known(defs, key) && key in cache && !Blank(cache[key]) then Lower(Trim(cache[key])) in ["true", "1", "yes"]
    else fallback
  }

  /** Only "false" and "0" switch the TRON-only gateway off. */
  function ResolveTronGateway(defs: seq<Def>, cache: map<string, string>, key: string, fallback: bool): bool {
    if Known(defs, key) && key in cache && !Blank(cache[key]) then Lower(Trim(cache[key])) !in ["false", "0"]
    else fallback
  }

  function ResolveBigInt(defs: seq<Def>, cache: map<string, string>, key: string, fallback: int): int {
    if Known(defs, key) && key in cache && !Blank(cache[key]) then
      match BigIntOf(Trim(cache[key]))
      case None => fallback
      case Some(b) => b
    else fallback
  }

  /** A setting that is not registered, not in the cache, or blank there leaves every getter to the environment. */
  lemma GettersFallBack(defs: seq<Def>, cache: map<string, string>, key: string, s: string, n: int, b: bool)
    requires key !in cache || Trim(cache[key]) == "" || forall i :: 0 <= i < |defs| ==> defs[i].key != key
    ensures ResolveString(defs, cache, key, s) == s
    ensures ResolveInt(defs, cache, key, n) == n && ResolveBigInt(defs, cache, key, n) == n
    ensures ResolveBool(defs, cache, key, b) == b && ResolveTronGateway(defs, cache, key, b) == b
  {}

  /**
   * Any other value, however it got into the table, reads as it is, as the number it starts
   * with, as the big integer it is, or as a flag. Texts that are no number are left to the
   * environment. The two flags differ exactly on texts outside "true", "1", "yes", "false"
   * and "0": there the TRON-only gateway is on and every other flag off.
   */
  lemma GettersReadAnyRow(defs: seq<Def>, cache: map<string, string>, i: nat, s: string, n: int, b: bool)
    requires i < |defs| && defs[i].key in cache && Trim(cache[defs[i].key]) != ""
    ensures var key, text := defs[i].key, Trim(cache[defs[i].key]);
      && ResolveString(defs, cache, key, s) == cache[key]
      && (ParseInt(text).Some? ==> ResolveInt(defs, cache, key, n) == ParseInt(text).value)
      && (ParseInt(text).None? ==> ResolveInt(defs, cache, key, n) == n)
      && (BigIntOf(text).Some? ==> ResolveBigInt(defs, cache, key, n) == BigIntOf(text).value)
      && (BigIntOf(text).None? ==> ResolveBigInt(defs, cache, key, n) == n)
      && (Lower(text) in ["true", "1", "yes"] ==>
            ResolveBool(defs, cache, key, b) && ResolveTronGateway(defs, cache, key, b))
      && (Lower(text) in ["false", "0"] ==>
            !ResolveBool(defs, cache, key, b) && !ResolveTronGateway(defs, cache, key, b))
      && (Lower(text) !in ["true", "1", "yes", "false", "0"] ==>
            !ResolveBool(defs, cache, key, b) && ResolveTronGateway(defs, cache, key, b))
  {
    assert Known(defs, defs[i].key);
  }

  lemma NumberReadsBack(
      defs: seq<Def>, def: Def, text: string, json: JsonNormalizer, cache: map<string, string>)
    requires Known(defs, def.key) && Validate(def, text, json).Ok?
    requires def.key in cache && cache[def.key] == Validate(def, text, json).value
    ensures def.kind.IntKind? ==> forall f :: Some(ResolveInt(defs, cache, def.key, f)) == ParseInt(Trim(text))
    ensures def.kind.BigIntKind? ==> forall f :: Some(ResolveBigInt(defs, cache, def.key, f)) == BigIntOf(Trim(text))
  {
    if def.kind.IntKind? || def.kind.BigIntKind? {
      ValidatedNumber(def, text, json);
      IntReadsBack((if def.kind.IntKind? then ParseInt(Trim(text)) else BigIntOf(Trim(text))).value);
    }
  }

  lemma FlagReadsBack(
      defs: seq<Def>, def: Def, text: string, json: JsonNormalizer, cache: map<string, string>)
    requires Known(defs, def.key) && Validate(def, text, json).Ok?
    requires def.key in cache && cache[def.key] == Validate(def, text, json).value
    ensures def.kind.BoolKind? ==>
      forall f :: ResolveBool(defs, cache, def.key, f) == (Lower(Trim(text)) in ["true", "1", "yes"])
    ensures def.kind.BoolTronGateway? ==>
      forall f :: ResolveTronGateway(defs, cache, def.key, f) == (Lower(Trim(text)) !in ["false", "0", "no"])
  {
    if def.kind.BoolKind? || def.kind.BoolTronGateway? {
      ValidatedFlag(def, text, json);
    }
  }

  /** The typed getters read a normalized value as the number or flag that was entered. */
  lemma NormalizedValuesReadBack(
      defs: seq<Def>, def: Def, text: string, json: JsonNormalizer, cache: map<string, string>)
    requires def in defs && Validate(def, text, json).Ok?
    requires def.key in cache && cache[def.key] == Validate(def, text, json).value
    ensures def.kind.IntKind? ==> forall f :: Some(ResolveInt(defs, cache, def.key, f)) == ParseInt(Trim(text))
    ensures def.kind.BoolKind? ==>
      forall f :: ResolveBool(defs, cache, def.key, f) == (Lower(Trim(text)) in ["true", "1", "yes"])
    ensures def.kind.BoolTronGateway? ==>
      forall f :: ResolveTronGateway(defs, cache, def.key, f) == (Lower(Trim(text)) !in ["false", "0", "no"])
    ensures def.kind.BigIntKind? ==> forall f :: Some(ResolveBigInt(defs, cache, def.key, f)) == BigIntOf(Trim(text))
  {
    var i :| 0 <= i < |defs| && defs[i] == def;
    assert Known(defs, def.key);
    NumberReadsBack(defs, def, text, json, cache);
    FlagReadsBack(defs, def, text, json, cache);
  }
}
