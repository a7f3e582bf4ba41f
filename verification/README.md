# Verified model of the payment gateway's cores

A Dafny model of the parts of the gateway whose correctness is more than plumbing, with
proofs. `dafny verify dfyconfig.toml` checks all of it.

- **Explorer key pool** (`SlidingWindow`, `DayQuota`, `KeyPool`). A mutable stamp map per
  key, pruned on every attempt, against a ghost log of all grants; a UTC-day quota row;
  and the polling loop that leases the first free key, run in an environment where other
  callers act during every await.
- **Settings** (`SettingsTable`, `AppSettings`, `PatchedSettings`). The soft-delete row
  table refines a plain map under both database clients; migration of legacy keys, cache
  reload and the two-phase patch are methods on one `Settings` object.
- **Canonical JSON and X-Token** (`CanonicalJson`, `JsonParser`, `JsonIdentity`,
  `JsonEscapes`, `XToken`). The printer on JavaScript strings (sequences of UTF-16 units),
  a parser for RFC 8259 texts that undoes it, what exactly is escaped, and from these the
  exact meaning of a token.
- **Amounts and fees** (`Text`, `Amounts`, `Fees`). Digit-level printers and parsers
  related through the real number a decimal string denotes; fees in basis points.
- **Wallet list** (`Chains`, `WalletGroups`, `WalletList`, `WalletPages`). Grouped wallet
  rows, the merge loop, the batched balance lookup, the sort and the pages.
- **Rails** (`Rails`, `RailListing`, `RailSaving`). The listed pairs against the accept
  checks of the deposit-address call, what a list of rails saves and leaves listed, and the
  default pair picked beside it.
- **Auto-swap settings** (`AutoSwap`, `AutoSwapPlan`). Normalizing, merging and validating
  partial updates, and what a sweep may rely on.
- **Checkout placeholders** (`Checkout`, `CheckoutRuns`, `CheckoutRaces`,
  `DepositBinding`). The stale query, the guarded update and each query of a deposit as
  separate atomic steps, interleaved in every order with new checkouts, refreshed ones and
  time.

Where the source changes something step by step, there is a method (on a class where the
source keeps state) proved against a function of its inputs or old state; the theorems are
about those functions, stated on the columns, characters and milliseconds of the source.
`Lists` and `Sorting` hold shared facts about sequences and sorting. `Text` writes out the
string operations taken from JavaScript and says what they do: which characters are white
space and what trimming leaves (`SpacesAre`, `TrimIs`, `TrimParts`), letter case
(`LettersAre`), and which texts parseInt and BigInt read as which number (`ParseIntReads`,
`HexDigitsAre`, `BigIntHex`, `BigIntOctal`, `BigIntBinary`, `BigIntDigits`, `BigIntSigns`).

## Where the code does not do what one might expect

Each is stated as an exact condition; where the condition does not name an input itself, a
lemma shows one.

- A poll interval the administrator clears comes back at the next load if its legacy row,
  even a deleted one, still holds a value: the migration reads tombstones
  (`ClearedIntervalReturnsIff`, `ClearedIntervalReturns`).
- A merchant can be shown a default pair that deposit-address refuses
  (`ListedExactlyAcceptedIff`). A row left at the schema's column defaults is in that
  branch (`BareMerchantListsUnaskedDefault`); the API demands a default chain, so only a
  row migrated without one, or written past it, gets there.
- Clearing a sensitive setting is accepted and does nothing if this process's cache lacks
  the row (`PatchReachesCacheIff`, `ClearingIsLost`).
- Saving an array of blanks is accepted and stores no rail, although an empty array is
  refused (`SavesNothingIff`, `SavedRailsAreListedIff`, `BlankSaveIsAccepted`).
- The branch that would delete a minimum on a blank entry is never reached, so a minimum
  cannot be cleared by a patch (`BlankMinimumDeletesNothing`).
- A minimum that validates as a number may still fail the sweep (`SweepResolves`,
  `ValidMinimumMayNotSweep`).
- Negative amounts with a fraction print with a second minus sign (`FormatIsDecimalIff`,
  `NegativeFractionExample`).
- Encrypting the empty text yields a token that never decrypts
  (`DecryptUndoesEncryptIff`); canonical texts are never empty.
- A deposit writes its placeholder by id alone, so one read before an expiry pass can turn
  a failed checkout into a payment afterwards (`StaysFailedIff`,
  `LateDepositOverwritesFailure`).
- Two deposits that read one placeholder both write it, and the first payment's hash and
  amount are lost (`PaymentStaysIff`, `SecondDepositOverwritesFirst`).
- A deposit reads its session key and its reference by two queries, and a checkout opened
  in between, or an older one that the payer asks for again, can pair one checkout's key
  with the other's reference (`OneCheckoutForBothIff`, `ReadsCanMix`, `RefreshCanMix`).
- The list's row count, shown to the administrator as the number of database rows merged,
  counts groups of equal columns: two wallets with identical columns count once
  (`RowCountCountsRowsIff`, `TwinsCountOnce`).

The guarded update of the day quota respects only caps of at least 1 (`QuotaHoldsIff`);
the administrator's API refuses any other cap, so only a row written past it is affected.

## Model

| member | source | states |
|---|---|---|
| `SlidingWindow.SlidingWindowHolds` | server/src/lib/deposit-scanner-explorer-key-pool.js:185-201 | In every run with a clock that never runs back, interleaving any keys and changing rates, the grants to a key within any 1000 ms number one or no more than the requests per second the last of them was asked for with |
| `SlidingWindow.SteadyRateHolds` | server/src/lib/deposit-scanner-explorer-key-pool.js:185-201 | A key asked for at one rate r throughout gets at most r grants in any 1000 ms, or one if r is below 1 |
| `SlidingWindow.GrantsAnswerRequests` | server/src/lib/deposit-scanner-explorer-key-pool.js:185-201 | Every grant of the history carries key, time and rate of a request of its own, in the order of the requests |
| `SlidingWindow.RefusedOnlyWhenFull` | server/src/lib/deposit-scanner-explorer-key-pool.js:185-201 | A request is refused exactly when the key already got grants in the last second with which one more would exceed the rate asked for, so no refusal is spurious |
| `SlidingWindow.TakeIsExact` | server/src/lib/deposit-scanner-explorer-key-pool.js:185-201 | One attempt on the pruned map decides as the full history would, and the pruned lists keep standing in for the history |
| `SlidingWindow.RunIsExact` | server/src/lib/deposit-scanner-explorer-key-pool.js:185-201 | Along every run the pruned lists represent the history for this and every later time |
| `SlidingWindow.DisciplinedWindow` | server/src/lib/deposit-scanner-explorer-key-pool.js:185-201 | If each grant was made with room at its own time, every later-chosen window respects the rate of its last grant |
| `DayQuota.QuotaAgreesWithLog` | server/src/lib/deposit-scanner-explorer-key-pool.js:71-76 | With an active key, a cap of at least 1 and days that never run back, the effective count is min(cap, what the row counted for today + how often today occurs among the successes), a count already above a lowered cap standing for its day; a counter within its cap never leaves it |
| `DayQuota.QuotaHoldsIff` | server/src/lib/deposit-scanner-explorer-key-pool.js:243-275 | The guarded update keeps a fresh counter within its cap in every run exactly when the cap is at least 1, which server/src/api/admin-routes.js asks of every key it stores |
| `DayQuota.ListedExactly` | server/src/lib/deposit-scanner-explorer-key-pool.js:123-163 | The rows listed are exactly the active ones of the rail whose count for today is below their cap and whose decrypted key is not blank, in strict (sort_order, id) order |
| `DayQuota.ListingCarries` | server/src/lib/deposit-scanner-explorer-key-pool.js:145-160 | Each credential carries the id, rate and trimmed plaintext of its row, and its trimmed name or "key #" and the id |
| `DayQuota.ListedWhileUnderCap` | server/src/lib/deposit-scanner-explorer-key-pool.js:123-163 | Whatever its row started with, a key is listed exactly while its count for today stays below its cap, so an exhausted key is never listed |
| `DayQuota.ListWithBudget` | server/src/lib/deposit-scanner-explorer-key-pool.js:123-163 | The loop over the query result returns exactly the specified list |
| `KeyPool.KeyTable.RecordSuccess` | server/src/lib/deposit-scanner-explorer-key-pool.js:243-275 | A success updates one active row whose day is past or whose count is below its cap: a new day starts at 1, otherwise the count goes up by one; that is also what the log specification gives |
| `KeyPool.ExplorerKeyPool.TryTakePerSecondSlot` | server/src/lib/deposit-scanner-explorer-key-pool.js:185-201 | Refuses exactly when the grants of the last second leave no room for one more at the rate given; on success the log gains one grant, on refusal nothing; other keys keep their stamps |
| `KeyPool.ExplorerKeyPool.Poll` | server/src/lib/deposit-scanner-explorer-key-pool.js:212-236 | One pass grants the first key of the list with a free window; every key before it was full when tried and gains no stamp |
| `KeyPool.ExplorerKeyPool.Acquire` | server/src/lib/deposit-scanner-explorer-key-pool.js:212-236 | A lease fails only after two minutes; a granted lease is for the first free key of a list read during the call; every failed poll of a lone caller with a non-empty list began within a second of the call, so it is refused only if its last list was empty or its last round alone took 119 seconds |
| `KeyPool.FullPassIsEarly` | server/src/lib/deposit-scanner-explorer-key-pool.js:212-236 | If nothing was granted since some time, a pass that finds every key full began less than a second after it |
| `JsonIdentity.StringifyIdentifies` | server/src/lib/gateway-x-token.js:9-34 | Two values print to the same canonical text exactly when they are equal up to the order of object keys, at every depth (and -0 equals 0) |
| `JsonParser.ParsePrinted` | server/src/lib/gateway-x-token.js:9-34 | A parser of RFC 8259 texts, run on the printed text followed by nothing, or by anything that starts with a comma or a closing bracket, returns the value's canonical tree and leaves exactly what followed |
| `JsonParser.ParseEscaped` | server/src/lib/gateway-x-token.js:9-34 | Reading a string back undoes the escaping of every sequence of UTF-16 units, lone surrogates included |
| `JsonIdentity.CanonDecides` | server/src/lib/gateway-x-token.js:9-34 | Values with the same canonical tree are equal up to key order |
| `JsonIdentity.SamePrintsAlike` | server/src/lib/gateway-x-token.js:9-34 | Values equal up to key order print alike, or fail alike |
| `JsonIdentity.StringifyOkIff` | server/src/lib/gateway-x-token.js:9-34 | Printing throws exactly on values with a non-finite number or an unsupported type somewhere inside |
| `CanonicalJson.FiniteIs` | server/src/lib/gateway-x-token.js:12-16 | The numbers that print are those whose bits, the sign aside, are below those of infinity |
| `CanonicalJson.SameNumberIs` | server/src/lib/gateway-x-token.js:12-16 | Two numbers are equal if their bits are, or both are zero but for the sign |
| `JsonIdentity.StringifyIsJsonText` | server/src/lib/gateway-x-token.js:9-34 | The canonical text is one complete JSON text by sections 2 to 7 of RFC 8259 |
| `JsonIdentity.CanonKeysAscend` | server/src/lib/gateway-x-token.js:25-33 | Every key is printed once; of two keys the one that ends, or has the smaller UTF-16 unit, where they first differ is printed first, as section 3.2.3 of RFC 8785 asks |
| `JsonIdentity.StringifyValid` | server/src/lib/gateway-x-token.js:9-34 | The canonical text is never empty and contains no unpaired surrogate |
| `JsonEscapes.EscapeOfUnit` | server/src/lib/gateway-x-token.js:18-20 | Quotation mark, backslash and five controls print as a backslash and a letter, other controls and lone surrogates as a backslash, u and four lower-case hexadecimal digits, all else as it is |
| `JsonEscapes.EscapeConcat` | server/src/lib/gateway-x-token.js:18-20 | Strings are escaped piece by piece unless the cut parts a surrogate pair |
| `JsonEscapes.EscapesNothingIff` | server/src/lib/gateway-x-token.js:18-20 | A string prints as it stands exactly if its surrogates are paired and it has no control, quotation mark or backslash |
| `CanonicalJson.SortSorts` | server/src/lib/gateway-x-token.js:25-27 | Key sorting yields the same keys, each before those that go on where it ends or have the larger unit where they first differ |
| `CanonicalJson.SortedUnique` | server/src/lib/gateway-x-token.js:25-27 | An ascending list is determined by its elements, so any correct sort gives the same text |
| `XToken.DecryptUndoesEncryptIff` | server/src/lib/gateway-x-token.js:49-78 | Decryption returns the plaintext exactly when it is non-empty and free of unpaired surrogates; it fails exactly on the empty one |
| `XToken.SliceApart` | server/src/lib/gateway-x-token.js:49-78 | A token decodes to twelve bytes of iv, sixteen of tag and the ciphertext, which slicing at 12 and 28 takes apart |
| `XToken.DecryptFailsIff` | server/src/lib/gateway-x-token.js:67-78 | Whatever is presented fails as too short up to 28 bytes, and otherwise exactly if it does not open |
| `XToken.TokenVerifiesExactly` | server/src/lib/gateway-x-token.js:49-98 | A token built from a body verifies against exactly the bodies equal to it up to key order |
| `XToken.TokenFixesBody` | server/src/lib/gateway-x-token.js:86-98 | Whatever token is presented, the bodies it verifies are one class up to key order |
| `SettingsTable.TableRefinesMap` | server/src/lib/app-settings-runtime.js:290-338 | Under both clients every run of upserts and soft deletes keeps at most one row per key, and the rows in scope are the map the same operations produce |
| `SettingsTable.UpsertRefines` | server/src/lib/app-settings-runtime.js:290-323 | An upsert adds exactly one mapping in either scope and keeps one row per key |
| `SettingsTable.UpsertRevives` | server/src/lib/app-settings-runtime.js:290-323 | A tombstone is revived under its own id, never duplicated; all other rows stay as they are |
| `SettingsTable.SoftDeleteRefines` | server/src/lib/app-settings-runtime.js:328-338 | A soft delete removes exactly one mapping from the scope; tombstones keep their value |
| `SettingsTable.OtherKeysKept` | server/src/lib/app-settings-runtime.js:290-338 | Runs that do not name a key leave its row, deleted or not, as it is |
| `AppSettings.MigrationIdempotent` | server/src/lib/app-settings-runtime.js:341-366 | Migrating twice is migrating once, and the table stays valid |
| `AppSettings.MigrationKeepsValues` | server/src/lib/app-settings-runtime.js:341-366 | Migration never changes a key that has a value, nor any key outside its two pairs |
| `AppSettings.MigratePairMeaning` | server/src/lib/app-settings-runtime.js:341-366 | A pair migrates exactly when its new key is unset or blank and some row of its old key holds at least one millisecond; then the new key gets the s with 1000(s-1) < ms <= 1000s, the old key goes and nothing else changes |
| `AppSettings.ClearedIntervalReturnsIff` | server/src/lib/app-settings-runtime.js:341-366 | A cleared poll interval comes back at the next load exactly when its legacy row, deleted or not, holds at least one millisecond |
| `AppSettings.PlanDoesThePatch` | server/src/lib/app-settings-runtime.js:772-823 | Whatever the cache, the planned operations do to each key of a map what was submitted for it and leave every other key, except a blank for a sensitive key the cache does not hold, which plans nothing |
| `PatchedSettings.MigrationMeaning` | server/src/lib/app-settings-runtime.js:341-366 | What one load does to the two names of either rail's poll interval and to any other key: whole seconds, rounded up, move to a new name that is unset or blank, and everything else stays |
| `PatchedSettings.PatchReachesCacheIff` | server/src/lib/app-settings-runtime.js:772-830 | After an accepted patch and the reload, from any cache and any table, a key holds what the patch makes of it exactly unless a stale cache lost its clearing or waiting legacy seconds move into or out of it |
| `PatchedSettings.PatchedSettingsResolve` | server/src/lib/app-settings-runtime.js:144-153 | What every registered setting resolves to after an accepted patch: waiting legacy seconds if left without a value, else its normalized value, the environment's if cleared, or what it was before; a submitted value did validate |
| `PatchedSettings.PatchedValuesReadBack` | server/src/lib/app-settings-runtime.js:159-267 | After an accepted patch the typed getters read a submitted value as the number or flag that was entered |
| `PatchedSettings.ClearedIntervalReturns` | server/src/lib/app-settings-runtime.js:341-366 | A table on which clearing an interval of a minute brings back the 4001 ms of a row deleted before, as 5 seconds |
| `PatchedSettings.ClearingIsLost` | server/src/lib/app-settings-runtime.js:790-800 | A table and a stale cache with which an accepted clearing of a sensitive key changes nothing |
| `AppSettings.NormalizedValuesReadBack` | server/src/lib/app-settings-runtime.js:159-267 | The typed getters read a normalized value as the number or flag that was entered |
| `AppSettings.ValidatedNotBlank` | server/src/lib/app-settings-runtime.js:520-616 | A value that validates is not stored as a blank, so it does count as an override |
| `AppSettings.ValidateMeans` | server/src/lib/app-settings-runtime.js:520-616 | Per kind of setting, which texts are accepted and what is stored: integers within the limits of their key, six words for a flag, non-negative big integers, amounts of at least one millionth with at most six decimals, other texts as they are |
| `AppSettings.GettersReadAnyRow` | server/src/lib/app-settings-runtime.js:144-267 | Any non-blank value, validated or not, reads as itself, as the number it starts with, as the big integer it is, or as a flag; the two kinds of flag differ exactly on texts outside "true", "1", "yes", "false" and "0" |
| `AppSettings.GettersFallBack` | server/src/lib/app-settings-runtime.js:144-267 | A setting unregistered, unset or blank leaves every getter to the environment |
| `AppSettings.Settings.UpsertKeyValue` | server/src/lib/app-settings-runtime.js:290-323 | The method updates the table as specified; the active map gains one mapping |
| `AppSettings.Settings.SoftDeleteKey` | server/src/lib/app-settings-runtime.js:328-338 | The method updates the table as specified; the active map loses one mapping |
| `AppSettings.Settings.MigrateLegacyKeys` | server/src/lib/app-settings-runtime.js:341-366 | The loop over the two pairs is the specified migration |
| `AppSettings.Settings.Load` | server/src/lib/app-settings-runtime.js:368-377 | After a load the cache is exactly the rows in scope of the migrated table |
| `AppSettings.Settings.ApplyPatch` | server/src/lib/app-settings-runtime.js:772-830 | All or nothing: a rejected patch changes neither rows nor cache and names the first fault, an accepted one writes the plan and ends with a cache equal to the table |
| `Amounts.ParseIsExactFlooring` | server/src/lib/gateway-expected-amount.js:49-92 | Every outcome is decided by the trimmed length, the grammar, and floor(number * 10^decimals) with decimals clamped to 0..36: a well-formed text of at most 80 characters is rejected exactly when that floor is 0 or above 10^24 |
| `Amounts.WellFormedIs` | server/src/lib/gateway-expected-amount.js:73-80 | Digits, or digits around one dot, are well-formed and denote the sum of whole number and fraction |
| `Amounts.FractionIs` | server/src/lib/gateway-expected-amount.js:31-38 | A fraction of n digits denotes their number divided by 10^n |
| `Amounts.ScaleIs` | server/src/lib/gateway-expected-amount.js:31-38 | Scaling to n decimals multiplies by 10^n |
| `Amounts.BranchesAgree` | server/src/lib/gateway-expected-amount.js:49-92 | The digits-only and the dotted branch agree under any leading zeros and trailing fractional zeros |
| `Amounts.DecimalPartsFloor` | server/src/lib/gateway-expected-amount.js:31-38 | Slicing and padding the fraction computes the floor of the scaled number |
| `Amounts.SameAmountSameAnswer` | server/src/lib/gateway-expected-amount.js:49-92 | Short texts that denote the same number get the same answer |
| `Amounts.FormatDenotes` | server/src/lib/format-atomic-amount.js:7-20 | The printed form of n >= 0 is a trimmed well-formed decimal that denotes exactly n atomic units |
| `Amounts.FormatIsCanonical` | server/src/lib/format-atomic-amount.js:7-20 | The printed form has no leading zero but one before the dot, no trailing zero after it, no dot without a fraction, and no more places than decimals clamped to 0..36 |
| `Amounts.WholeAmounts` | server/src/lib/format-atomic-amount.js:7-20 | Whole amounts print as integers, negative ones with one minus sign |
| `Amounts.FormatReads` | server/src/lib/format-atomic-amount.js:7-20 | Texts of one integer print alike; a text that is no integer is returned as it is |
| `Amounts.ParseUndoesFormat` | server/src/lib/format-atomic-amount.js:7-20 | For 1 <= n <= 10^24 and any decimals, parsing the printed form returns n |
| `Amounts.FormatIsDecimalIff` | server/src/lib/format-atomic-amount.js:7-20 | On integers of either sign the output is a decimal number exactly when the amount is non-negative or whole: otherwise a second minus sign follows the dot |
| `Amounts.NegativeFractionExample` | server/src/lib/format-atomic-amount.js:7-20 | Minus fifteen at one decimal prints with two minus signs |
| `Amounts.AdminParseIsExact` | server/src/lib/app-settings-runtime.js:104-121 | The administrator's parser refuses what is not digits with at most one dot and six places behind it, and floors exactly on everything else |
| `Amounts.AdminAgreesWithGateway` | server/src/lib/app-settings-runtime.js:104-121 | What the administrator may enter, the gateway reads as the same atomic amount |
| `Amounts.DisplayIsFormatIff` | server/src/lib/app-settings-runtime.js:78-96 | The two printers at six decimals agree exactly on non-negative integers and on non-integers without surrounding space |
| `Amounts.DisplayIs` | server/src/lib/app-settings-runtime.js:78-96 | The administrator's page shows non-negative integers as the gateway prints them at six decimals, and anything else trimmed |
| `Amounts.AdminParseUndoesDisplay` | server/src/lib/app-settings-runtime.js:78-121 | Entering what is displayed stores the same atomic amount |
| `Fees.SplitConserves` | client/src/lib/merchantFeeMath.js:22-34 | When the rates sum to at most 10000 basis points the split charges each percentage's fee on the gross, its three lines are non-negative and sum to the gross, and the net exceeds its own exact share by less than two units |
| `Fees.SplitAlwaysSucceedsIff` | client/src/lib/merchantFeeMath.js:22-34 | Every gross can be split exactly when the rates sum to at most 10000 basis points |
| `Fees.SplitRefusedIff` | client/src/lib/merchantFeeMath.js:22-34 | A split is refused exactly for a negative gross or for fees that together exceed it; the sequential one only for a negative gross |
| `Fees.SequentialConserves` | server/src/lib/merchant-fee-math.js:31-55 | The sequential split charges the second percentage on what the first leaves, never refuses, conserves the gross and never leaves the merchant less than the parallel one |
| `Fees.FeeIsShare` | client/src/lib/merchantFeeMath.js:6-17 | With b the percentage times 100, halves rounded up, between 0 and 10000, the fee is the largest amount f with 10000 f <= gross * b |
| `Fees.FeeIsNearPercent` | client/src/lib/merchantFeeMath.js:6-17 | The fee is the percentage of the gross up to gross / 20000 and one unit |
| `Fees.FeeMirrors` | client/src/lib/merchantFeeMath.js:6-17 | Fees on negative amounts are those on positive ones with the sign changed |
| `Fees.FeesOfMany` | client/src/lib/merchantFeeMath.js:6-17 | For n grosses: summed fees <= fee of the sum <= summed fees + n - 1 |
| `WalletList.KeyIdentifies` | server/src/lib/admin-wallets-unique-address-list.js:12-49 | Two groups share a merge key exactly when chain, currency, network and environment are equal and so are the addresses, white space around them aside and, on Ethereum, the case of letters |
| `WalletList.MergedSpeaks` | server/src/lib/admin-wallets-unique-address-list.js:38-73 | The entry of an identity carries the columns of its group with the highest id and counts all its groups |
| `WalletList.MergeIgnoresOrder` | server/src/lib/admin-wallets-unique-address-list.js:38-73 | The entry does not depend on the order the groups arrive in |
| `WalletList.Merge` | server/src/lib/admin-wallets-unique-address-list.js:35-73 | The merge loop leaves exactly one specified entry per key, keys in order of first appearance |
| `WalletList.CountsAddUp` | server/src/lib/admin-wallets-unique-address-list.js:53-66 | Over the identities the group counts sum to the groups that have a wallet |
| `WalletGroups.RowCountCountsRowsIff` | server/src/lib/admin-wallets-unique-address-list.js:29-66 | With the groups of any wallet rows, in any order, the row count of a wallet's identity is the number of wallets of that identity exactly if no two of them are equal in all but their id, and smaller otherwise |
| `WalletGroups.TwinsCountOnce` | server/src/lib/admin-wallets-unique-address-list.js:29-66 | Two wallets with equal columns have row count 1 |
| `WalletGroups.EntryIsHighestWallet` | server/src/lib/admin-wallets-unique-address-list.js:29-73 | From wallet rows to entry: a wallet's identity is listed with all columns of the wallet of that identity with the highest id |
| `WalletGroups.OnlyWalletsAreListed` | server/src/lib/admin-wallets-unique-address-list.js:35-73 | Every entry is of some wallet's identity |
| `WalletGroups.GroupsHaveDistinctIds` | server/src/lib/admin-wallets-unique-address-list.js:29-33 | Grouped rows with distinct ids meet what the merge asks of its groups |
| `WalletPages.FetchBalances` | server/src/lib/admin-wallets-unique-address-list.js:77-90 | The balance map filled in batches of 2000 answers every listed id as a direct lookup would |
| `WalletPages.BalanceReads` | server/src/lib/admin-wallets-unique-address-list.js:77-90 | A balance is the number its trimmed digits show; without a text of digits, or without the wallet, it is zero |
| `WalletPages.FullListIsTheListing` | server/src/lib/admin-wallets-unique-address-list.js:75-98 | The list holds exactly the merged entries, the larger balance first and between equal balances the higher id |
| `WalletPages.EachIdentityOnce` | server/src/lib/admin-wallets-unique-address-list.js:35-98 | Every identity with a wallet is listed at exactly one place |
| `WalletPages.RowCountsAddUp` | server/src/lib/admin-wallets-unique-address-list.js:53-98 | The row counts of the list add up to the groups with a wallet |
| `WalletPages.ListIgnoresArrivalOrder` | server/src/lib/admin-wallets-unique-address-list.js:35-98 | The list depends neither on the order of the groups nor on that of the wallet rows |
| `WalletPages.SortedIsUnique` | server/src/lib/admin-wallets-unique-address-list.js:91-97 | The comparator admits one sorted result only |
| `WalletPages.ListWallets` | server/src/lib/admin-wallets-unique-address-list.js:28-107 | The whole function returns the specified page of the specified list |
| `WalletPages.PageShows` | server/src/lib/admin-wallets-unique-address-list.js:99-106 | A page has the total, the ids of the list from its place on as far as they go, and the row count of exactly these |
| `WalletPages.RowCountsOnPage` | server/src/lib/admin-wallets-unique-address-list.js:102-104 | The map of a page gives each of its wallets its own count and has no other key |
| `WalletPages.PagesCoverTheList` | server/src/lib/admin-wallets-unique-address-list.js:99-106 | Walking pages of any size over unchanged data concatenates to the whole list, though every call may see rows in another order |
| `AutoSwap.NormalizeStored` | server/src/lib/merchant-auto-swap-settings.js:156-199 | The two loops compute the specified settings |
| `AutoSwap.NormalizedReads` | server/src/lib/merchant-auto-swap-settings.js:156-199 | A rail reads the address of its last row; its minimum is the last non-blank entry of the map, else that of its first row with one |
| `AutoSwap.NormalizedAddress` | server/src/lib/merchant-auto-swap-settings.js:156-199 | A rail reads the address of the last row that names it: treasury_address if that is a text, else address, else blank |
| `AutoSwap.NormalizedElse` | server/src/lib/merchant-auto-swap-settings.js:156-199 | A rail no row names has no destination; a version that is not a positive integer reads as 1 |
| `AutoSwap.MinimumFromMap` | server/src/lib/merchant-auto-swap-settings.js:156-199 | The last non-blank property of the minimum map whose key trims to the rail gives its minimum |
| `AutoSwap.MinimumFromRows` | server/src/lib/merchant-auto-swap-settings.js:156-199 | Without one, the first row of the rail with a non-blank min_amount_decimal, or min_amount if that is null, gives it; without such a row there is none |
| `AutoSwap.NormalizationIdempotent` | server/src/lib/merchant-auto-swap-settings.js:156-199 | Normalized settings, stored and read again in any property order, normalize to themselves, destination order included |
| `AutoSwap.MergePayload` | server/src/lib/merchant-auto-swap-settings.js:212-256 | The merge with its delete branch computes the specified settings |
| `AutoSwap.MergeTwiceIsOnce` | server/src/lib/merchant-auto-swap-settings.js:212-256 | Merging the same payload into the stored result changes nothing, order included |
| `AutoSwap.MergeReads` | server/src/lib/merchant-auto-swap-settings.js:212-256 | After a merge a rail the payload names reads the payload's address, any other its stored one; a minimum the payload gives replaces the stored one; without a payload the stored settings are returned |
| `AutoSwap.MergeKeepsPositions` | server/src/lib/merchant-auto-swap-settings.js:221-241 | Stored rails keep their places, new ones follow |
| `AutoSwap.BlankMinimumDeletesNothing` | server/src/lib/merchant-auto-swap-settings.js:243-254 | A rail for which the payload gives only blank minimums keeps its stored one, and no merge removes a minimum: the deletion is never reached |
| `AutoSwapPlan.ValidateState` | server/src/lib/merchant-auto-swap-settings.js:268-367 | The loops return the specified output or the first fault in the order of the code |
| `AutoSwapPlan.ValidIff` | server/src/lib/merchant-auto-swap-settings.js:268-367 | Settings validate exactly when every rail named is TRC20 or ERC20 with a minimum that is blank or a non-negative number and an address that is blank or passes TronWeb or ethers, and, when enabled, one is named and none lacks an address |
| `AutoSwapPlan.RailsMembers` | server/src/lib/merchant-auto-swap-settings.js:268-270 | The rails validated are the supported ones, trimmed, that are not blank |
| `AutoSwapPlan.ReadForValidation` | server/src/lib/merchant-auto-swap-settings.js:269-291 | The address validated for a rail is that of its last row, the minimum that of the map, both trimmed |
| `AutoSwapPlan.ValidationIsFixedPoint` | server/src/lib/merchant-auto-swap-settings.js:268-367 | The output, stored and read back, validates to itself |
| `AutoSwapPlan.FamiliesAreGatewayRails` | server/src/lib/merchant-auto-swap-settings.js:87-101 | A key has an address family exactly when it is a gateway rail's own key, TRON's for the TRON rail and EVM's for the Ethereum one |
| `AutoSwapPlan.CheckedAddressIsStable` | server/src/lib/merchant-auto-swap-settings.js:124-146 | A normalized address validates to itself |
| `AutoSwapPlan.PlanEnabledIff` | server/src/lib/merchant-auto-swap-settings.js:382-409 | The plan is enabled exactly when the merchant exists, auto-swap is on and every supported rail, at least one, is acceptable; otherwise every sweep is refused as needing auto-swap |
| `AutoSwapPlan.PlanCoversRails` | server/src/lib/merchant-auto-swap-settings.js:382-409 | Under an enabled plan every supported rail, and no other, has exactly one destination: the stored address if TronWeb decodes it for TRC20, what ethers makes of it for ERC20 |
| `AutoSwapPlan.SweepResolves` | server/src/lib/merchant-auto-swap-settings.js:31-78 | Under an enabled plan a sweep of a supported rail goes to such an address with the stored minimum in millionths, and fails only on a minimum that is a number but not a six-decimal amount; any other rail has no treasury |
| `AutoSwapPlan.ValidMinimumMayNotSweep` | server/src/lib/merchant-auto-swap-settings.js:52-63 | Such a minimum: seven decimals pass the validation and fail the sweep |
| `Rails.KeyRoundTripIff` | server/src/config/payment-rails.js:71-88 | Printing a rail key and parsing it back gives both parts trimmed and in capitals exactly when neither holds a bar |
| `Rails.KeySplits` | server/src/config/payment-rails.js:85-88 | Of a key the parts before and after its first bar count, up to a second one, trimmed and in capitals |
| `Rails.KeyCanonical` | server/src/config/payment-rails.js:71-88 | Reprinting a parsed key is a canonical form |
| `Rails.ResolveIs` | server/src/config/payment-rails.js:33-49 | USDT on TRC20 resolves to TRON and USDT on ERC20 to Ethereum, in any case and with white space around the parts; nothing else resolves |
| `Rails.DepositCheckIs` | server/src/api/gateway-routes.js:485-539 | The outcome of the deposit-address checks for any text asked for: unsupported unless it is one of the two pairs, then not enabled by TRON-only, saved rails or default chains, then switched off, else accepted |
| `Rails.ListSupportedPairs` | server/src/config/payment-rails.js:186-247 | The loops with their seen sets compute the specified list |
| `RailListing.ListedExactlyAcceptedIff` | server/src/api/gateway-routes.js:485-539 | The listed pairs are exactly the rails deposit-address accepts, except in one branch: TRON-only off, no stored rails, no gateway rail on the default chains, and a default pair that resolves to a live chain |
| `RailListing.UnaskedDefaultIsRefused` | server/src/config/payment-rails.js:230-246 | In that branch the one pair listed is refused as not enabled |
| `RailListing.BareMerchantListsUnaskedDefault` | server/src/config/payment-rails.js:230-246 | A merchant row left at the column defaults of the schema, without a default chain, is in that branch while TRON is live; the API stores none |
| `RailListing.ListedWithoutRepeats` | server/src/config/payment-rails.js:186-247 | No pair is listed twice |
| `RailListing.FinalizeMembers` | server/src/config/payment-rails.js:160-179 | With TRON-only on, whatever was collected becomes USDT/TRC20 if TRON is live and nothing otherwise |
| `RailListing.ListedByChain` | server/src/config/payment-rails.js:218-232 | By default chains, TRC20 is listed before ERC20, each if its chain is a default one and not switched off |
| `RailSaving.ParseSupportedRails` | server/src/lib/merchant-default-pair.js:17-57 | The loop returns the specified keys or the first error |
| `RailSaving.CollectMeans` | server/src/lib/merchant-default-pair.js:36-57 | A list is accepted exactly when every item is; the keys are those of the items, each once |
| `RailSaving.SaveMeans` | server/src/lib/merchant-default-pair.js:17-57 | With TRON-only off or ignored a list is saved exactly if it has an item and each non-blank item names a live rail on a default chain; saved are the keys of the rails named, each once |
| `RailSaving.SaveKeepsOrder` | server/src/lib/merchant-default-pair.js:36-57 | Keys are saved in the order they are first named in |
| `RailSaving.TronOnlySave` | server/src/lib/merchant-default-pair.js:27-35 | With TRON-only on, any non-empty list saves the TRC20 key alone, if TRON is live and a default chain |
| `RailSaving.CollectIdempotent` | server/src/lib/merchant-default-pair.js:17-57 | Saving again what was saved keeps it, order included |
| `RailSaving.SavesNothingIff` | server/src/lib/merchant-default-pair.js:21-35 | An accepted save stores no rail exactly when every item is blank (and TRON-only does not substitute its own) |
| `RailSaving.SavedRailsAreListedIff` | server/src/config/payment-rails.js:186-218 | After an accepted save with TRON-only off the list equals the saved keys in order exactly when an item was not blank, or the default chains (the default pair, if none of them has a rail) have nothing live to list |
| `RailListing.EmptyListIff` | server/src/config/payment-rails.js:220-246 | Without stored rails nothing is listed exactly when no default chain with a rail is live, or none has a rail and the default pair does not resolve or is not live |
| `RailSaving.BlankSaveIsAccepted` | server/src/lib/merchant-default-pair.js:18-35 | An array with one blank item is accepted and stores nothing; an empty array is refused |
| `RailSaving.PickedPairWorksIff` | server/src/lib/merchant-default-pair.js:65-101 | The picked default pair is accepted for deposits exactly if TRON-only is off or it is USDT/TRC20, and then it is among the listed pairs |
| `RailSaving.PickDefaultIs` | server/src/lib/merchant-default-pair.js:65-101 | The pair picked is the one asked for, blank parts filled from the first saved rail or the first chain, if it is one of the two, its chain live and a default one, and its key among any saved ones |
| `RailSaving.PickDefaultsToFirst` | server/src/lib/merchant-default-pair.js:72-79 | With nothing requested, the first saved rail is picked |
| `CheckoutRuns.FailedAtMostOnceAndRightfully` | server/src/lib/checkout-created-expiry-prisma-raw.js:14-68 | In every interleaving of passes, deposits with and without placeholder, new and refreshed checkouts and time, over any rows to begin with, each placeholder is failed at most once, and only one that was undeleted, waiting, unclaimed and older than its pass allows |
| `CheckoutRaces.PassFailsNextIff` | server/src/lib/checkout-created-expiry-prisma-raw.js:43-68 | A pass fails the next row of its batch exactly if that is still an undeleted waiting placeholder dated more than the pass's hours, at least one, before the pass began |
| `CheckoutRaces.WriteReplaces` | server/src/services/payment/transaction-upsert.js:307-326 | A deposit's write replaces hash, amount and status of the row it read, and the payer if it knows one, and nothing else |
| `CheckoutRaces.StepsArePossible` | server/src/services/payment/transaction-upsert.js:286-325 | What the steps of the system may do at any time and to which rows, so that no run is left out |
| `CheckoutRaces.ProcessesGoOn` | server/src/lib/checkout-created-expiry-prisma-raw.js:14-68 | Time, passes and deposits can always take their next step, whatever the others did |
| `CheckoutRaces.RefreshedIsNotFailed` | server/src/lib/checkout-created-expiry-prisma-raw.js:43-68 | A run in which a checkout of the batch is refreshed before its turn and the guarded update leaves it alone |
| `CheckoutRaces.StaysFailedIff` | server/src/services/payment/transaction-upsert.js:286-325 | In any state, a failed placeholder stays failed whatever happens next exactly when no deposit that has read it is still to write |
| `CheckoutRaces.FailedUnlessWritten` | server/src/services/payment/transaction-upsert.js:286-325 | Looking back, a marked row is still failed exactly if no deposit wrote it, and any deposit that did had read it before the mark |
| `CheckoutRaces.LateDepositOverwritesFailure` | server/src/services/payment/transaction-upsert.js:286-325 | Such a run exists: a placeholder announced as failed becomes a success |
| `CheckoutRaces.PaymentStaysIff` | server/src/services/payment/transaction-upsert.js:286-325 | In any state, the payment a deposit wrote stays in its row whatever happens next exactly when no other deposit that has read the row is still to write |
| `CheckoutRaces.SecondDepositOverwritesFirst` | server/src/services/payment/transaction-upsert.js:286-325 | A run in which two deposits read one placeholder and the second write replaces the first payment's hash and amount |
| `CheckoutRuns.RunKeeps` | server/src/lib/checkout-created-expiry-prisma-raw.js:14-68 | Every reachable state keeps the invariant behind both results |
| `Checkout.FindBatchIsBatch` | server/src/lib/checkout-created-expiry-prisma-raw.js:14-36 | The batch is the oldest stale rows, and all of them if fewer than its size |
| `Checkout.StaleIs` | server/src/lib/checkout-created-expiry-prisma-raw.js:14-36 | Query and update match undeleted rows opened before the cutoff whose hash starts with gateway-created: and that are created, or pending with an amount of 0 between spaces |
| `Checkout.TransactionTable.MarkFailed` | server/src/lib/checkout-created-expiry-prisma-raw.js:43-68 | The guarded update fails the row exactly if it is still stale, and changes nothing else |
| `Checkout.TransactionTable.ExpireStale` | server/src/services/checkout-session-expiry.js:27-122 | Undisturbed, a pass ends, fails every stale placeholder once, changes no other row and reports their number |
| `Checkout.BindingIsNewest` | server/src/lib/deposit-session-key.js:15-98 | Each query asks for the given payer, else the wallet's present one, else anybody, and answers with the newest such checkout by (created_at, id); the session-key and the reference function each return their part of the row their own query saw, empty texts as none |
| `Checkout.OpenIs` | server/src/lib/deposit-session-key.js:31-39 | The binding query matches undeleted created placeholders of the wallet, and of the payer if one is asked for |
| `DepositBinding.OneCheckoutForBothIff` | server/src/services/payment/transaction-upsert.js:128-141 | With any legal steps between a deposit's two queries, key and reference come from one checkout exactly when the first one's row is still open at the second and no other open checkout of that wallet and payer, opened or dated anew in between, comes after it; then both are that checkout's own |
| `DepositBinding.NewestStaysIff` | server/src/lib/deposit-session-key.js:31-59 | Over any run the newest open checkout stays the newest exactly while it is open and no other open one, opened or dated anew since, comes after it |
| `DepositBinding.ReadsCanMix` | server/src/services/payment/transaction-upsert.js:128-141 | A run in which one checkout's key is paired with another's reference |
| `DepositBinding.RefreshCanMix` | cron/src/services/wallet-pool/assign-pooled-wallet.js:279-285 | A run in which no checkout is opened between the queries, but an older one is dated anew, and key and reference are mixed |
| `Checkout.NewestIsNewest` | server/src/lib/deposit-session-key.js:31-59 | The selected row is open and no open row is newer; none is selected only if none is open |

## Left out

Parameters, with what is assumed of them:

- JSON.stringify of finite numbers is a parameter: one grammatical number token per number (`DecimalTokens`, `ExponentTokens` and `NoNumberTokens` show some that are and some that are not), -0 printed as 0; a printer meeting this is exhibited (`NumberPrinterExists`). Objects list each key once (`ObjectIsWellFormed`).
- AES-256-GCM, key derivation, base64 and UTF-8 are parameters assumed to be inverses, UTF-8 losing exactly unpaired surrogates; a platform meeting this is exhibited (`IdealPlatformExists`). Secrecy and forgery are not modelled.
- TronWeb's and ethers' address checks, parseUnits and Number are parameters; ethers.getAddress is assumed to map its answers to themselves (`ValidMinimumMayNotSweep` uses one that meets this).
- JSON.parse and re-serialisation of JSON-valued settings are one parameter, assumed to give no blank text.
- Decryption of explorer keys, the rows of each query and the passage of time during awaits are the environment's; a timer is assumed to wait at least its 25 ms.

- BigInt division is written as repeated subtraction, which is the usual quotient and remainder (`DivIsQuotient`), truncated toward zero for negative amounts.

Not modelled:

- Toggling of the deletedAt capability: whether the client knows the column is one constant per process, as the probe stores it.
- The explorer count cache (lines 90-99), per process and valid only without interleaving.
- Concurrent leases against the day quota: requests are counted after success, so leases in flight may exceed the cap; only what is counted is claimed.
- Doubles beyond their exact range: parseInt results past 2^53, and their exponent form when printed.
- Non-integer or NaN decimals of the amount printer; decimals are integers, clamped as in the code.
- Percentages are reals; only the rounding to basis points is kept, not that of the floating-point product.
- Case folding outside ASCII, and strings in the modules other than canonical JSON as UTF-16.
- Array holes, toJSON and symbol keys in request bodies.
- Rail keys that are names of Object.prototype members, which plain-object lookups would find.
- Property order of the minimum object: it is read by key only, and all settings have a stored form in the sense used (`StoredFormExists`). Raw entries keep their order, since two raw keys may trim to one rail.
- Aliasing of merged wallet entries: they are values stored back under their key; the objects never leave the function.
- Changes to wallets between the calls of a page walk; within one call the group query and the balance query may see different tables.
- Which error text accompanies a refusal, and the precedence of a setting's error messages within one value.
- applyLoggerLevel and the pruning of merchants after a settings patch.
- Wallet release and failure notices after a placeholder is failed, and the difference between the two query paths of the expiry pass (one trims the amount; the trimming one is modelled).
- The wallet-wide retry of a deposit whose two queries left something open, the reference made up when that finds none, and a wallet whose assignment changes between the two queries: the payer is settled before them.
- Deposits reach placeholders through a read and an unguarded update by id; how the target is chosen there beyond being an open placeholder is not part of this model. Which checkout a repeated deposit-address request refreshes is left open too: any row may be dated anew, as that update goes by id as well.
- The listing helpers of the administrator's settings page and the import of settings from the environment.
