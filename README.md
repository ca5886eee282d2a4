# SQL account system of DiscordSRV, in Dafny

DiscordSRV links a Minecraft player (a UUID) to a Discord user (a string id).
`SqlAccountSystem` keeps those links in two SQL tables: `accounts(uuid, discord)`
and `codes(code, uuid)`, which holds the pending linking codes. This project
models that class as a small state machine over the two tables and proves what
its operations do to them.

- `options.dfy` holds the `Option` datatype.
- `uuids.dfy` models a UUID as 16 octets. It also models the canonical text form
  of section 3 of RFC 4122: five groups of lower-case hex digits, 8-4-4-4-12,
  separated by hyphens. `ToText` plays `UUID.toString` and `FromText` plays
  `UUID.fromString`. Both round trips are proved.
- `representation.dfy` models the two storage modes chosen by
  `canStoreNativeUuids()`. A uuid column holds either the identifier itself
  (`Native`) or its text form (`Text`). `Encode` is the value bound with
  `setObject`; `Decode` is the `getObject` cast or the `fromString` of a read.
- `accounts.dfy` models the `accounts` table as a sequence of rows in the order
  the backend returns them. It defines the first-row lookups of `getDiscordId`
  and `getUuid`, the `update … where` / `insert` / `delete … where` statements,
  and the update-or-insert of each `setLinked…` method.
- `account_properties.dfy` holds the lemmas about those statements. They cover
  what is linked afterwards, which rows change, the row counts per key, the
  "at most one row per key" invariant, idempotence, and the counterexamples to
  1:1 linking.
- `linking_codes.dfy` models the `codes` table. It defines the fold of
  `getLinkingCodes` into a map, where a later row overwrites an earlier one,
  and the `where code = ?` lookup, with its placeholder either bound or left
  unset.
- `sql_account_system.dfy` holds the class `SqlAccountSystem`, which owns both
  tables and a ghost log of the linked/unlinked notifications.
  - The pure functions `SetLinkedDiscordSpec` and `SetLinkedMinecraftSpec`
    state what each call does: its outcome, the new table and the
    notifications fired.
  - The methods `SetLinkedDiscord` and `SetLinkedMinecraft` issue their
    statements one by one and are proved to follow those functions.
  - The lemmas beside them prove what each call promises.

A statement can raise an SQLException. The model represents this by the set
`rejected` of statements the backend refuses. A refused statement raises before
it changes anything, and the exception propagates to the caller unchanged. In
the class, `rejected` is fixed, so a refused kind of statement is refused on
every call. The specification functions take it as a parameter, so lemmas
about several calls can give each call its own refusals.

`isLinked` belongs to `BaseAccountSystem`, which is not part of this model. The
model takes `isLinked(uuid)` to mean `getDiscordId(uuid) != null` and
`isLinked(discordId)` to mean `getUuid(discordId) != null`. This is an
assumption. `IsLinkedUuid` and `IsLinkedDiscord` state it.

## Model

| member | source | states |
|---|---|---|
| Uuids.FromTextOfToText | src/main/java/github/scarsz/discordsrv/linking/impl/system/sql/SqlAccountSystem.java:52 | `UUID.fromString(u.toString())` is `u`: the 8-4-4-4-12 lower-case hex text form of section 3 of RFC 4122 reads back as the identifier it was written for |
| Uuids.ToText | src/main/java/github/scarsz/discordsrv/linking/impl/system/sql/SqlAccountSystem.java:52 | `UUID.toString`: always 36 characters; `ToTextIsCanonical`, `FromTextOfToText` and `ToTextInjective` give it its meaning |
| Uuids.ToTextOfFromText | src/main/java/github/scarsz/discordsrv/linking/impl/system/sql/SqlAccountSystem.java:74 | a canonical 36-character text always parses, and the identifier it parses to is written back as the same text |
| Uuids.ToTextIsCanonical | src/main/java/github/scarsz/discordsrv/linking/impl/system/sql/SqlAccountSystem.java:52 | the text written for any identifier is canonical: 36 characters, hyphens at 8, 13, 18 and 23, lower-case hex digits elsewhere |
| Uuids.ToTextInjective | src/main/java/github/scarsz/discordsrv/linking/impl/system/sql/SqlAccountSystem.java:52 | distinct identifiers have distinct text forms |
| Uuids.ParseHexOfHex | src/main/java/github/scarsz/discordsrv/linking/impl/system/sql/SqlAccountSystem.java:52 | every octet string reads back from its hex digits |
| Uuids.HexOfParseHex | src/main/java/github/scarsz/discordsrv/linking/impl/system/sql/SqlAccountSystem.java:74 | lower-case hex digits that parse are written back unchanged |
| Uuids.FromText | src/main/java/github/scarsz/discordsrv/linking/impl/system/sql/SqlAccountSystem.java:74 | a text is accepted only with 36 characters and hyphens at the four group boundaries |
| Representation.Encode | src/main/java/github/scarsz/discordsrv/linking/impl/system/sql/SqlAccountSystem.java:52 | the value bound for a uuid placeholder is the native identifier exactly when `canStoreNativeUuids()` holds, its text form otherwise |
| Representation.Decode | src/main/java/github/scarsz/discordsrv/linking/impl/system/sql/SqlAccountSystem.java:71-75 | a read succeeds only on a value of the mode's own kind; in native mode it is the stored identifier |
| Representation.DecodeOfEncode | src/main/java/github/scarsz/discordsrv/linking/impl/system/sql/SqlAccountSystem.java:71-75 | in both modes the value written for an identifier reads back as that identifier, and is canonical |
| Representation.EncodeOfDecode | src/main/java/github/scarsz/discordsrv/linking/impl/system/sql/SqlAccountSystem.java:71-75 | a canonical column value always reads, and writing what was read gives back the same value |
| Representation.EncodeInjective | src/main/java/github/scarsz/discordsrv/linking/impl/system/sql/SqlAccountSystem.java:52 | two identifiers have the same stored form only if they are equal, so a lookup by stored value is a lookup by identifier |
| Representation.EncodeMatchesDecode | src/main/java/github/scarsz/discordsrv/linking/impl/system/sql/SqlAccountSystem.java:52-54 | on canonical values, a match on the stored form is a match on the identifier read from it |
| Accounts.FindDiscord | src/main/java/github/scarsz/discordsrv/linking/impl/system/sql/SqlAccountSystem.java:51-57 | `select discord ... where uuid = ?`: null exactly when no row holds the stored form; otherwise the discord id of the first such row |
| Accounts.FindUuid | src/main/java/github/scarsz/discordsrv/linking/impl/system/sql/SqlAccountSystem.java:67-77 | `select uuid ... where discord = ?`: null exactly when no row holds the discord id; otherwise the uuid value of the first such row |
| Accounts.CountUuid | src/main/java/github/scarsz/discordsrv/linking/impl/system/sql/SqlAccountSystem.java:51-57 | zero exactly when no row holds the stored uuid, and never more than the table's rows |
| Accounts.CountDiscord | src/main/java/github/scarsz/discordsrv/linking/impl/system/sql/SqlAccountSystem.java:67-77 | zero exactly when no row holds the discord id, and never more than the table's rows |
| Accounts.SetDiscordWhere | src/main/java/github/scarsz/discordsrv/linking/impl/system/sql/SqlAccountSystem.java:89-92 | `update accounts set discord = ? where uuid = ?`; its meaning, row by row, is stated by `LinkByUuidFrame` |
| Accounts.SetUuidWhere | src/main/java/github/scarsz/discordsrv/linking/impl/system/sql/SqlAccountSystem.java:119-122 | `update accounts set uuid = ? where discord = ?`; its meaning, row by row, is stated by `LinkByDiscordFrame` |
| Accounts.DeleteUuid | src/main/java/github/scarsz/discordsrv/linking/impl/system/sql/SqlAccountSystem.java:104-106 | `delete from accounts where uuid = ?`; its meaning is stated by `DeleteUuidRemoves`, `DeleteUuidKeepsOtherRows`, `DeleteUuidConcat` and `DeleteUuidUnlinks` |
| Accounts.DeleteDiscord | src/main/java/github/scarsz/discordsrv/linking/impl/system/sql/SqlAccountSystem.java:134-136 | `delete from accounts where discord = ?`; its meaning is stated by `DeleteDiscordRemoves`, `DeleteDiscordKeepsOtherRows`, `DeleteDiscordConcat` and `DeleteDiscordUnlinks` |
| Accounts.LinkByUuid | src/main/java/github/scarsz/discordsrv/linking/impl/system/sql/SqlAccountSystem.java:88-100 | the update-or-insert of `setLinkedDiscord` with a discord id; its meaning is stated by `LinkByUuidLinks`, `LinkByUuidFrame`, `LinkByUuidCounts`, `LinkByUuidKeepsAtMostOnePerUuid` and `LinkByUuidIdempotent` |
| Accounts.LinkByDiscord | src/main/java/github/scarsz/discordsrv/linking/impl/system/sql/SqlAccountSystem.java:118-130 | the update-or-insert of `setLinkedMinecraft` with a uuid; its meaning is stated by `LinkByDiscordLinks`, `LinkByDiscordFrame`, `LinkByDiscordCounts`, `LinkByDiscordKeepsAtMostOnePerDiscord` and `LinkByDiscordIdempotent` |
| AccountProperties.LinkByUuidLinks | src/main/java/github/scarsz/discordsrv/linking/impl/system/sql/SqlAccountSystem.java:88-99 | after the update-or-insert keyed by uuid, the first row with U holds D, whatever the table held before |
| AccountProperties.LinkByUuidFrame | src/main/java/github/scarsz/discordsrv/linking/impl/system/sql/SqlAccountSystem.java:88-99 | the update rewrites exactly the rows with U and the insert appends one row; every other uuid's lookup is unchanged |
| AccountProperties.LinkByUuidCounts | src/main/java/github/scarsz/discordsrv/linking/impl/system/sql/SqlAccountSystem.java:88-99 | afterwards max(1, before) rows hold U, and every other uuid's count is unchanged |
| AccountProperties.LinkByUuidKeepsAtMostOnePerUuid | src/main/java/github/scarsz/discordsrv/linking/impl/system/sql/SqlAccountSystem.java:88-99 | "at most one row per uuid" is kept, because the insert happens only when U is not linked |
| AccountProperties.LinkByUuidIdempotent | src/main/java/github/scarsz/discordsrv/linking/impl/system/sql/SqlAccountSystem.java:88-99 | the update-or-insert twice with the same arguments leaves the rows of once |
| AccountProperties.LinkByUuidResolvesBack | src/main/java/github/scarsz/discordsrv/linking/impl/system/sql/SqlAccountSystem.java:88-99 | when no other uuid holds D, the reverse lookup of D afterwards finds U |
| AccountProperties.LinkByUuidMayShareDiscord | src/main/java/github/scarsz/discordsrv/linking/impl/system/sql/SqlAccountSystem.java:94-99 | counterexample: linking a second uuid to a discord id that another uuid holds gives two rows with that discord id, and the reverse lookup still finds the first uuid |
| AccountProperties.DeleteUuidRemoves | src/main/java/github/scarsz/discordsrv/linking/impl/system/sql/SqlAccountSystem.java:103-106 | every row left by `delete ... where uuid = ?` is a row of the table that does not hold U |
| AccountProperties.DeleteUuidConcat | src/main/java/github/scarsz/discordsrv/linking/impl/system/sql/SqlAccountSystem.java:104-106 | the delete by uuid works row by row and keeps the order of the rows it keeps |
| AccountProperties.DeleteUuidKeepsOtherRows | src/main/java/github/scarsz/discordsrv/linking/impl/system/sql/SqlAccountSystem.java:103-106 | the delete keeps every row that does not hold U, as often as the table held it |
| AccountProperties.DeleteUuidKeepsLookup | src/main/java/github/scarsz/discordsrv/linking/impl/system/sql/SqlAccountSystem.java:103-106 | the delete keeps the lookup of every other uuid |
| AccountProperties.DeleteUuidKeepsCount | src/main/java/github/scarsz/discordsrv/linking/impl/system/sql/SqlAccountSystem.java:103-106 | the delete keeps the count of every other uuid |
| AccountProperties.DeleteUuidUnlinks | src/main/java/github/scarsz/discordsrv/linking/impl/system/sql/SqlAccountSystem.java:102-107 | after the delete, U's lookup is null and no row holds U; other uuids' lookups and counts are unchanged and "at most one row per uuid" is kept |
| AccountProperties.LinkByDiscordLinks | src/main/java/github/scarsz/discordsrv/linking/impl/system/sql/SqlAccountSystem.java:118-129 | after the update-or-insert keyed by discord id, the first row with D holds U |
| AccountProperties.LinkByDiscordFrame | src/main/java/github/scarsz/discordsrv/linking/impl/system/sql/SqlAccountSystem.java:118-129 | the update rewrites exactly the rows with D and the insert appends one row; every other discord id's lookup is unchanged |
| AccountProperties.LinkByDiscordCounts | src/main/java/github/scarsz/discordsrv/linking/impl/system/sql/SqlAccountSystem.java:118-129 | afterwards max(1, before) rows hold D, and every other discord id's count is unchanged |
| AccountProperties.LinkByDiscordKeepsAtMostOnePerDiscord | src/main/java/github/scarsz/discordsrv/linking/impl/system/sql/SqlAccountSystem.java:118-129 | "at most one row per discord id" is kept |
| AccountProperties.LinkByDiscordIdempotent | src/main/java/github/scarsz/discordsrv/linking/impl/system/sql/SqlAccountSystem.java:118-129 | the update-or-insert twice with the same arguments leaves the rows of once |
| AccountProperties.LinkByDiscordResolvesBack | src/main/java/github/scarsz/discordsrv/linking/impl/system/sql/SqlAccountSystem.java:118-129 | when no other discord id holds U, the lookup of U afterwards finds D |
| AccountProperties.LinkByDiscordMayShareUuid | src/main/java/github/scarsz/discordsrv/linking/impl/system/sql/SqlAccountSystem.java:124-129 | counterexample: linking a second discord id to a uuid that another discord id holds gives two rows with that uuid |
| AccountProperties.DeleteDiscordRemoves | src/main/java/github/scarsz/discordsrv/linking/impl/system/sql/SqlAccountSystem.java:133-136 | every row left by `delete ... where discord = ?` is a row of the table that does not hold D |
| AccountProperties.DeleteDiscordConcat | src/main/java/github/scarsz/discordsrv/linking/impl/system/sql/SqlAccountSystem.java:134-136 | the delete by discord id works row by row and keeps the order of the rows it keeps |
| AccountProperties.DeleteDiscordKeepsOtherRows | src/main/java/github/scarsz/discordsrv/linking/impl/system/sql/SqlAccountSystem.java:133-136 | the delete keeps every row that does not hold D, as often as the table held it |
| AccountProperties.DeleteDiscordKeepsLookup | src/main/java/github/scarsz/discordsrv/linking/impl/system/sql/SqlAccountSystem.java:133-136 | the delete keeps the lookup of every other discord id |
| AccountProperties.DeleteDiscordKeepsCount | src/main/java/github/scarsz/discordsrv/linking/impl/system/sql/SqlAccountSystem.java:133-136 | the delete keeps the count of every other discord id |
| AccountProperties.DeleteDiscordUnlinks | src/main/java/github/scarsz/discordsrv/linking/impl/system/sql/SqlAccountSystem.java:132-137 | after the delete, D's lookup is null and no row holds D; other discord ids are unchanged and "at most one row per discord id" is kept |
| SqlAccounts.ReadUuid | src/main/java/github/scarsz/discordsrv/linking/impl/system/sql/SqlAccountSystem.java:70-77 | the read of a found row: null when no row was found, an error exactly when the value does not decode, the decoded identifier otherwise |
| SqlAccounts.SetLinkedDiscordSpec | src/main/java/github/scarsz/discordsrv/linking/impl/system/sql/SqlAccountSystem.java:86-111 | what `setLinkedDiscord` does to the table and which notifications it fires; its meaning is stated by the `SetLinkedDiscord…` lemmas below |
| SqlAccounts.SetLinkedMinecraftSpec | src/main/java/github/scarsz/discordsrv/linking/impl/system/sql/SqlAccountSystem.java:116-141 | what `setLinkedMinecraft` does to the table and which notifications it fires; its meaning is stated by the `SetLinkedMinecraft…` lemmas below |
| SqlAccounts.FindDiscordByIdentifier | src/main/java/github/scarsz/discordsrv/linking/impl/system/sql/SqlAccountSystem.java:51-57 | over canonical rows, the lookup of U's stored form finds a row exactly when some row reads back as U |
| SqlAccounts.SetLinkedDiscordSets | src/main/java/github/scarsz/discordsrv/linking/impl/system/sql/SqlAccountSystem.java:86-107 | after a `setLinkedDiscord(U, D)` that returns, `getDiscordId(U)` is D; after `setLinkedDiscord(U, null)` it is null |
| SqlAccounts.SetLinkedDiscordFires | src/main/java/github/scarsz/discordsrv/linking/impl/system/sql/SqlAccountSystem.java:92-110 | linked `(D, U)` fires exactly once on every set that returns, even when D was already the counterpart; unlinked `(prev, U)` fires exactly when the pre-delete lookup found prev; a call that raises fires nothing and leaves the table as it was |
| SqlAccounts.SetLinkedDiscordKeepsOthers | src/main/java/github/scarsz/discordsrv/linking/impl/system/sql/SqlAccountSystem.java:86-107 | the lookup of every other uuid answers as before, on every outcome |
| SqlAccounts.SetLinkedDiscordKeepsAtMostOnePerUuid | src/main/java/github/scarsz/discordsrv/linking/impl/system/sql/SqlAccountSystem.java:86-107 | "at most one row per uuid" is an invariant of every call |
| SqlAccounts.SetLinkedDiscordIdempotent | src/main/java/github/scarsz/discordsrv/linking/impl/system/sql/SqlAccountSystem.java:88-101 | a second `setLinkedDiscord(U, D)` leaves the rows of the first. With the same refusals this holds on every outcome. After a first call that returned, it also holds when the second call meets different refusals, as with a failure that comes and goes. When the first call returned and the update is accepted, the second returns and fires linked again, exactly like the first |
| SqlAccounts.SetLinkedDiscordKeepsCanonical | src/main/java/github/scarsz/discordsrv/linking/impl/system/sql/SqlAccountSystem.java:89-99 | the rows written hold only values the codec writes |
| SqlAccounts.SetLinkedMinecraftSets | src/main/java/github/scarsz/discordsrv/linking/impl/system/sql/SqlAccountSystem.java:116-137 | after a `setLinkedMinecraft(D, U)` that returns, `getUuid(D)` reads back U; after `setLinkedMinecraft(D, null)` it is null |
| SqlAccounts.SetLinkedMinecraftFires | src/main/java/github/scarsz/discordsrv/linking/impl/system/sql/SqlAccountSystem.java:122-140 | linked `(D, U)` fires exactly once on every set that returns; unlinked `(D, prev)` fires exactly when `getUuid(D)` read prev; a call that raises fires nothing and leaves the table as it was |
| SqlAccounts.SetLinkedMinecraftKeepsOthers | src/main/java/github/scarsz/discordsrv/linking/impl/system/sql/SqlAccountSystem.java:116-137 | the lookup of every other discord id answers as before, on every outcome |
| SqlAccounts.SetLinkedMinecraftKeepsAtMostOnePerDiscord | src/main/java/github/scarsz/discordsrv/linking/impl/system/sql/SqlAccountSystem.java:116-137 | "at most one row per discord id" is an invariant of every call |
| SqlAccounts.SetLinkedMinecraftIdempotent | src/main/java/github/scarsz/discordsrv/linking/impl/system/sql/SqlAccountSystem.java:118-131 | a second `setLinkedMinecraft(D, U)` leaves the rows of the first. With the same refusals this holds on every outcome; after a first call that returned, it also holds under different refusals. When the first call returned and the update is accepted, the second returns and fires linked again, exactly like the first |
| SqlAccounts.SetLinkedMinecraftNeverMalformed | src/main/java/github/scarsz/discordsrv/linking/impl/system/sql/SqlAccountSystem.java:133 | over canonical rows the `getUuid` inside the call never raises for a malformed value |
| SqlAccounts.SetLinkedMinecraftKeepsCanonical | src/main/java/github/scarsz/discordsrv/linking/impl/system/sql/SqlAccountSystem.java:119-128 | the rows written hold only values the codec writes |
| SqlAccounts.CanonicalCodesCollect | src/main/java/github/scarsz/discordsrv/linking/impl/system/sql/SqlAccountSystem.java:169 | over canonical code rows the listing never raises for a malformed value |
| SqlAccounts.StoreLinkingCodeKeepsCanonical | src/main/java/github/scarsz/discordsrv/linking/impl/system/sql/SqlAccountSystem.java:181 | the stored row holds the value the codec writes, so the codes table stays canonical |
| SqlAccounts.GetDiscordIdReadsBack | src/main/java/github/scarsz/discordsrv/linking/impl/system/sql/SqlAccountSystem.java:48-62 | over canonical accounts rows and an accepted select, `getDiscordId(U)` does not raise and finds a row exactly when some row reads back as U |
| SqlAccounts.GetUuidReadsBack | src/main/java/github/scarsz/discordsrv/linking/impl/system/sql/SqlAccountSystem.java:64-82 | over canonical accounts rows and an accepted select, `getUuid(D)` does not raise; it is null exactly when no row holds D, and otherwise the identifier of the first row with D |
| SqlAccounts.SqlAccountSystem.GetDiscordId | src/main/java/github/scarsz/discordsrv/linking/impl/system/sql/SqlAccountSystem.java:48-62 | raises exactly when the select is rejected; otherwise the first-row lookup of U's stored form, null when absent |
| SqlAccounts.SqlAccountSystem.GetUuid | src/main/java/github/scarsz/discordsrv/linking/impl/system/sql/SqlAccountSystem.java:64-82 | raises when the select is rejected; otherwise the read of the first row holding D |
| SqlAccounts.SqlAccountSystem.IsLinkedUuid | src/main/java/github/scarsz/discordsrv/linking/impl/system/sql/SqlAccountSystem.java:88 | `isLinked(U)`, taken as `getDiscordId(U) != null`: it raises exactly when `getDiscordId(U)` raises, which is when the select is rejected; otherwise it is true exactly when some row holds U's stored form |
| SqlAccounts.SqlAccountSystem.IsLinkedDiscord | src/main/java/github/scarsz/discordsrv/linking/impl/system/sql/SqlAccountSystem.java:118 | `isLinked(D)`, taken as `getUuid(D) != null`: it raises exactly when `getUuid(D)` raises, which is when the select is rejected or the first row with D does not decode; otherwise it is true exactly when some row holds D |
| SqlAccounts.SqlAccountSystem.Execute | src/main/java/github/scarsz/discordsrv/linking/impl/system/sql/SqlAccountSystem.java:92 | an `executeUpdate` or `executeQuery` call: raises an SQLException exactly when the backend refuses the statement, and changes nothing itself |
| SqlAccounts.SqlAccountSystem.SetLinkedDiscord | src/main/java/github/scarsz/discordsrv/linking/impl/system/sql/SqlAccountSystem.java:84-112 | the outcome, the new accounts table and the notifications appended are those of `SetLinkedDiscordSpec`; the codes table is untouched; a call keeps the tables well-formed and keeps "at most one row per uuid" |
| SqlAccounts.SqlAccountSystem.SetLinkedMinecraft | src/main/java/github/scarsz/discordsrv/linking/impl/system/sql/SqlAccountSystem.java:114-142 | the outcome, the new accounts table and the notifications appended are those of `SetLinkedMinecraftSpec`; the codes table is untouched; a call keeps the tables well-formed and keeps "at most one row per discord id" |
| SqlAccounts.SqlAccountSystem.LookupCode | src/main/java/github/scarsz/discordsrv/linking/impl/system/sql/SqlAccountSystem.java:144-158 | as written: whatever the code, it never returns an identifier; it raises exactly when the driver refuses the unset placeholder or the select is rejected |
| SqlAccounts.SqlAccountSystem.LookupBoundCode | src/main/java/github/scarsz/discordsrv/linking/impl/system/sql/SqlAccountSystem.java:144-158 | with the code bound: null only when no row carries the code, otherwise the identifier of the first row with it; never raises over well-formed tables and an accepted select |
| SqlAccounts.SqlAccountSystem.GetLinkingCodes | src/main/java/github/scarsz/discordsrv/linking/impl/system/sql/SqlAccountSystem.java:160-174 | the `while (result.next())` loop returns exactly `Collect` of the rows, or raises when the select is rejected or a value does not decode |
| SqlAccounts.SqlAccountSystem.StoreLinkingCode | src/main/java/github/scarsz/discordsrv/linking/impl/system/sql/SqlAccountSystem.java:176-184 | appends exactly one row `(code, encoded uuid)` without looking at existing codes, or raises and changes nothing; the accounts table and the notifications are untouched and the tables stay well-formed |
| LinkingCodes.CollectFails | src/main/java/github/scarsz/discordsrv/linking/impl/system/sql/SqlAccountSystem.java:166-170 | the listing raises exactly when some row's uuid value does not decode |
| LinkingCodes.Collect | src/main/java/github/scarsz/discordsrv/linking/impl/system/sql/SqlAccountSystem.java:165-171 | the map that the `while (result.next())` loop builds with `put`; its meaning is stated by `CollectFails`, `CollectKeys`, `CollectLastWins` and `CollectAfterStore` |
| LinkingCodes.CollectFailsAt | src/main/java/github/scarsz/discordsrv/linking/impl/system/sql/SqlAccountSystem.java:169 | one row that does not decode makes the whole listing raise |
| LinkingCodes.CollectSucceeds | src/main/java/github/scarsz/discordsrv/linking/impl/system/sql/SqlAccountSystem.java:166-170 | when every row decodes, the listing returns a map |
| LinkingCodes.CollectKeys | src/main/java/github/scarsz/discordsrv/linking/impl/system/sql/SqlAccountSystem.java:165-170 | the map's key set is exactly the set of stored codes |
| LinkingCodes.CollectLastWins | src/main/java/github/scarsz/discordsrv/linking/impl/system/sql/SqlAccountSystem.java:167-170 | each code maps to the identifier of the last row carrying it, because `put` overwrites |
| LinkingCodes.CollectStep | src/main/java/github/scarsz/discordsrv/linking/impl/system/sql/SqlAccountSystem.java:166-170 | one more row extends the map of the rows before it by that row's code |
| LinkingCodes.CollectAfterStore | src/main/java/github/scarsz/discordsrv/linking/impl/system/sql/SqlAccountSystem.java:163-172 | storing a code and then listing gives the earlier listing with this code now mapped to the stored identifier |
| LinkingCodes.FindCode | src/main/java/github/scarsz/discordsrv/linking/impl/system/sql/SqlAccountSystem.java:147-150 | `select uuid from codes where code = ?`: null exactly when no row matches the placeholder, otherwise the value of the first matching row |
| LinkingCodes.UnsetParameterMissesStoredCode | src/main/java/github/scarsz/discordsrv/linking/impl/system/sql/SqlAccountSystem.java:147-148 | with the placeholder unset, the query misses even a code that was just stored, though binding it would find it |
| LinkingCodes.FindCodeAfterStore | src/main/java/github/scarsz/discordsrv/linking/impl/system/sql/SqlAccountSystem.java:147-153 | with the code bound, a newly stored code is found and reads back as the stored identifier |

## Left out

- JDBC mechanics are not modelled: `getConnection`, prepared statements, result sets and try-with-resources closing. Both tables are sequences owned by the model instead. An unreachable backend is modelled as "every statement is rejected".
- `close()` (lines 186-191) and `toString()` (lines 194-201) only close or describe the connection, so they are not modelled.
- The `DiscordSRV.error` logging before a rethrow (lines 59, 79) is not modelled. Only the propagated failure is.
- Notifications are not delivered. `callAccountLinkedEvent` and `callAccountUnlinkedEvent` belong to `BaseAccountSystem`, so the model appends them to the ghost log `events`.
- Concurrency is not modelled. Two callers can both see "not linked" and both insert; the model is sequential and does not claim that race away.
- SQL semantics are reduced to "filter rows by key equality, then update, insert or delete":
  - rows come back in insertion order;
  - collations, `NULL` discord columns and table constraints are not modelled.
- A column value of the other mode's kind is a read that fails. `FromText` reads upper-case digits as Java does, but every other leniency of `UUID.fromString` fails in the model: groups shorter or longer than 8-4-4-4-12, or a sign before a group. The model relies only on the round trip of canonical text.
- SqlAccounts.SetLinkedDiscordIdempotent: the rows of the second call equal those of the first in two cases: on every outcome when both calls meet the same refusals, and under any refusals after a first call that returned. A first call that raised leaves the table as it was, and a second call the backend then accepts does change it. That the second call returns and fires linked again is stated only when the backend accepts the `update`: the first call may have inserted, and the second then updates.
- SqlAccounts.SetLinkedMinecraftIdempotent: the same two cases. The outcome and the linked notification of the second call need the `update` accepted, for the same reason.
- There is no 1:1 guarantee. "At most one row per key" is proved only for the side each method is keyed by:
  - `setLinkedDiscord(U2, D)` inserts a second row for `D` while `D` is linked to `U1`;
  - `setLinkedMinecraft` has the mirror case.

  `AccountProperties.LinkByUuidMayShareDiscord` and `AccountProperties.LinkByDiscordMayShareUuid` exhibit these. `LinkByUuidResolvesBack` and `LinkByDiscordResolvesBack` prove the reverse lookup only when the other side was not already taken.
- There is no round trip for `lookupCode`. Its parameter is never bound (lines 147-148), so no stored code is ever found by it; see Findings.

## Findings

| source | as written | input that shows it | evidently intended | confidence | as-written member | corrected member |
|---|---|---|---|---|---|---|
| src/main/java/github/scarsz/discordsrv/linking/impl/system/sql/SqlAccountSystem.java:146-158 | `lookupCode` prepares `select uuid from codes where code = ?` and executes it without binding the placeholder, so the code argument is ignored | `storeLinkingCode("1234", U)` and then `lookupCode("1234")`: the row is there, but the query raises for the unset parameter or, with a driver that compares it as NULL, returns null | bind the code with `setString(1, code)`, so that a stored code is found and reads back as the stored uuid | not executed | SqlAccounts.SqlAccountSystem.LookupCode, LinkingCodes.UnsetParameterMissesStoredCode | SqlAccounts.SqlAccountSystem.LookupBoundCode, LinkingCodes.FindCodeAfterStore |
