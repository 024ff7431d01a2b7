# Attendance backend: a verified model of its core

This project models the core of an attendance backend in Dafny and proves
properties of that model. The backend is a Nest server that records
clock-ins in a Google spreadsheet and guards its handlers with
device-trust tokens kept in Redis. The model covers:

- **Helper** (`Helper.dfy`): how a clock-in time is read as minutes and
  labelled `masuk` (on time), `terlambat` (late), `lembur` (overtime) or
  `di luar jam kerja` (outside working hours). It also covers the
  duplicate-account check, `cleanJSON` and the random id generator.
- **Hash** (`Hash.dfy`): salted token hashing and the 100-character token
  generator. The SHA-256 digest is a function parameter.
- **Tokenify** (`Tokenify.dfy`): token verification against the store's
  `auth_token-<token>` keys. Issuing a token is a method of the `Tokenify`
  class, which updates its store snapshot in place.
- **AuthGuard** (`AuthGuard.dfy`): the guard's decision for one request.
- **Upsert** (`Upsert.dfy`): the row upsert shared by the weekly and
  monthly recaps. Rows are found by id among the rows loaded before the
  pass; a found row is overwritten and otherwise a row is appended.
- **Rollup** (`Rollup.dfy`): what the weekly recap computes from the daily
  sheet and what the monthly recap computes from the weekly sheet. Both
  are written as functions, together with lemmas relating each reported
  number to the rows it counts.
- **Spreadsheets** (`Spreadsheets.dfy`): the `Spreadsheet` class over the
  workbook, a map from sheet name to rows, with the loops of
  `setRekapHarian`, `setRekapMingguan` and `setRekapBulanan`. Each loop is
  proved equal to the Rollup or Upsert function it implements.
- **Js** (`Js.dfy`): the JavaScript semantics the core relies on. A
  `Number` is either an integer or NaN. The module also has `Number(s)`,
  `String(n)`, `split`, `toLowerCase`, `trim` and `startsWith`.

Some behaviours of the code worth knowing:

- `getStatus` checks "before the start" first, so a clock-in long before
  the start (02:00 for a 09:00 start) is `masuk`, not overtime.
- `getTanggal` uses the zero-based month index, and its `padStart(0, '2')`
  pads nothing. The period stamp written into recap rows is therefore
  `year-monthIndex`, unpadded.
- The weekly recap counts every daily row in the sheet; it does not filter
  by week.
- The monthly recap needs 22 weekly rows per id. The weekly upsert keeps
  at most one row per id, so after a weekly recap the monthly recap writes
  nothing (`MonthlyAfterWeeklyWritesNothing`).

## Model

| member | source | states |
|---|---|---|
| Js.ParseNumber | src/resources/helper/Helper.ts:67 | `Number(s)` on a cell: the empty text is 0, a run of digits (optionally negated) is its value, and anything else is NaN (iff) |
| Js.NumberRoundTrip | src/resources/database/Spreadsheets.ts:130-136 | a count written with `String(n)` reads back as the same number with `Number(...)`, NaN included |
| Js.Split | src/resources/helper/Helper.ts:67 | `split(sep)` yields at least one piece; the first piece is a prefix of the text without `sep`; a text without `sep` is its own single piece |
| Js.Lower | src/resources/helper/Helper.ts:118-120 | `toLowerCase` keeps the length and maps each character to its lowercase form (ASCII capitals change, everything else is kept) |
| Js.TrimStart | src/resources/helper/Helper.ts:118-120 | drops exactly the leading white space |
| Js.TrimEnd | src/resources/helper/Helper.ts:118-120 | drops exactly the trailing white space |
| Js.Trim | src/resources/helper/Helper.ts:118-120 | the result is a slice of the text with only white space around it, and it neither starts nor ends with white space; so it is the text with its surrounding white space removed |
| Js.TrimPadded | src/resources/helper/Helper.ts:118-120 | trimming a text with white space added around it gives the same result as trimming the text |
| Js.StartsWith | src/resources/database/Spreadsheets.ts:182 | true iff the prefix is no longer than the text and the text's first characters are the prefix |
| Helper.ToMinutes | src/resources/helper/Helper.ts:66-69 | a time with no colon reads as NaN |
| Helper.ToMinutesWellFormed | src/resources/helper/Helper.ts:66-69 | "h:m" with digit parts reads as 60·h + m minutes |
| Helper.ToMinutesOfParts | src/resources/helper/Helper.ts:66-69 | any "a:b" reads as `Number(a) * 60 + Number(b)`, NaN propagating |
| Helper.ToMinutesOfClock | src/resources/helper/Helper.ts:66-69 | the decimal clock reading h:m is 60·h + m minutes |
| Helper.Classify | src/resources/helper/Helper.ts:71-85 | on readable minute values, each of the four labels holds iff its window holds (before the start; up to 60 minutes after it; from the end up to 540 minutes after it; otherwise); NaN gives `di luar jam kerja` |
| Helper.GetStatus | src/resources/helper/Helper.ts:71-85 | the answer is always one of the four labels |
| Helper.GetStatusOfMinutes | src/resources/helper/Helper.ts:71-85 | for readable times, the label is `masuk`/`terlambat`/`lembur`/`di luar jam kerja` iff the clock-in falls in the matching window |
| Helper.GetStatusUnreadableTime | src/resources/helper/Helper.ts:71-85 | a clock-in time without a colon is always `di luar jam kerja` |
| Helper.GetStatusSamples | src/resources/helper/Helper.ts:71-85 | for a 09:00-17:00 day: 08:59 and 02:00 are `masuk`, 09:00 and 10:00 are `terlambat`, 10:01 is outside, 17:00 is `lembur` |
| Helper.Normalize | src/resources/helper/Helper.ts:118-120 | the compared form of a name or role is the lowercased text with only white space cut from around it; it is no longer than the text and has no ASCII capital letter |
| Helper.NormalizeIgnoresCaseAndPadding | src/resources/helper/Helper.ts:118-120 | a text that lowercases like another, with any white space added around it, has the same compared form |
| Helper.NormalizeEnds | src/resources/helper/Helper.ts:118-120 | the compared form has no white space at either end |
| Helper.IsDuplicate | src/resources/helper/Helper.ts:107-129 | no listing: never a duplicate; name mode: duplicate iff some entry's name and role match after lowercasing and trimming; id mode: iff some entry's user id matches |
| Helper.IdModeIgnoresNameAndRole | src/resources/helper/Helper.ts:122-128 | in id mode the name and role do not affect the answer |
| Helper.ListedNameIsDuplicate | src/resources/helper/Helper.ts:115-121 | a query whose name and role differ from a listed entry's only in case and surrounding white space is reported as a duplicate |
| Helper.CleanJSON | src/resources/helper/Helper.ts:43-49 | an entry is kept iff it is in the input and its value is neither undefined nor null |
| Helper.CleanJSONIdempotent | src/resources/helper/Helper.ts:43-49 | cleaning twice is cleaning once |
| Helper.CleanJSONKeepsPresent | src/resources/helper/Helper.ts:43-49 | an object without undefined or null values comes back unchanged, order included |
| Helper.Characters | src/resources/helper/Helper.ts:52-55 | the alphabet has 62 characters in alphanumeric mode and 10 otherwise |
| Helper.GenerateId | src/resources/helper/Helper.ts:51-64 | the loop yields exactly `length` characters, each drawn from the mode's alphabet by the corresponding draw |
| Hash.HashOfSameConcatenation | src/resources/helper/Hash.ts:5-10 | the hash depends only on token + salt, so equal concatenations hash alike |
| Hash.HashSplittingsCollide | src/resources/helper/Hash.ts:5-10 | ("ab","c") and ("a","bc") hash to the same value |
| Hash.VerifyRejectsOtherHash | src/resources/helper/Hash.ts:20-23 | a stored hash other than the hash of token + salt never verifies |
| Hash.Hex | src/resources/helper/Hash.ts:14 | the hex text of the salt bytes is two lowercase hex digits per byte |
| Hash.HexNibbles | src/resources/helper/Hash.ts:14 | byte i becomes characters 2i and 2i+1: the hex digit of its high nibble, then that of its low nibble |
| Hash.HashToken | src/resources/helper/Hash.ts:5-10 | with the default empty salt, the hash is the digest of the token itself |
| Hash.VerifyToken | src/resources/helper/Hash.ts:20-23 | true iff the stored hash is the hash of the token with the salt appended |
| Hash.GenerateToken | src/resources/helper/Hash.ts:12-18 | a 100-character alphanumeric token; the custom salt if given, else 32 hex digits; the stored hash is that of token + salt, and the triple verifies |
| Tokenify.AuthKey | src/resources/helper/Tokenify.ts:16 | a store key is the `auth_token-` prefix followed by the token, which can be read back from the key |
| Tokenify.Falsy | src/resources/helper/Tokenify.ts:15 | an undefined, null or empty token is falsy; any non-empty token is not |
| Tokenify.AuthKeyInjective | src/resources/helper/Tokenify.ts:16 | different tokens are stored under different keys |
| Tokenify.VerifyAuthToken | src/resources/helper/Tokenify.ts:12-29 | a falsy token is rejected; a token is accepted only if its key is present; when the key is present, the answer is whether the stored salt and hash verify it |
| Tokenify.IssuedTokenVerifies | src/resources/helper/Tokenify.ts:31-41 | a token stored with its own salted hash verifies |
| Tokenify.ExpiredTokenFails | src/resources/helper/Tokenify.ts:15-18 | once its key is gone, a token no longer verifies |
| Tokenify.IssueKeepsOtherTokens | src/resources/helper/Tokenify.ts:34-39 | issuing one token does not change the verdict on any other token |
| Tokenify.Tokenify.GenerateAuthToken | src/resources/helper/Tokenify.ts:31-41 | returns a 100-character token; for a positive expiry the store gains exactly its key (salt, hash, expiry) and the token verifies at once; for a zero, negative or NaN expiry Redis refuses the write and the store is unchanged |
| Tokenify.Tokenify.ExpireAuthToken | src/resources/helper/Tokenify.ts:34-39 | the expiry removes exactly the token's key, after which the token fails |
| AuthGuard.IsPublic | src/resources/security/auth.guard.ts:24-27 | a handler's own marking decides; without one, the handler is public iff its class is marked public |
| AuthGuard.CanActivate | src/resources/security/auth.guard.ts:21-57 | admitted iff the handler is public or the body's token verifies; a missing body gives 401 ACCESS_DENIED; a failed verification gives 401 "auth_token kadaluarsa." |
| AuthGuard.PublicIgnoresToken | src/resources/security/auth.guard.ts:24-29 | a public handler admits every request whatever the store holds |
| AuthGuard.EmptyTokenNeverAdmitted | src/resources/security/auth.guard.ts:31-44 | on a non-public handler a missing or empty token is refused with 401 |
| AuthGuard.HandlerMarkWins | src/resources/security/auth.guard.ts:24-27 | a handler's public marking overrides its class's |
| AuthGuard.IssuedThenExpired | src/resources/security/auth.guard.ts:29-46 | a freshly issued token is admitted, and after expiry it is refused on every non-public handler |
| Upsert.FindRow | src/resources/database/Spreadsheets.ts:121 | `find` returns the first row whose column 0 is the id, or none when no row has it |
| Upsert.Overwrite | src/resources/database/Spreadsheets.ts:122-139 | an overwritten row keeps its id and any cells past column 8, and columns 1-8 become the summary's cells |
| Upsert.NewRow | src/resources/database/Spreadsheets.ts:141-153 | an appended row is keyed by the summary's id, followed by its eight cells |
| Upsert.UpsertOne | src/resources/database/Spreadsheets.ts:119-155 | if a loaded row has the id, the first such row has columns 1-8 overwritten and no other row changes; otherwise exactly one nine-cell row is appended |
| Upsert.UpsertAll | src/resources/database/Spreadsheets.ts:119-155 | the pass never removes rows and appends at most one row per summary |
| Upsert.UpsertAllFrame | src/resources/database/Spreadsheets.ts:119-155 | the pass keeps every row's id, leaves rows of ids not summarised untouched, and appends only rows of summaries |
| Upsert.UpsertOneFrame | src/resources/database/Spreadsheets.ts:121-154 | one step keeps ids and rows of other ids, and appends at most the new row |
| Upsert.SnapshotIsLive | src/resources/database/Spreadsheets.ts:119-155 | with distinct ids, searching only the loaded rows gives the same sheet as searching the live rows |
| Upsert.UpsertLiveSettlesAll | src/resources/database/Spreadsheets.ts:119-155 | after the pass every summary's first row carries its cells |
| Upsert.SettledPassIsIdentity | src/resources/database/Spreadsheets.ts:119-155 | a pass over already-written summaries changes nothing |
| Upsert.UpsertIdempotent | src/resources/database/Spreadsheets.ts:119-155 | running the same upsert twice gives the same sheet as running it once |
| Upsert.KeyCountFound | src/resources/database/Spreadsheets.ts:121 | `find` finds nothing iff no row carries the id |
| Upsert.UpsertCounts | src/resources/database/Spreadsheets.ts:119-155 | after the pass a summarised id has max(1, its previous count) rows; other ids keep their count |
| Upsert.UpsertKeepsOneRowPerId | src/resources/database/Spreadsheets.ts:119-155 | a sheet with at most one row per id keeps that property, and each summarised id then has exactly one row |
| Rollup.SummaryEntry | src/resources/database/Spreadsheets.ts:142-152 | the written cells are nama, jabatan, the period stamp, the four counts (each reading back as the count) and the share |
| Rollup.WeeklyTally | src/resources/database/Spreadsheets.ts:66-94 | the groups are exactly the ids with a daily row, and the grouping is internally consistent |
| Rollup.WeeklyOrderDistinct | src/resources/database/Spreadsheets.ts:74-85 | each id is listed once |
| Rollup.WeeklyOrderFirst | src/resources/database/Spreadsheets.ts:74-85 | the model lists ids in the order of their first daily row |
| Rollup.CountDaily | src/resources/database/Spreadsheets.ts:89-93 | counting a daily row keeps nama and jabatan, raises the count of the row's own status by one when it is masuk, terlambat or lembur and leaves the other two counts as they were (so the three together rise by one exactly for those statuses), and adds at most the row's date, only for masuk or terlambat |
| Rollup.WeeklyCounter | src/resources/database/Spreadsheets.ts:87 | an id's counter is its number of daily rows |
| Rollup.WeeklyStatusCount | src/resources/database/Spreadsheets.ts:89-91 | an id's masuk/terlambat/lembur count is its number of rows with that lowercased status |
| Rollup.WeeklyDates | src/resources/database/Spreadsheets.ts:92-93 | an id's attended dates are the date parts of its masuk or terlambat rows |
| Rollup.WeeklyFirstRow | src/resources/database/Spreadsheets.ts:74-85 | a group takes nama and jabatan from the id's first row |
| Rollup.WeeklyFirstName | src/resources/database/Spreadsheets.ts:74-85 | an id's group carries nama and jabatan from the id's first daily row |
| Rollup.WeeklyReportDistinct | src/resources/database/Spreadsheets.ts:96-107 | the weekly report lists each id at most once |
| Rollup.WeeklyReportIds | src/resources/database/Spreadsheets.ts:96-98 | an id is reported iff it has at least five daily rows |
| Rollup.FinishWeek | src/resources/database/Spreadsheets.ts:100-105 | a weekly summary copies id, nama and jabatan and the three status counts; tidakMasuk plus the attended dates is totalHariKerja, and NaN when totalHariKerja is NaN |
| Rollup.WeeklyReport | src/resources/database/Spreadsheets.ts:62-108 | fewer than five daily rows in all give an empty report |
| Rollup.WeeklyCounterAtMost | src/resources/database/Spreadsheets.ts:87 | no id counts more rows than the daily sheet holds |
| Rollup.WeeklyReportCounts | src/resources/database/Spreadsheets.ts:89-105 | each reported summary's counts are the row counts per status; tidakMasuk is totalHariKerja minus the attended dates; the share is computed from the attended dates; nama and jabatan come from the id's first daily row |
| Rollup.MonthlyTally | src/resources/database/Spreadsheets.ts:176-203 | the groups are exactly the ids with a weekly row whose stamp starts with the month |
| Rollup.MonthlyOrderDistinct | src/resources/database/Spreadsheets.ts:184-195 | each id is listed once |
| Rollup.MonthlyOrderFirst | src/resources/database/Spreadsheets.ts:184-195 | the model lists ids in the order of their first weekly row inside the month |
| Rollup.AddWeekly | src/resources/database/Spreadsheets.ts:199-202 | adding a weekly row keeps nama and jabatan and adds each of columns 4-7 to its running sum |
| Rollup.MonthlyCounter | src/resources/database/Spreadsheets.ts:197 | an id's counter is its number of weekly rows inside the month |
| Rollup.TotalNaN | src/resources/database/Spreadsheets.ts:199-202 | a sum is NaN iff one of its cells reads as NaN |
| Rollup.MonthlySum | src/resources/database/Spreadsheets.ts:199-202 | each running sum is the sum of its column over the id's rows inside the month |
| Rollup.MonthlyFirstName | src/resources/database/Spreadsheets.ts:184-195 | an id's group carries nama and jabatan from the id's first weekly row inside the month |
| Rollup.MonthlyReportDistinct | src/resources/database/Spreadsheets.ts:206-216 | the monthly report lists each id at most once |
| Rollup.MonthlyReportIds | src/resources/database/Spreadsheets.ts:206-208 | an id is reported iff it has at least 22 weekly rows inside the month |
| Rollup.FinishMonth | src/resources/database/Spreadsheets.ts:210-214 | a monthly summary copies id, nama, jabatan and the four sums; its share is that of masuk plus terlambat over totalHariKerja |
| Rollup.MonthlyReport | src/resources/database/Spreadsheets.ts:172-217 | fewer than 22 weekly rows in all give an empty report |
| Rollup.MonthlyCounterAtMost | src/resources/database/Spreadsheets.ts:197 | no id counts more rows than the weekly sheet holds |
| Rollup.MonthlyReportSums | src/resources/database/Spreadsheets.ts:199-214 | each reported summary carries the four column sums and the share of masuk plus terlambat, and nama and jabatan from the id's first weekly row inside the month |
| Rollup.SelectAtMostKeyCount | src/resources/database/Spreadsheets.ts:180-182 | the month filter never yields more rows of an id than the sheet holds |
| Rollup.MonthlyReportEmpty | src/resources/database/Spreadsheets.ts:206-208 | on a weekly sheet with at most one row per id, the monthly report is empty |
| Spreadsheets.GetTanggal | src/resources/helper/Helper.ts:98-105 | the date text splits at its dashes into exactly the unpadded year, month index and day |
| Spreadsheets.MonthStamp | src/resources/database/Spreadsheets.ts:20-21 | a date text without a dash gives the stamp `<text>-undefined` |
| Spreadsheets.MonthStampOfTanggal | src/resources/database/Spreadsheets.ts:20-21 | the period stamp is the year and the zero-based month index, unpadded |
| Spreadsheets.MonthFilterOverlaps | src/resources/database/Spreadsheets.ts:182 | the month filter for index 1 also accepts stamps for indexes 10 and 11 |
| Spreadsheets.DailyRow | src/resources/database/Spreadsheets.ts:39-45 | the stored row is the record's five cells up to the last non-empty one; only empty cells are dropped |
| Spreadsheets.DropTrailingEmpty | src/resources/database/Spreadsheets.ts:39-45 | a prefix of the cells that ends in a non-empty cell (or is empty), with only empty cells dropped after it |
| Spreadsheets.DailyRowCounted | src/resources/database/Spreadsheets.ts:39-45 | the daily sheet stays readable iff the record has a waktu or a status; it then has one more row of its id, and one more row of its status in any letter case |
| Spreadsheets.CountDailyRow | src/resources/database/Spreadsheets.ts:66-94 | one step of the weekly loop is exactly one step of the weekly grouping |
| Spreadsheets.TallyDays | src/resources/database/Spreadsheets.ts:66-94 | the loop fails iff some daily row lacks a `waktu` cell; otherwise its groups are the weekly grouping |
| Spreadsheets.CountWeeklyRow | src/resources/database/Spreadsheets.ts:176-203 | one step of the monthly loop is exactly one step of the monthly grouping |
| Spreadsheets.TallyWeeks | src/resources/database/Spreadsheets.ts:176-203 | the loop's groups are the monthly grouping |
| Spreadsheets.PruneGroups | src/resources/database/Spreadsheets.ts:96-98 | a group survives iff its counter reaches the threshold |
| Spreadsheets.FinishWeeks | src/resources/database/Spreadsheets.ts:100-107 | the loop's summaries are the weekly summaries of the kept groups, in order |
| Spreadsheets.FinishMonths | src/resources/database/Spreadsheets.ts:210-216 | the loop's summaries are the monthly summaries of the kept groups, in order |
| Spreadsheets.FindLoaded | src/resources/database/Spreadsheets.ts:121 | the search loop finds the first loaded row with the id, or reports none |
| Spreadsheets.UpsertRows | src/resources/database/Spreadsheets.ts:116-158 | the upsert loop gives exactly the sheet of the upsert pass |
| Spreadsheets.Spreadsheet.constructor | src/resources/database/Spreadsheets.ts:10-22 | the stamp is `year-monthIndex` of the clock reading |
| Spreadsheets.Spreadsheet.SetRekapHarian | src/resources/database/Spreadsheets.ts:32-52 | succeeds iff the sheet exists and a record is given; the sheet then gains exactly the record's five cells as they read back, trailing empty cells dropped; otherwise nothing changes |
| Spreadsheets.Spreadsheet.SetRekapMingguan | src/resources/database/Spreadsheets.ts:54-161 | succeeds iff both sheets exist and every daily row has a `waktu` cell; the weekly sheet then becomes the upsert of the weekly report and nothing else changes; on failure nothing changes |
| Spreadsheets.Spreadsheet.SetRekapBulanan | src/resources/database/Spreadsheets.ts:163-268 | succeeds iff both sheets exist; the monthly sheet then becomes the upsert of the monthly report; on failure nothing changes |
| Spreadsheets.WeeklyEntriesDistinct | src/resources/database/Spreadsheets.ts:100-107 | the weekly recap writes each id at most once |
| Spreadsheets.WeeklyRerunIdempotent | src/resources/database/Spreadsheets.ts:116-158 | re-running the weekly recap on the same daily rows leaves the weekly sheet as it was |
| Spreadsheets.WeeklyKeepsOneRowPerId | src/resources/database/Spreadsheets.ts:116-158 | the weekly sheet keeps at most one row per id, and exactly one for each reported id |
| Spreadsheets.MonthlyAfterWeeklyWritesNothing | src/resources/database/Spreadsheets.ts:207 | after a weekly recap into a one-row-per-id sheet, the monthly recap reports and writes nothing |

## Left out

- Js.ParseNumber: `Number(s)` is modelled for the empty text and for optionally signed runs of digits. Decimals, surrounding white space, hex and exponent forms, and fractional values all read as NaN here. Arithmetic is on integers, not floating point.
- Js.Lower: `toLowerCase` lowercases the ASCII letters A-Z only; full Unicode case mapping is not modelled.
- The percentage text `((hadir / totalHariKerja) * 100).toFixed(2) + '%'` is a function parameter (`Percent`), because its floating-point formatting is not modelled.
- Rollup.WeeklyOrderFirst, Rollup.MonthlyOrderFirst: JavaScript objects list integer-like keys first, in ascending numeric order, and `Object.values` follows that order. Registration (src/app.service.ts:142) gives accounts 9-digit numeric ids, so those without a leading zero are such keys. The model lists every id in the order of its first row.
- Ids that collide with `Object.prototype` members (such as `constructor`) are not modelled.
- In the monthly recap a missing id, nama or jabatan cell reads as the empty text rather than `undefined`.
- The clock (`new Date()`, `getCurrentTime`) is a constructor parameter of `Spreadsheet`, and `getCurrentTime` is not modelled.
- Tokenify.Tokenify.GenerateAuthToken: the source does not await the Redis `set`, so the token is returned before the write lands. Nothing catches the `set` promise either, and the source installs no `process.on` handler. A refused `EX`, such as NaN when `EX_TOKEN` is unset, therefore becomes an unhandled rejection, which Node 15 and later treat as fatal by default. The model applies the write before returning and does not model the process ending.
- Upsert.UpsertAll: with `Promise.all`, concurrent `addRow` calls append new rows in the order they complete, not in summary order. The model appends them in summary order.
- Redis's `EX` expiry is modelled as an explicit deletion of the key (`ExpireAuthToken`), not as time passing.
- A Redis `get` that rejects leaves `verifyAuthToken`'s promise unsettled. This is not modelled: a lookup always answers.
- `Helper.response`, the HTTP plumbing and Nest's dependency injection are not modelled. The guard's response is the status and reason it returns.
- Promise chaining, `Promise.all`, `row.save()`, `addRow` and the callbacks are not modelled. A recap's writes take effect together when it succeeds.
- `loadSheet` and the Google API are not modelled. A missing sheet is a failure that writes nothing.
- src/resources/errors/errors is not part of this model. The message and code texts of ACCESS_DENIED are a named reason.
- SHA-256 is a function parameter (`Digest`). Its collision resistance is not assumed.
- `Math.random` and `crypto.randomBytes` are parameters: a sequence of draws in [0, 1) and a sequence of bytes.
- The Redis store is modelled only for its `auth_token-` keys.
