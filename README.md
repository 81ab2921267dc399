# twitch-chat-logger, modelled in Dafny

twitch-chat-logger connects to Twitch chat over IRC and stores every chat message
in a `messages` table. When a moderator clears a message, the row is soft-deleted
rather than removed. Once a day the service writes all of that day's messages to
one plain-text log per channel. An HTTP endpoint, `/search/:channel`, streams the
messages that match a channel, a list of users and a time range. The service logs
in with a Twitch OAuth token that it refreshes in the background and caches in
`.refreshed-token.json`.

This project models four parts of that service and proves properties of them:

- **The ingestion worker** (`process.dfy`, module `Process`). Each IRC event
  becomes one action:
  - store a row;
  - soft-delete a row;
  - report a notice;
  - ignore the event;
  - panic.

  The worker applies these actions to the table in order. The model proves that:
  - a message is stored exactly when its required tags parse, and tags are
    checked in a fixed order;
  - a soft delete touches only the two deletion columns and is idempotent;
  - inserting a duplicate id panics;
  - no run ever removes a row or changes its content.

  `RunWorker` is the receive loop, proved against the fold `Run`.
- **The daily export** (`rollup.dfy`, module `Rollup`):
  - A log line is `[hh:mm:ss] <user> text`, or `[hh:mm:ss] <user; deleted at hh:mm:ss> text`.
    The model proves that every line reads back as the fields it was built from.
  - Files are named `<channel>_<yyyy-mm-dd>.log`.
  - The day window is a closed interval that holds exactly the instants of one
    day.
  - The export loop routes each row into the buffer of its file, counts each row
    against its channel, and finally flushes and syncs every file.

  The export is modelled with faults injected into file creation, writing and
  syncing. `RollupEverything`, `WritePage` and `SyncAll` are the loops, proved
  against the specification functions `ExportPages` and `Finish`. The model
  proves that:
  - the buffers hold exactly the lines of their rows, in timestamp order;
  - the counters add up to the number of rows;
  - paging changes nothing;
  - a file that cannot be created panics the run.
- **The search endpoint** (`server.dfy`, module `Server`).
  - Time parameters are read as Unix seconds, then as RFC 3339, then as
    RFC 2822.
  - The filter is built with a loop over the users.
  - The response is streamed page by page.

  The model proves that:
  - the built filter selects exactly the rows a reference predicate describes;
  - naming more users never loses a match, and adding a time bound never adds
    one;
  - a page-fetch error ends the stream with a single error item.
- **The token cache** (`token.dfy`, module `Token`).
  - A cache record is used only when its base token is the configured one.
  - The refresh delay is `expires_in - expires_in / 5`.
  - Every record the refresher writes keeps the configured token as its base.
    Loading the cache again therefore returns the refreshed tokens.

Four supporting modules hold the values these parts share:

- `Text`: decimal digits, Rust's `i64` parsing, Rust's `str::trim` and ASCII case.
- `Clock`: timestamps as nanoseconds since the epoch, the range of the `time`
  crate, the `HH:MM:SS` rendering and the civil date.
- `Uuids`: `Uuid::parse_str`.
- `Entity`: the `messages` row and the table.

## Model

| member | source | states |
|---|---|---|
| Text.ParseI64 | src/server.rs:57-58 | an accepted `i64` text lies in the `i64` range and ends in a digit |
| Text.ParseI64Accepts | src/server.rs:57-58 | a text is accepted exactly when it is an optional '+' or '-' followed by one or more ASCII digits (leading zeros allowed) whose signed value is in the `i64` range, and then it gives that value |
| Text.ParseI64OfDecimal | src/server.rs:57-58 | every `i64` written in decimal, with '-' when negative, parses back to itself |
| Text.DecimalRoundTrip | src/server.rs:57-58 | the digits of a decimal rendering read back as the number rendered |
| Text.TrimIsInfix | src/process.rs:60-63 | `trim` returns the middle of the string with only white space cut from either end, and the result starts and ends with a visible character |
| Text.TrimEmptyIffBlank | src/token.rs:33 | a string trims to the empty string exactly when it is all white space |
| Text.TrimIgnoresPadding | src/process.rs:60-63 | white space added on either side does not change the trimmed string |
| Text.LowerIffCaseBlind | src/server.rs:98-99 | two strings have the same lower-case form exactly when they are equal ignoring ASCII case, which is what lets a lower-cased name match a user however it was capitalised |
| Clock.DayOfBrackets | src/rollup.rs:101 | every instant lies between its day's midnight and the next midnight |
| Clock.InWindowIffSameDay | src/rollup.rs:101-102 | the window [midnight, midnight + 1 day - 1 ns] holds exactly the instants of that day, in both directions |
| Clock.ClockTextReadsBack | src/rollup.rs:77 | `[hour]:[minute]:[second]` is three two-digit fields, each in range, whose values recompose the second of the day |
| Clock.FromUnixSeconds | src/server.rs:61 | `from_unix_timestamp` succeeds exactly inside the supported range, and the instant lies in the given second |
| Clock.AfterEpochMillis | src/process.rs:102 | epoch plus milliseconds succeeds exactly for milliseconds from the first to the last millisecond of the supported years, and the instant is that many whole milliseconds |
| Clock.CivilRoundTrip | src/rollup.rs:27 | the civil date of every day number is a month 1 to 12 and a day 1 to 31 that converts back to the same day number |
| Clock.FourDigitYear | src/rollup.rs:27 | every day from 0000-01-01 to 9999-12-31 falls in a year from 0 to 9999 |
| Clock.DateTextReadsBack | src/rollup.rs:27 | `[year]-[month]-[day]` of such a day is ten characters whose three digit fields read back to a date that converts back to the day |
| Clock.DateTextInjective | src/rollup.rs:27 | two different days of the years 0 to 9999 never share a date text |
| Uuids.HexValue | src/process.rs:79 | a digit string is accepted exactly when every character is a hex digit, and its value is below 16 to the power of its length |
| Uuids.HexValueSnoc | src/process.rs:79 | one more hex digit multiplies the value read so far by sixteen and adds the digit |
| Uuids.HexTextRoundTrip | src/process.rs:79 | a value written with enough hex digits reads back to itself |
| Uuids.ParseUuid | src/process.rs:79 | `Uuid::parse_str` accepts only the 32-, 36-, 38- and 45-character forms and yields a 128-bit value |
| Uuids.UuidFormsAgree | src/process.rs:79 | 32 characters parse exactly when all are hex digits, to their hex value, and the hyphenated, braced and `urn:uuid:` forms of them parse to the same value |
| Uuids.UuidTextRoundTrip | src/process.rs:79 | every 128-bit value, written as 32 hex digits or hyphenated, parses back to itself |
| Process.CollectTags | src/process.rs:26-32 | the tag map has a key for every tag of the list and no other keys |
| Process.CollectTagsLastWins | src/process.rs:26-32 | a duplicated key keeps the value of its last occurrence |
| Process.ClassifyNotice | src/process.rs:59-69 | a NOTICE is an authentication failure exactly when its trimmed text is one of the two login-failure texts up to ASCII case, badly formatted auth exactly when it is that text instead, and otherwise other |
| Process.NoticeIgnoresPadding | src/process.rs:59-69 | white space around a NOTICE does not change its classification |
| Process.NoticeIgnoresAsciiCase | src/process.rs:59-69 | two NOTICE texts that are equal up to ASCII case are classified alike |
| Process.StripChannelPrefixRoundTrip | src/process.rs:42 | a '#' put in front of a name is removed again, a name without '#' is kept, and a removed '#' put back gives the original target |
| Process.ExtractPrivmsg | src/process.rs:71-136 | a stored row carries the sender, channel and text verbatim and is not deleted |
| Process.PrivmsgRequiredTagOrder | src/process.rs:78-109 | the first required tag (id, room-id, user-id, tmi-sent-ts) that is absent drops the message; the first that is malformed panics; no later tag is looked at |
| Process.PrivmsgStoredIffTagsParse | src/process.rs:78-113 | a message is stored exactly when all four required tags parse and the reply id, if present, parses |
| Process.PrivmsgRecord | src/process.rs:99-131 | the row's ids and timestamp come from their tags; the role flags are set exactly when their key is present; optional tags pass through |
| Process.ExtractClearmsg | src/process.rs:138-162 | a deletion is produced exactly when the time tag is present and parses and the target tag is present and parses as a UUID; it targets that id at that whole millisecond |
| Process.ClearmsgTargetOutcomes | src/process.rs:138-157 | a missing time tag drops the deletion; once the time parses, a missing target drops it and a malformed target panics |
| Process.ClearmsgTimestampFirst | src/process.rs:139-156 | a malformed deletion time panics even when the target id is missing |
| Process.Dispatch | src/process.rs:33-55 | only a PRIVMSG with a sender stores a row, and that row has the target without its '#' as channel, the sender as user, the body as text and no deletion; a PRIVMSG without a sender, a raw command other than CLEARMSG and any other command are ignored; only a CLEARMSG deletes; a notice exactly when the command is a NOTICE. A PRIVMSG with a sender is exactly `ExtractPrivmsg` of its channel, sender, body and tags, a CLEARMSG exactly `ExtractClearmsg` of its tags, and a NOTICE is reported with `ClassifyNotice` of its text |
| Process.Apply | src/process.rs:132-167 | an action adds at most the inserted id to the table, and a panic leaves the table unchanged |
| Process.SoftDeleteTouchesOnlyDeletionColumns | src/process.rs:157-167 | a soft delete sets `deleted` and `deleted-at` of an existing row and changes nothing else |
| Process.SoftDeleteIdempotent | src/process.rs:157-167 | applying the same deletion twice equals applying it once |
| Process.FreshInsertStoresRow | src/process.rs:127-135 | inserting a new id adds exactly that row, keeps every other row and lets the worker go on |
| Process.DuplicateInsertHalts | src/process.rs:132-135 | inserting an id already stored panics and leaves the table as it was |
| Process.NoticeLeavesStore | src/process.rs:34-36 | a NOTICE never changes the table |
| Process.OnlyClearmsgUpdatesRows | src/process.rs:33-55 | only a CLEARMSG changes a row that already exists |
| Process.ApplyPreservesWellFormed | src/process.rs:115-167 | each event keeps every row under its own id, keeps `deleted` in step with `deleted-at`, and keeps every row's content |
| Process.RunWorker | src/process.rs:23-57 | the receive loop leaves exactly the table and running state of the fold `Run` |
| Process.RunConcat | src/process.rs:23-57 | a run over two batches is the run over the first, then over the second if the worker is still running |
| Process.RunKeepsRows | src/process.rs:23-57 | over any run, no row is removed and each keeps its content |
| Rollup.MaxMessagesPerPage | src/rollup.rs:20-21 | a page is the largest number of rows that fits in 128 MiB |
| Rollup.PageNeverEmpty | src/rollup.rs:21 | a page always holds at least one row, so the paginator advances |
| Rollup.FormatLayout | src/rollup.rs:71-96 | a line starts with '[' and the clock text of the timestamp, ends with the verbatim text and a newline, and is 21 characters longer when a deletion time is shown |
| Rollup.LineRoundTrip | src/rollup.rs:71-96 | any line laid out with eight-character clocks reads back as the fields it was built from |
| Rollup.FormatRoundTrip | src/rollup.rs:71-96 | a message's line reads back as its time, its user, its deletion time (exactly when `deleted-at` is set) and its verbatim text |
| Rollup.FormatIgnoresDeletedFlag | src/rollup.rs:72 | the line depends on `deleted-at`, not on the `deleted` flag |
| Rollup.WithLogExtension | src/rollup.rs:117-119 | `with_extension("log")` ends a file name in `.log` after a prefix of the name, keeping the whole name exactly when it has no extension; the names "", "." and ".." have no file stem and are kept unchanged |
| Rollup.NameTakesLogExtension | src/rollup.rs:117-119 | `with_extension("log")` turns `<channel>_<date>.txt` into `<channel>_<date>.log` for every channel and date |
| Rollup.LogFileReplacesTxt | src/rollup.rs:23-30 | a row's file is `<channel>_<yyyy-mm-dd>.log`, dated by the UTC day of its timestamp |
| Rollup.LogFileNameInjective | src/rollup.rs:23-30 | for days of the years 0 to 9999, two rows share a log file name exactly when they share channel and UTC day |
| Rollup.EntriesAt | src/rollup.rs:114-127 | the i-th rendered entry is the key, channel, timestamp and line of the i-th row |
| Rollup.RouteAllKeys | src/rollup.rs:117-122 | a buffer exists exactly for the keys of the rows routed |
| Rollup.RouteAllFilters | src/rollup.rs:114-130 | each buffer is its old contents followed by the lines of its own rows, in order |
| Rollup.CountAllTallies | src/rollup.rs:123-126 | each channel's counter grows by the number of its rows |
| Rollup.CountersSumToRows | src/rollup.rs:123-126 | the counters add up to the number of rows read |
| Rollup.EntriesForInOrder | src/rollup.rs:106 | the rows of one key keep the timestamp order of the query |
| Rollup.EntryIsRouted | src/rollup.rs:114-130 | every row's line is in the buffer of its key |
| Rollup.RowIsExported | src/rollup.rs:101-130 | every stored row of the day has its line in the buffer of its file |
| Rollup.KeysNameTheDay | src/rollup.rs:101-122 | every file of a day's run is named for a channel of that day's rows and for that date |
| Rollup.BuffersInTimeOrder | src/rollup.rs:104-130 | every buffer lists its lines in timestamp order |
| Rollup.ExportEntriesEnded | src/rollup.rs:112-130 | once a run has failed or panicked, no later row changes anything |
| Rollup.PagingIsTransparent | src/rollup.rs:109-132 | reading page by page ends like reading all rows before the first fetch error at once, and a fetch error fails a run that was still going |
| Rollup.FaultFreeRun | src/rollup.rs:98-150 | without faults, a run ends with exactly the routed buffers and the tallied counters |
| Rollup.UncreatableFilePanics | src/rollup.rs:117-122 | a row whose log file cannot be created panics the run |
| Rollup.WritePage | src/rollup.rs:114-131 | the row loop of one page is the specification function `ExportEntries`, and each file is created once |
| Rollup.SyncAll | src/rollup.rs:134-143 | the drain succeeds exactly when every file syncs, and then it has synced all of them |
| Rollup.RollupEverything | src/rollup.rs:98-150 | the whole run is `Finish` of `ExportPages`; on success every buffer is synced and each file was created exactly once |
| Rollup.TimeUntilNextMidnight | src/rollup.rs:38-40 | the wait exists exactly when today is not the last representable day; it is positive, at most one day, and ends on the next midnight |
| Rollup.MidnightRunExportsPreviousDay | src/rollup.rs:38-56 | the run that wakes at midnight exports the day that has just ended, and all of that day is in the past |
| Server.ToUtc | src/server.rs:64-69 | converting to UTC subtracts the offset; it gives a bound exactly when the result is representable and panics otherwise |
| Server.ConvertQueryToDatetime | src/server.rs:55-77 | there is no bound exactly when the parameter is absent or no parser (integer, RFC 3339, RFC 2822) accepts it, and every bound is a representable instant |
| Server.IntegerNeverParsedAsText | src/server.rs:56-63 | an integer is taken as Unix seconds and never given to the date-time parsers; it panics exactly outside the range |
| Server.UnixSecondsRoundTrip | src/server.rs:57-63 | every representable second, written in decimal, gives a bound at that second |
| Server.TextFallbackOrder | src/server.rs:64-76 | other text tries RFC 3339 first and RFC 2822 only if that fails; text that neither accepts gives no bound |
| Server.UserQueryMatches | src/server.rs:100-107 | the OR chain built from the users accepts exactly their lower-cased names |
| Server.BuildSearch | src/server.rs:93-116 | building the search panics exactly when a time parameter panics, and otherwise selects exactly the rows `RowMatches` describes |
| Server.FilterListSelects | src/server.rs:98-116 | successive filters select the conjunction of their conditions |
| Server.MoreUsersNeverNarrow | src/server.rs:100-110 | once a user is named, naming another never loses a match |
| Server.TimeBoundsNeverWiden | src/server.rs:111-116 | adding a start or an end bound never adds a match |
| Server.PageLines | src/server.rs:86-88 | a page yields the formatted line of each of its rows, in order |
| Server.ResponseStream | src/server.rs:79-91 | the stream is the specification function `StreamOf` of the fetched pages |
| Server.StreamIsLinesThenError | src/server.rs:79-91 | the body is the lines of all rows before the first failed fetch, followed by an error item exactly when a fetch failed |
| Server.ErrorEndsStream | src/server.rs:85 | an error item is always last, and there is one exactly when a fetch failed |
| Server.ResponseIsSelectedRows | src/server.rs:118-127 | under the assumed ordering and cap, the response has at most 1,000,000 lines, each the line of a selected row |
| Token.GetTokenFromCache | src/token.rs:21-55 | the first token returned is always the configured access token |
| Token.LoadFailsIff | src/token.rs:30-41 | loading fails exactly on an unreadable file, or on one that is not blank and does not decode |
| Token.BlankCacheIsIgnored | src/token.rs:22-39 | a missing or blank cache file gives the configured tokens |
| Token.CacheUsedOnlyForSameBase | src/token.rs:42-54 | the cached tokens are used exactly when the record's base is the configured access token; otherwise a load gives the configured tokens |
| Token.RefreshDelay | src/token.rs:66 | the delay is between four fifths of the lifetime and the whole lifetime, and is zero only for a zero lifetime |
| Token.AutoRefresh | src/token.rs:57-96 | the refresh loop takes the waits and writes the records of the specification function `Refreshes` |
| Token.RecordsKeepBase | src/token.rs:83-90 | every record written keeps the configured access token as its base |
| Token.LogShape | src/token.rs:65-95 | one wait per round attempted, one record per round that succeeded; the refresher stops at the first failed step |
| Token.DelaysFollowLifetimes | src/token.rs:66-82 | the first wait follows the starting token's lifetime, and each later wait follows the lifetime of the token refreshed just before |
| Token.RefreshedTokensReload | src/token.rs:98-128 | after a refresh, loading the cache with the same configuration returns the refreshed access and refresh tokens |

## Left out

- `src/main.rs` and `src/config.rs` are not part of this model. Neither is the
  wiring that joins the parts: the IRC connection, the tokio channels, the task
  spawning and the graceful shutdown.
- The `select!` race in `rollup_task` between the midnight sleep and a manual
  trigger is not modelled. A triggered run exports the current day so far; the
  model covers only a run for a given day.
- Empty pages are not modelled as pages. `fetch_and_next` reports an empty page
  as the end of the query, so the model ends the page sequence there instead.
- Process.Apply: the effect of an `UPDATE` on an id that is not in the table
  depends on the database driver. It is a parameter (`unknownUpdateFails`):
  either a panic or no change, and never a new row.
- Database internals are not modelled: SQL, sea-orm, transactions, and the
  concurrency between the worker and the readers.
  - The export query's order, and the rows within the day window, are an
    assumption (`ScanOf`).
  - The search query's order and the 1,000,000 cap are an assumption
    (`ServesNewest`). They are not derived from the chained
    `order_by_desc`/`limit`/`order_by_asc`, whose interaction with `paginate`
    the model does not settle.
- The file system is reduced to three sets of keys: files that cannot be
  created, written or synced.
  - Partial writes, the `BufWriter` contents lost on an early error, and the
    `rollup_dir` prefix are not modelled.
  - Channel names that contain '/' are not modelled.
- The order in which `files.drain()` visits the buffers is left open. `SyncAll`
  picks any remaining key.
- The final log of the counters, and every other `info!`, `warn!`, `error!` and
  `debug!` line, is not modelled.
- Server.ToUtc: the RFC 3339 and RFC 2822 grammars of the `time` crate are
  parameters (`TextParser`). The model does not settle which strings they
  accept.
- Token.RefreshedTokensReload: JSON encoding and decoding of the cache record is
  a decoder parameter. The round trip assumes the written text decodes back to
  the record and is not blank.
- The OAuth calls (`refresh_token` and `validate_token`), the HTTP client and
  the sleeps are not modelled. Their results are the fields of each
  `RefreshRound`. The endless refresh loop is modelled over a finite run of
  rounds.
- Text.Lower: `str::to_lowercase` is modelled as ASCII lower-casing. Unicode
  case mapping, which can change a string's length, is left out.
- Rollup.MaxMessagesPerPage: `size_of::<Message>()` is a parameter, because it
  depends on the target.
- Rollup.FormatRoundTrip: only user names without '>' or ';' are covered. Such
  a character makes the line ambiguous, and Twitch login names never contain
  one.
- Rollup.TimeUntilNextMidnight: returns None on 9999-12-31, the last
  representable day, where the next midnight does not exist and the source panics. The panic itself is not a
  separate outcome.
- Clock.DateTextReadsBack: the calendar text is proved for the years 0 to 9999
  (`DateTextReadsBack`, `CivilRoundTrip`). The supported range of timestamps
  reaches back to the year -9999, but days before 0000-01-01 have a negative
  year with a '-' in front, and their text is not covered.
- Rollup.LogFileNameInjective: covers only days of the years 0 to 9999, for the
  same reason.
- `src/error.rs` is not part of this model: the response error type, the HTTP
  status codes and the axum routing. A fetch error is modelled as the error item
  that ends the stream.
- Serde's query-parameter aliases (`user`, `names`, `from`, `to` and the rest)
  are left out. The model receives the parameters already parsed.
