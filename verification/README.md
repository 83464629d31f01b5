# Stellaris timer: calendar, date parser and reminder store in Dafny

This project models the pure core of a desktop reminder tool for the game
Stellaris. The tool reads the in-game date from the screen by OCR and fires
one-shot reminders when that date reaches their targets. The model covers:

- **Calendar** (`calendar.dfy`, module `Calendar`)
  - `Date` has a `u16` year and `u8` month and day. A year has 12 months of 30 days.
  - Dates are ordered through the linear day count `year*360 + month*30 + day`.
  - `with_days_added` does the mixed-radix addition.
  - A `StampedDate` key orders by date first and uses the creation time only to break ties.
- **Text-to-date parser** (`parser.dfy`, module `DateParser`)
  - `str::trim` of the OCR text.
  - The shape check `^(\d{4}).(\d{2}).(\d{2})$`.
  - `parse_dt`, which parses the fields and checks their ranges.
- **Sync step** (`sync.dfy`, module `Sync`): the shared date cell is overwritten exactly when a date was recognised.
- **Reminder store** (`reminders.dfy`, module `Reminders`)
  - The `BTreeMap<StampedDate, (String, bool)>` is a Dafny `map`. `SortedKeys` gives its iteration order.
  - Operations: insert with interval validation, the one-shot trigger scan and batch removal.
- **Persistence** (`persistence.dfy`, module `Persistence`)
  - The store is serialised to and rebuilt from a sequence of pairs.
  - Loading falls back to the default date and an empty store.

`wrappers.dfy` holds `Option`, Rust's three-way `Ordering` and `CompareNat`.

Where the code departs from the tool's evident intent, the model follows the code:

- **Month and day bounds.** The parser checks only `m < 13` and `d < 31` (src/main.rs:192), so it accepts month 0 and day 0. Such dates break the agreement between `Eq` and `Ord`. They also make `with_days_added` underflow. The lemmas `DateParser.ParserAcceptsZeroMonthAndDay`, `Calendar.DegenerateDatesCompareEqual` and `Calendar.AddHazardsReachable` show this.
- **Separator.** The separator between the digit groups is the regex `.`, which matches any character except a line feed, digits included.
- **Rejection.** Every rejection is a plain `None`. The code does not distinguish a mismatch, a malformed field and an out-of-range field.
- **Largest intervals.** An interval of 108000 days passes the interval check but cannot be added (see Findings).

## Model

| member | source | states |
|---|---|---|
| Calendar.DaysSinceJesus | src/main.rs:62-66 | the linear day count always fits the `u32` the source computes it in |
| Calendar.DefaultDate | src/main.rs:37-41 | the default date has month 1..12 and day 1..30, lies in the game's years 2200..2999, and no such date in a year after 2199 lies before it |
| Calendar.DefaultDateIsEarliestGameDate | src/main.rs:37-41 | the only date meeting that description is 2200.1.1 |
| Calendar.Cmp | src/main.rs:50-54 | for months 1..12 and days 1..30, comparing dates is comparing (year, month, day) lexicographically; the lemmas below give the other properties |
| Calendar.Le | src/main.rs:256 | for months 1..12 and days 1..30, a date is `le` another exactly when it is the same date or lexicographically earlier |
| Calendar.DayCountOrderIsFieldOrder | src/main.rs:62-66 | for months 1..12 and days 1..30, comparing day counts is the same as comparing (year, month, day) lexicographically |
| Calendar.CmpEqualIffSame | src/main.rs:50-54 | for months 1..12 and days 1..30, two dates compare `Equal` exactly when all three fields are equal |
| Calendar.DegenerateDatesCompareEqual | src/main.rs:50-54 | outside that range, 2200.0.30 and 2200.1.0 are different dates that compare `Equal` |
| Calendar.CmpIsTotalPreorder | src/main.rs:44-54 | date comparison is antisymmetric, transitive and total |
| Calendar.WithDaysAdded | src/main.rs:88-106 | when no `u16` step overflows, the result has month 1..12 and day 1..30 and its day count is exactly the old count plus `days` |
| Calendar.WithDaysAddedIsLater | src/main.rs:88-106 | adding at least one day gives a strictly later date |
| Calendar.DaysSinceJesusInjective | src/main.rs:62-66 | within month 1..12 and day 1..30, the day count determines the date |
| Calendar.WithDaysAddedComposes | src/main.rs:88-106 | adding m days and then n days equals adding m+n days |
| Calendar.WithDaysAddedWholeMonths | src/main.rs:88-106 | adding a whole number of 30-day months keeps the day of the month |
| Calendar.WithDaysAddedExamples | src/main.rs:88-106 | +30 days on 2200.1.1 gives 2200.2.1 and +360 gives 2201.1.1; 2200.1.1 < 2200.1.2 < 2200.2.1 < 2201.1.1 |
| Calendar.AddHazardsReachable | src/main.rs:90-94 | `day + days` overflows `u16` for 65535 days from 2200.1.1; `month_added + month - 1` underflows for one day from 2200.0.5 |
| Calendar.SplitDayOffset | src/main.rs:88-106 | a day offset splits into whole years, months 0..11 and days 0..29 with nothing lost |
| Calendar.FromDays | src/main.rs:62-66 | every day count that fits the date type is the count of exactly one date with month 1..12 and day 1..30 |
| Calendar.AddDays | src/main.rs:88-106 | the corrected addition: the result has month 1..12 and day 1..30 and its day count grows by exactly n, for any start date |
| Calendar.WithDaysAddedAgreesWithAddDays | src/main.rs:88-106 | wherever the source's addition completes, it equals the corrected addition |
| Calendar.StampedTimeOnlyBreaksTies | src/main.rs:74-86 | the key order is the date order when dates differ; when dates compare `Equal`, the order is the creation-time order |
| Calendar.StampedCmp | src/main.rs:74-86 | for months 1..12 and days 1..30, key order is lexicographic on (year, month, day, time); `StampedTimeOnlyBreaksTies` and `StampedCmpIsTotalPreorder` give the rest |
| Calendar.StampedCmpEqualIffSame | src/main.rs:74-86 | for months 1..12 and days 1..30, two keys compare `Equal` exactly when they are equal |
| Calendar.StampedCmpIsTotalPreorder | src/main.rs:68-86 | key comparison is antisymmetric, transitive and total |
| DateParser.TrimStart | src/main.rs:178 | drops exactly the longest prefix of Unicode white space |
| DateParser.TrimEnd | src/main.rs:178 | drops exactly the longest suffix of Unicode white space |
| DateParser.Trim | src/main.rs:178 | the result is the part of the text that starts where the leading white space ends; everything before and after it is white space, and it neither starts nor ends with white space |
| DateParser.TrimPadded | src/main.rs:178 | white space around text that does not start or end with white space is removed, and the text itself is kept |
| DateParser.MatchDate | src/main.rs:125 | the regex matches exactly the 10-character texts "4 digits, non-line-feed, 2 digits, non-line-feed, 2 digits", and its groups concatenate back to the text with the two separators |
| DateParser.FromStr | src/main.rs:185-190 | on text without a sign, as the regex groups are, Rust's `u16`/`u8` `from_str`, folding the digits left to right with a checked multiply and add, succeeds exactly on non-empty digit strings whose value fits the type, and returns that value |
| DateParser.ParseDt | src/main.rs:184-198 | a returned date has exactly the parsed fields and lies in 2199 < y < 3000, m < 13, d < 31 |
| DateParser.ParseDtOnDigitGroups | src/main.rs:184-198 | on groups of the regex shape, a date is returned exactly when the values lie in those bounds |
| DateParser.Recognize | src/main.rs:177-181 | text without the date shape after trimming yields `None`; text with it yields the date of its three digit groups exactly when their values are in the parser's bounds, and `None` otherwise |
| DateParser.RecognizeFormatPadded | src/main.rs:177-198 | every date in the parser's bounds, written zero-padded as YYYY.MM.DD with any surrounding white space, is recognised as itself |
| DateParser.RecognizedDatesAreExactlyParserRange | src/main.rs:184-198 | a date can be recognised from some text exactly when it lies in the parser's bounds |
| DateParser.ParserAcceptsZeroMonthAndDay | src/main.rs:192 | months and days of 0 are accepted, so 2200.00.00, 2200.00.30 and 2200.01.00 are all recognised |
| DateParser.RecognizeTenChars | src/main.rs:177-198 | recognising a ten-character text of the right shape gives the parsed date exactly when it is in bounds |
| DateParser.ParserExampleAccepted | src/main.rs:177-198 | "2250.06.15" is recognised as 2250.6.15 |
| DateParser.ParserExampleYearRejected | src/main.rs:192 | "2100.01.01" is rejected by the year bound |
| DateParser.ParserExampleMonthRejected | src/main.rs:192 | "2250.13.01" is rejected by the month bound |
| DateParser.ParserExampleDayRejected | src/main.rs:192 | "2250.06.31" is rejected by the day bound |
| DateParser.ParserExampleNoMatch | src/main.rs:180 | "abcd" does not match |
| Sync.SyncCycle | src/main.rs:127-131 | when the text is recognised the cell becomes the recognised date; when it is not, the cell is unchanged |
| Sync.LastRecognised | src/main.rs:127-141 | the most recent successful recognition of a run is a success with no success after it, and it is absent exactly when no result was a success |
| Sync.SyncRun | src/main.rs:127-141 | after a run of cycles the cell is unchanged when nothing was recognised, and otherwise holds one of the recognised dates; `SyncRunKeepsLatest` says which |
| Sync.SyncRunKeepsLatest | src/main.rs:127-141 | after any run of cycles, the cell holds the latest successful recognition, or its starting value if there was none |
| Sync.SyncMayMoveBackwards | src/main.rs:128-131 | writes are not monotone: a recognised earlier date replaces a later one |
| Reminders.SortedIsStrict | src/main.rs:202 | the iteration order of a store whose keys have months 1..12 and days 1..30 is strictly ascending |
| Reminders.MinKey | src/main.rs:202 | returns a key of the set that is not above any other key |
| Reminders.SortedKeys | src/main.rs:202 | lists every key of the store exactly once, in non-decreasing key order |
| Reminders.InsertKeyAsWritten | src/main.rs:246-247 | the source's key is stamped with `now`, and its date has month 1..12, day 1..30 and a day count larger by the clamped interval |
| Reminders.InsertAsWritten | src/main.rs:243-251 | as written: an interval outside 1..108000 changes nothing; otherwise exactly one untriggered entry is added under the source's key, and every other entry is kept |
| Reminders.InsertAsWrittenOverflows | src/main.rs:245-246 | every interval from 65535 to 108000 passes the check, and on any day of the month from 1 it overflows `u16` in `with_days_added` |
| Reminders.InsertKey | src/main.rs:246-247 | the corrected key is stamped with `now`, and its date has month 1..12, day 1..30 and a day count larger by exactly the interval |
| Reminders.TargetFitsFromPlayableYears | src/main.rs:245-247 | from any current year 1..64999 every accepted interval lands on a date the date type can hold |
| Reminders.Insert | src/main.rs:243-251 | an interval outside 1..108000 changes nothing; otherwise exactly one untriggered entry carrying the text is added, every other entry is kept, an entry with the same key is overwritten, and well-formedness is preserved |
| Reminders.InsertAgreesWithSource | src/main.rs:243-251 | for intervals up to 65535 where the source completes, the corrected insert equals the source's insert |
| Reminders.InsertTarget | src/main.rs:246-247 | the new key's date is strictly later than the current date |
| Reminders.ValidInterval | src/main.rs:245 | the interval check: 1..108000 days; `InsertRejectsOutsideBounds` and `InsertAcceptsBounds` show both ends |
| Reminders.InsertRejectsOutsideBounds | src/main.rs:245 | intervals 0 and 108001 leave the store unchanged |
| Reminders.InsertAcceptsBounds | src/main.rs:245 | intervals 1 and 108000 grow a store that lacked the key by one entry |
| Reminders.Trigger | src/main.rs:254-259 | keys and texts are unchanged, and an entry is triggered afterwards exactly when it was triggered before or its target is not after the current date |
| Reminders.ScanAndTrigger | src/main.rs:254-259 | the scan notifies exactly the due entries, each once and in key order, emits each entry's text, and leaves the store as `Trigger` describes |
| Reminders.CollectDue | src/main.rs:254-258 | walking the keys in order collects exactly the due keys, each once and in order, together with their texts |
| Reminders.LatchAll | src/main.rs:254-259 | walking the keys in order and latching the due entries gives the store `Trigger` describes |
| Reminders.EarlierKeysAreSmaller | src/main.rs:254 | in iteration order, every earlier key is below the current one and distinct from it |
| Reminders.TriggerLatches | src/main.rs:256-258 | a triggered flag never returns to false |
| Reminders.RescanNotifiesOnlyNewlyReached | src/main.rs:254-259 | after a scan at c, a scan at c or an earlier date notifies nothing; a scan at a later date notifies exactly the untriggered entries with targets after c and not after the new date |
| Reminders.TriggerExample | src/main.rs:254-259 | a reminder due on 2200.1.5 is notified once when the cell reaches that date, and not again on that date or a later one |
| Reminders.RemoveAll | src/main.rs:290-295 | removing a batch leaves exactly the keys not in the batch, each with its old value; absent keys are ignored |
| Reminders.RemoveAllWellFormed | src/main.rs:290-295 | removal preserves well-formedness |
| Reminders.TriggerWellFormed | src/main.rs:254-259 | the scan preserves well-formedness |
| Persistence.FromPairs | src/main.rs:211-216 | the rebuilt map has exactly the listed keys |
| Persistence.FromPairsLastWins | src/main.rs:211-216 | a key maps to the value of its last pair in the listing |
| Persistence.FromPairsOfListing | src/main.rs:211-216 | any duplicate-free listing of a store's entries, in any order, rebuilds that store |
| Persistence.Serialize | src/main.rs:204-209 | the listing is sorted and duplicate-free, holds every entry with its value, and rebuilds into the same store |
| Persistence.Save | src/main.rs:306-312 | loading a just-saved snapshot gives back the same date and the same store |
| Persistence.Load | src/main.rs:323-329 | a missing or undecodable file loads as 2200.1.1 and an empty store; a decoded one loads its date and exactly the listed keys |

## Findings

| source | as written | input that shows it | evidently intended | confidence | as-written member | corrected member |
|---|---|---|---|---|---|---|
| src/main.rs:245-246 | intervals up to 300*360 = 108000 days pass the check. `interval as u16` then saturates at 65535, and `self.day as u16 + days` (src/main.rs:90) is computed in `u16` | interval 108000, or any interval from 65535, on the date 2200.1.1: 1 + 65535 > 65535 overflows `u16`. A debug build panics; a release build wraps to a wrong target | the target is the current date plus the whole interval, up to 300 years | high; not executed | `Reminders.InsertAsWritten`, shown by `Reminders.InsertAsWrittenOverflows` | `Reminders.Insert`, target by `Calendar.AddDays` |

## Left out

- Screen capture over XCB, the alpha-byte fix-up, PNG encoding and Tesseract OCR (src/main.rs:144-177) are foreign libraries and I/O. The OCR result enters the model as the text given to `DateParser.Recognize`.
- The tokio task, the `Notify`/`select!` cancellation and the one-second sleep (src/main.rs:119-142, 299-303, 333, 363) are concurrency. Only the overwrite step is modelled, as `Sync.SyncStep`, plus runs of it.
- The `RwLock` around the shared date cell is concurrency. The model has no concurrent reads.
- The egui layout, colours and buttons (src/main.rs:230-297, apart from the store logic) are UI.
- rodio playback (src/main.rs:257, 335-336) is audio. A notification is modelled as the entry's text appearing in `alerts`.
- `meval::eval_str` and the `f64` interval (src/main.rs:244-246) are a foreign parser and floating point. The interval is an integer, so fractional intervals, which the source's cast truncates, are not modelled.
- serde_json's text format, `File` I/O, the home-directory lookup and `try_exists(...).unwrap()` (src/main.rs:307-312, 323-327) are I/O. A snapshot is a date plus a pair sequence, and a missing or undecodable file is `None`.
- `SystemTime::now` (src/main.rs:247) is a clock. It is the `now` parameter, counted in nanoseconds since the Unix epoch. `Duration`'s (seconds, nanoseconds) order is that count's order.
- The `Display` format (src/main.rs:109-113) is not modelled. It is not zero-padded, so its output does not generally have the parser's shape. `DateParser.FormatPadded` is the zero-padded form the game shows.
- Calendar.WithDaysAdded: a `u16` overflow or underflow is excluded by the `AddDefined` precondition, which models the debug-build panic. A release build's wrap-around is not modelled.
- DateParser.FromStr: does not model the optional leading `+` that Rust's unsigned `from_str` accepts (`"+7"` parses as 7). Its only arguments are regex groups of ASCII digits, which never carry a sign.
- DateParser.MatchDate: uses ASCII digits, while Rust's `\d` also matches other Unicode decimal digits. Such a digit then makes the `u16`/`u8` parse fail, so `parse_dt` returns `None` either way and recognition has the same outcome.
- Persistence.FromPairs: identifies keys by equality, whereas `BTreeMap` identifies keys that compare `Equal`. The two agree on keys with months 1..12 and days 1..30 (`Calendar.StampedCmpEqualIffSame`), which are the only keys the store creates. A hand-edited file with month-0 or day-0 keys is not modelled.
- Reminders.Insert: requires the target's day count to fit a `u16` year (`TargetFits`). This holds for every accepted interval from current years 1..64999 (`Reminders.TargetFitsFromPlayableYears`).
- Reminders.ScanAndTrigger: reads the current date once per scan. The source re-reads the shared cell for each entry (src/main.rs:256), so a concurrent write partway through a scan is not modelled.
