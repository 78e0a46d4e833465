# osm-elo: the rating store and the rating update, in Dafny

osm-elo keeps an Elo-style rating for every player of a two-player game. The
ratings live in one comma-separated text file, with one row per player and no
header. A row is the player's name followed by rating fields. The current rating
is the rightmost field after the name that reads as a number. When a match is
entered, the program does the following:

1. It derives the outcome (1, 0 or 0.5) and the goal difference from the two scores.
2. It reads every player's latest rating from the file.
3. It computes two new ratings, each change capped at the K-factor of 40.
4. It truncates the new ratings to integers and writes each one back.

This project models that core on values:

- `options.dfy`: the `Option` type.
- `text.dfy`: the Python string operations the code relies on, as the code uses them. These are `strip()`, `split(",")`, `",".join(...)`, `str(int)`, and `float(str)` on plain decimal numerals.
- `store.dfy`: `read_csv_elo`, `write_to_csv_file` and the loop that builds the rating map. Each is an imperative method with the program's own loops, proved against a specification function.
- `store_laws.dfy`: the laws of the store. These cover:
  - what the writer changes and what it keeps;
  - the round trip from write to read, in both lookups;
  - that other players are left alone;
  - that the writer is not idempotent;
  - a concrete flaw of the writer and its correction.
- `engine.dfy`: `get_expected_probability` and `update_elo`.
- `updater.dfy`: the body of `update_elo_ratings`, and what the file holds after its two writes.

The file is modelled as the list of its lines, as `readlines()` returns them, each with its terminator. `csv.reader` is modelled without quoting: one trailing newline is dropped, an empty line is a row with no fields, and any other line is split at its commas. `float()` skips less whitespace than `strip()`: not the separators `\x1c` to `\x1f`. Ratings are exact reals. `10 ** x` and `math.log2` are function parameters, and the lemmas that need a law of those functions state it as a precondition.

## Model

| member | source | states |
|---|---|---|
| Text.TrimLeftSpec | osm.py:32 | `lstrip` removes exactly the leading whitespace: the dropped prefix is all whitespace and the result does not start with whitespace |
| Text.TrimRightSpec | osm.py:32 | `rstrip` removes exactly the trailing whitespace |
| Text.Strip | osm.py:32 | `strip()` gives a string no longer than its input, with no whitespace left at either end |
| Text.StripParts | osm.py:52 | `strip()` leaves a contiguous middle of the string, with only whitespace around it and no whitespace at either end of the result |
| Text.StripIgnoresTrailingSpace | osm.py:52 | the line terminator does not change what `line.strip()` gives |
| Text.StripKeeps | osm.py:53 | a non-empty string with no whitespace at either end is its own strip |
| Text.StripIdempotent | osm.py:53 | stripping twice is stripping once, which is why the writer's `row[0].strip()` after `line.strip()` sees the same name |
| Text.CommaSurvivesStrip | osm.py:52 | a comma in a line is still there after `strip()` |
| Text.FirstFieldAfterStrip | osm.py:52-53 | the first field of the stripped line, stripped, equals the first field of the raw line, stripped |
| Text.StripNoBreak | osm.py:52 | `strip()` adds no line break to the text of a line |
| Text.Split | osm.py:52 | `split(",")` never yields an empty list |
| Text.SplitSpec | osm.py:52 | the first field is the text before the first comma; no field holds a comma; there are several fields exactly when the string has a comma |
| Text.SplitNoBreak | osm.py:52 | the fields of a text without a line break have none either |
| Text.Join | osm.py:59 | `",".join(row)` starts with the first field, which a comma follows exactly when there are more fields |
| Text.JoinNoBreak | osm.py:59 | joining fields without a line break gives a text without one |
| Text.JoinSnoc | osm.py:59 | joining one more field adds a comma and that field at the end |
| Text.SplitJoin | osm.py:52-59 | splitting a join of comma-free fields gives the fields back |
| Text.JoinSplit | osm.py:52-59 | joining the fields of `split(",")` gives the text back |
| Text.NatToString | osm.py:56 | `str(n)` is a non-empty string of digits with no leading zero, denoting `n` |
| Text.IntToString | osm.py:56 | `str(v)` starts with a minus sign exactly for negative `v`; the rest is all decimal digits, has no leading zero (unless it is `0`), and denotes the magnitude of `v` |
| Text.IntToStringParses | osm.py:35 | `float(str(v))` reads back the numeral of `v` |
| Text.IntNumeralValue | osm.py:35 | that numeral denotes exactly `v` |
| Text.IntToStringShape | osm.py:59 | `str(v)` holds no comma and does not start with whitespace, so it survives a later split and strip unchanged |
| Text.ParseNumberAccepts | osm.py:35 | `float(s)` succeeds exactly when `s`, trimmed of the whitespace `float()` skips, is an optionally signed decimal numeral with at least one digit |
| Text.FloatStripKeeps | osm.py:35 | a field that neither starts nor ends with whitespace `float()` skips is read whole |
| Text.ParseNumber | osm.py:35 | a value `float()` reads has at least one digit and is negative exactly when the trimmed field starts with a minus sign; its integer and fraction parts are digit strings, and the trimmed field without its sign is the integer part alone or the two parts around one decimal point |
| Text.ParseNegative | osm.py:35 | a minus sign followed by digits parses as the negative numeral of those digits |
| Text.ParseDigits | osm.py:35 | a string of digits parses as the non-negative numeral of those digits |
| Store.CsvRow | osm.py:30-31 | `csv.reader` yields an empty row exactly for an empty line or a bare newline |
| Store.Parsed | osm.py:33-37 | every field of a row is tried with `float`, one result per field |
| Store.RightmostNone | osm.py:33-38 | the backward scan finds nothing exactly when no field after the name parses |
| Store.RightmostWitness | osm.py:33-37 | when the scan finds a value, it is in a field after the name and every field to its right fails to parse |
| Store.RowRating | osm.py:33-37 | no contract of its own: StoreLaws.RatingBeforeEmptyField and StoreLaws.RatingOfWrittenRow state which field it returns, and Store.RightmostNone and Store.RightmostWitness state it for the scan it is built on |
| Store.NameMatches | osm.py:32 | no contract of its own: StoreLaws.ReadWriteAgree states that it picks the same lines as the writer's test |
| Store.Entry | osm.py:32-37 | a line holds a rating for `name` only if its first field, stripped, is `name` and a field follows the name |
| Store.StoredRating | osm.py:28-38 | `read_csv_elo` returns 1000 or the rating that some line holds for the player |
| Store.StoredRatingStep | osm.py:31-37 | the lookup takes the entry of the first matching line that has one and otherwise goes on to the next line |
| Store.ScanRow | osm.py:33-37 | the backward scan over the fields after the name, stopping at the first that parses, finds the row's rating `RowRating` |
| Store.ReadCsvElo | osm.py:28-38 | the loop over the rows, with the field scan and the early return, computes the first-match lookup `StoredRating` |
| Store.WriteRow | osm.py:52 | the writer's row is never empty, so its `row and` test always passes |
| Store.WriteMatches | osm.py:53 | no contract of its own: StoreLaws.ReadWriteAgree ties it to the reader's test, and Store.AnyMatchesSpec to `found` |
| Store.RewriteRow | osm.py:55-58 | no contract of its own: StoreLaws.RewriteWritten, StoreLaws.LoneRowLosesName and StoreLaws.RewrittenEntry state what `row[-1] = ...` and `row.append(...)` do to a row |
| Store.Written | osm.py:59-60 | no contract of its own: Store.WrittenTerminated states that a break-free row becomes one terminated line, and StoreLaws.ReadWritten that the reader sees the row plus an empty field |
| Store.NewRow | osm.py:64-65 | no contract of its own: StoreLaws.NewRowWritten states that it is the written row `[name, str(value)]`, StoreLaws.NewRowEntry and StoreLaws.NewRowOtherEntry what it holds, and StoreLaws.NewRowTerminated that it is one terminated line |
| Store.AnyMatches | osm.py:49-54 | no contract of its own: Store.AnyMatchesSpec states that it holds exactly when some line matches |
| Store.RewriteLine | osm.py:55-60 | a rewritten line ends in the trailing comma and the newline |
| Store.Rewritten | osm.py:51-62 | the loop's `updated_lines` has one line per input line |
| Store.AnyMatchesSpec | osm.py:53-54 | `found` ends up set exactly when some line's first field, stripped, is the name |
| Store.RewrittenStep | osm.py:51-62 | each loop step appends the rewritten line or the original line |
| Store.AnyMatchesStep | osm.py:53-54 | each loop step sets `found` when its line matches |
| Store.WriteToCsvFile | osm.py:41-68 | the writer's loop and its append compute `Upsert` |
| Store.Upsert | osm.py:49-65 | the writer's output has one line more than its input exactly when no line matched, and that line is `name,value,` |
| Store.WrittenTerminated | osm.py:59-60 | a written row whose fields have no line break is one line ending in its newline |
| Store.RewriteLineTerminated | osm.py:52-60 | the writer turns a line that ends in its newline, with no other line break, into such a line |
| Store.RatingTableStep | osm.py:124-131 | each line may set the map entry of its stripped name to the row's rightmost numeric field, overriding an earlier one |
| Store.CollectRatings | osm.py:121-131 | the loop over the rows, with the field scan and its `break`, computes `RatingTable` |
| Store.RatingTable | osm.py:121-131 | every key of `all_player_ratings` is a non-empty name equal to its own strip |
| Store.RatingOf | osm.py:133-134 | `.get(name, 1000)` is the map's rating for a name it holds, and 1000 for any other |
| StoreLaws.ReadWriteAgree | osm.py:32-53 | for a non-empty name, the reader's `row and row[0].strip() == name` (line 32) and the writer's test (line 53) pick the same lines |
| StoreLaws.RewrittenAt | osm.py:51-62 | output line `j` depends on input line `j` alone |
| StoreLaws.UpsertShape | osm.py:51-65 | matching lines are rewritten, all other lines are copied byte for byte in place, and `name,value,` is appended exactly when no line matched |
| StoreLaws.ReadWritten | osm.py:59-60 | the reader reads a written row back as the row plus one empty field left by the trailing comma |
| StoreLaws.RewrittenFieldsHaveNoComma | osm.py:52-58 | no field of a rewritten row holds a comma |
| StoreLaws.ReadRewritten | osm.py:52-60 | the reader's row for a rewritten line is the writer's row, rewritten, plus an empty field |
| StoreLaws.RatingOfWrittenRow | osm.py:33-37 | a row whose last field before the trailing empty one is `str(value)` carries `value` as its rating |
| StoreLaws.RatingBeforeEmptyField | osm.py:33-37 | the scan skips a trailing empty field and returns the numeric field before it |
| StoreLaws.RewrittenEntry | osm.py:55-60 | a rewritten matching line holds `value` for the same player, provided `row[-1]` is not the name |
| StoreLaws.NewRowWritten | osm.py:65 | the appended line `name,value,` is the written row `[name, str(value)]` |
| StoreLaws.NewRowEntry | osm.py:65 | the appended line holds `value` for its player |
| StoreLaws.NewRowOtherEntry | osm.py:65 | the appended line holds nothing for any other player |
| StoreLaws.FirstMatch | osm.py:51-54 | when the writer sets `found`, there is a first line it treats as the player's, and no line before it matches |
| StoreLaws.LastMatch | osm.py:51-54 | when the writer sets `found`, there is a last line it treats as the player's, and no line after it matches |
| StoreLaws.NoMatch | osm.py:64-65 | when `found` stays false, no line is the player's in the writer's eyes |
| StoreLaws.UpsertNewPlayer | osm.py:61-65 | when no line is the player's, the writer copies the file and appends `name,value,` |
| StoreLaws.RewrittenName | osm.py:55-60 | a rewritten row that still has its name is still the player's in the reader's eyes |
| StoreLaws.UpsertUpserts | osm.py:41-68 | when every matching row has a comma, the writer's result has the expected length, keeps every other line, and holds the value in every line of the player |
| StoreLaws.NewRowTerminated | osm.py:65 | the appended line for a valid name is one line ending in its newline |
| StoreLaws.UpsertKeepsTerminated | osm.py:41-68 | writing a valid name to a file whose lines all end in their newlines gives such a file, so the text written reads back as the lines the writer computed |
| StoreLaws.UpsertFixedKeepsTerminated | osm.py:41-68 | the same for the corrected writer |
| StoreLaws.FirstAt | osm.py:31-37 | the first present value of a list is the one at the first present index |
| StoreLaws.StoredRatingIsFirst | osm.py:31-38 | `read_csv_elo` returns the first of the per-line entries, or 1000 when there is none |
| StoreLaws.StoredRatingFirst | osm.py:31-37 | `read_csv_elo` returns the entry of the first line that holds one |
| StoreLaws.StoredRatingAbsent | osm.py:38 | when no line holds an entry, `read_csv_elo` returns 1000 |
| StoreLaws.StoredRatingFrame | osm.py:31-38 | two files whose lines hold the same entries for the player, one of them with extra lines holding none, give the same `read_csv_elo` answer |
| StoreLaws.RatingTableLookup | osm.py:121-134 | `all_player_ratings.get(name, 1000)` is the entry of the last line holding one, or 1000 |
| StoreLaws.LatestAt | osm.py:124-131 | the last present value of a list is the one at the last present index |
| StoreLaws.LatestEntryIsLatest | osm.py:121-131 | the last entry found by the backward definition is the latest of the per-line entries |
| StoreLaws.LatestEntryAt | osm.py:124-131 | the latest entry is the entry of the last line that holds one |
| StoreLaws.LatestEntryFrame | osm.py:124-131 | two files whose lines hold the same entries for the player, one of them with extra lines holding none, give the same latest entry |
| StoreLaws.KeptLinesHoldNothing | osm.py:61-62 | copied lines hold no entry for the player being written |
| StoreLaws.ReadAfterUpsert | osm.py:28-68 | after an upsert of a valid name that leaves every line ending in its newline, `read_csv_elo` returns the written value |
| StoreLaws.TableAfterUpsert | osm.py:121-134 | after such an upsert, the rating map gives the written value |
| StoreLaws.ReplacedLineHoldsNoOther | osm.py:53-60 | a rewritten line holds nothing for another player |
| StoreLaws.OtherEntriesKept | osm.py:51-62 | an upsert leaves every other player's entries line by line as they were |
| StoreLaws.AppendedHoldsNoOther | osm.py:64-65 | the appended line holds nothing for another player |
| StoreLaws.ReadOtherAfterUpsert | osm.py:28-68 | an upsert that leaves every line ending in its newline leaves `read_csv_elo` of any other player unchanged |
| StoreLaws.TableOtherAfterUpsert | osm.py:121-134 | such an upsert leaves the rating map entry of any other player unchanged |
| StoreLaws.StripWritten | osm.py:52-60 | a written line, stripped, is the joined row with its trailing comma |
| StoreLaws.WriteRowOfWritten | osm.py:52-60 | the writer re-reads its own line as the row plus one empty field |
| StoreLaws.RewriteWritten | osm.py:55-60 | rewriting a written line replaces that empty field with the new value |
| StoreLaws.ValidNameStart | osm.py:65 | a line written for a valid name starts with a non-space character |
| StoreLaws.UpsertAppends | osm.py:55-60 | writing again to a written row adds a field after the last one instead of replacing the last rating |
| StoreLaws.UpsertNotIdempotent | osm.py:55-60 | two identical upserts give a different file from one |
| StoreLaws.LoneRowLosesName | osm.py:55-56 | a matching row without a comma is overwritten by the value, and its name is lost |
| StoreLaws.LoneRowRoundTripFails | osm.py:55-56 | after that rewrite, both lookups give the player 1000 instead of the value |
| StoreLaws.AliceRow | osm.py:52 | the writer's row for the line `Alice` is `[Alice]` |
| StoreLaws.Str1020 | osm.py:56 | `str(1020)` is `1020` |
| StoreLaws.AliceRowRewritten | osm.py:51-60 | writing 1020 for Alice to the file `Alice` gives the file `1020,` |
| StoreLaws.AliceLosesRating | osm.py:28-38 | Alice then reads as 1000 in both lookups |
| StoreLaws.UpsertFixedUpserts | osm.py:41-68 | the corrected writer keeps every other line, holds the value in every line of the player and appends when none matched, whatever the rows look like |
| StoreLaws.UpsertFixedRoundTrip | osm.py:28-68 | with the corrected writer, both lookups return the written value for any file whose lines end in their newlines, whatever ratings and fields its rows hold, with rows read as plain text split at commas (a row that starts with a double quote reads differently in `csv.reader`, see Left out) |
| StoreLaws.UpsertFixedAgrees | osm.py:55-58 | the correction writes what the original writes whenever the original keeps the name |
| StoreLaws.UpsertRoundTrip | osm.py:28-68 | as written, both lookups return the written value when the file's lines end in their newlines and every row of the player has a comma |
| StoreLaws.NamedLineNotOther | osm.py:53 | a line the reader takes as one player's is never another player's in the writer's eyes |
| StoreLaws.NewRowNotOther | osm.py:65 | the line appended for one player is never another player's in the writer's eyes |
| StoreLaws.OtherLineCopied | osm.py:61-62 | every output line that is another player's is a line the upsert copied unchanged |
| StoreLaws.UpsertKeepsOtherRows | osm.py:51-62 | an upsert keeps another player's rows as they were, commas included |
| StoreLaws.Str1000And1050 | osm.py:56 | `str(1000)` is `1000` and `str(1050)` is `1050` |
| StoreLaws.StaleRowWritten | osm.py:59-60 | the line `Alice,1000,1050,` is the written row `[Alice, 1000, 1050]` |
| StoreLaws.StaleFieldIgnored | osm.py:33-37 | a row with a stale rating before the current one reads as the current one in both lookups |
| Engine.Clamp | osm.py:22-23 | `max(min(d, k), -k)` lies in `[-k, k]`, is `d` inside that range, and saturates at `k` above and `-k` below |
| Engine.ClampOdd | osm.py:22-23 | the cap treats a gain and the equal loss alike |
| Engine.ClampKeepsSign | osm.py:22-23 | the cap never reverses or cancels a change |
| Engine.Expected | osm.py:9-10 | an expected score is strictly between 0 and 1 |
| Engine.ExpectedSumToOne | osm.py:9-15 | the two players' expected scores add up to one, given `10 ** -x == 1 / 10 ** x` |
| Engine.ExpectedEven | osm.py:9-10 | equal ratings expect one half, given `10 ** 0 == 1` |
| Engine.UpdateElo | osm.py:13-25 | each new rating is within K of the old one |
| Engine.RawChangesOpposite | osm.py:18-19 | the two raw changes are opposite when the expectations add up to one |
| Engine.RawChange | osm.py:18-19 | an expected result changes nothing, and an unweighted change is 60 points per unit of surprise |
| Engine.UpdateEloZeroSum | osm.py:13-25 | the points one player gains are the points the other loses, cap included |
| Engine.RawChangeSign | osm.py:18-19 | with a positive goal factor, a raw change has the sign of the surprise |
| Engine.GoalFactor | osm.py:16 | a one-goal margin leaves a change unweighted when `log2(2)` is one, and the factor is positive when `log2(goal_diff + 1) > -4` |
| Engine.WinnerGainsLoserLoses | osm.py:13-25 | the winner's rating rises and the loser's falls |
| Engine.EvenDrawChangesNothing | osm.py:13-25 | a draw between equal ratings changes neither rating |
| Updater.Outcome | osm.py:117 | the outcome is 1 exactly for a win, 0 exactly for a loss and 0.5 exactly for a draw |
| Updater.OutcomeComplement | osm.py:117 | the second player's outcome is one minus the first's |
| Updater.GoalDiff | osm.py:116 | the goal difference is the distance between the scores, zero exactly for a draw |
| Updater.GoalDiffSymmetric | osm.py:116-117 | the goal difference does not depend on the order of the players, and it is zero exactly when the outcome is a draw |
| Updater.Truncate | osm.py:139-140 | `int(x)` rounds toward zero: below `x` by less than one for non-negative `x`, above it by less than one otherwise |
| Updater.TruncateWhole | osm.py:139-140 | whole numbers are kept, and every number moves by less than one |
| Updater.OldRatings | osm.py:121-134 | each player's looked-up rating is the rating in the last line holding one for that player, or 1000 |
| Updater.NewRatings | osm.py:133-140 | each integer written back is within K plus one of the player's looked-up rating |
| Updater.UpdateEloRatings | osm.py:110-140 | the handler writes the truncated new ratings, the first player's and then the second's, with the rating-replacing writer |
| Updater.NewRatingsNearlyZeroSum | osm.py:137-140 | after truncation the two ratings still add up to the old total, within less than two points |
| Updater.TwoUpsertsStoreBoth | osm.py:139-140 | two upserts of different players leave both values readable in both lookups |
| Updater.TwoUpsertsKeepOthers | osm.py:139-140 | two upserts leave every third player's rating unchanged in both lookups |
| Updater.UpdateUpserts | osm.py:139-140 | both writes of the handler do their job when every row of either player has a comma |
| Updater.UpdateStoresNewRatings | osm.py:139-140 | after the handler's writes to a file whose lines end in their newlines, both lookups give both players their new ratings |
| Updater.UpdateKeepsOthers | osm.py:139-140 | after the handler's writes, every other player's rating is as before |
| Updater.UpdateFixedStoresNewRatings | osm.py:139-140 | with the corrected writer, both new ratings read back for any file whose lines end in their newlines |
| Updater.EmptyStoreRatings | osm.py:110-140 | on an empty file, the winner of 3 to 1 ends above the loser |
| Updater.EmptyStoreRows | osm.py:139-140 | writing two new players to an empty file gives their two rows in order |

## Left out

- The tkinter window, the text entries, `int()` on the score entries (a non-integer crashes the handler), `print` and the message box. The scores arrive as integers.
- File I/O: opening, creating a missing file, and writing the result back. The file is its list of lines. The writer creates a missing file empty (osm.py:42-44), so for the writer a missing file is the empty list. `read_csv_elo` (osm.py:29) and the rating map of the handler (osm.py:122) open the file without that check and raise `FileNotFoundError` when it is missing, so the handler fails on its first use before any file exists. That crash is not modelled: the lookups are defined on an existing file only.
- Floating point: ratings and every computation are exact reals. Rounding, `OverflowError` and infinities are not modelled. `10 ** x` and `math.log2` are parameters. Lemmas needing a law of them say so: `10 ** -x` is the inverse of `10 ** x`, `10 ** 0` is one, and `log2(goal_diff + 1)` is above -4.
- `float()` accepts more than plain decimals: exponents, `inf`, `nan`, underscores, and decimal digits of other scripts, which it reads as ASCII digits. These are not modelled, and such fields read as not numeric here.
- `csv.reader` quoting, and lines without a terminator followed by more lines. A field in quotes, or with an embedded newline, is read as plain text split at commas. The round-trip lemmas therefore speak of files whose rows hold no double quote, which the writer never adds for a valid name.
- StoreLaws.ReadAfterUpsert, StoreLaws.TableAfterUpsert, StoreLaws.ReadOtherAfterUpsert, StoreLaws.TableOtherAfterUpsert, StoreLaws.UpsertRoundTrip, StoreLaws.UpsertFixedRoundTrip, StoreLaws.LoneRowRoundTripFails, Updater.TwoUpsertsStoreBoth, Updater.TwoUpsertsKeepOthers, Updater.UpdateStoresNewRatings, Updater.UpdateKeepsOthers and Updater.UpdateFixedStoresNewRatings hold only for files whose lines all end in their newlines. The model reads back the lines the writer computes, while the real file is their concatenation. If the last line of a file lacks its newline, the appended row is glued onto that line. Writing 1020 for Alice to the file `Bob,1000,` gives the one line `Bob,1000,Alice,1020,`, which reads 1020 for Bob and 1000 for Alice. The writer itself always ends its lines (StoreLaws.UpsertKeepsTerminated), so only a file edited by other means can lack a newline. For the same reason a valid name holds no line break.
- `str()` on a float rating written by a caller other than the handler. The handler only writes integers.
- Store.ReadCsvElo and Store.CollectRatings: the player name given to a lookup is not stripped, as in the source. Only names equal to their own strip can match.
- StoreLaws.UpsertUpserts, StoreLaws.UpsertRoundTrip, Updater.UpdateUpserts, Updater.UpdateStoresNewRatings and Updater.UpdateKeepsOthers require every row of the player to contain a comma. Without one, the source loses the name (see Findings). The frame part of Updater.UpdateKeepsOthers is stated under the same condition.
- Updater.UpdateStoresNewRatings, Updater.UpdateKeepsOthers and Updater.UpdateFixedStoresNewRatings require two different players with valid names. A valid name is non-empty, equal to its own strip, on one line, and has no comma and no double quote. `csv.reader` takes a leading double quote as quoting, so it would read the appended row `"Bob",1020,` under the name `Bob`. When one player plays themselves, the second write overrides the first.
- Engine.UpdateElo states only the bound of each change. Zero sum, direction and the even draw are separate lemmas, each with the law of `10 ** x` it needs.

Where the code's behaviour may surprise, the model follows the code:

- The writer is not idempotent. Each row it writes ends with an empty field, and the next `row[-1] = str(value)` replaces that empty field. So a second write adds a field rather than replacing the last rating (StoreLaws.UpsertNotIdempotent).
- Every matching row is rewritten, not only one.
- `read_csv_elo` takes the first row holding a rating. The rating map takes the last.
- The new ratings are truncated toward zero before they are written.

## Findings

| source | as written | input that shows it | evidently intended | confidence | as-written member | corrected member |
|---|---|---|---|---|---|---|
| osm.py:55-56 | `row[-1] = str(value)` replaces the only field of a matching row that has no comma, which is the player's name | the file `Alice` (one line, no comma); writing 1020 for Alice gives `1020,`, and both lookups then give Alice 1000 | replace the last rating field only when the row has a field after the name, and otherwise append the value | not executed | StoreLaws.AliceLosesRating | StoreLaws.UpsertFixedRoundTrip |
