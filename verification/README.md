# Fitness challenge: progress ledger, leaderboard and avatars

A Dafny model of the two pieces of logic in the fitness-challenge web
application that do more than move rows between a screen and the hosted
database:

- **Progress reconstruction** (`getProgress` in
  `src/services/progress.services.ts`). The function walks the days from a
  participant's join day to today, capped at the challenge duration. It
  builds one slot per walked day: the stored row when the day was logged,
  otherwise a "missed" placeholder. It asks the store to batch-insert a
  "missed" row for every unlogged day (`insertMissedEntries`), then splices
  the stored copies over the placeholders. It returns as many rows as walked
  days, most recent day first, meant to be one per day. When the join day is
  unlogged, its placeholder gets id 0, the splice skips it, and each stored
  row lands on the next unlogged day's slot (see "## Findings"). If a later
  day is unlogged too and the insert succeeds, the join day appears twice and
  the last unlogged day not at all. If the join day is the only unlogged day,
  its stored row is dropped and the id-0 placeholder is returned instead. A
  failed insert shifts nothing.
- **Leaderboard** (`getLeaderboard`). It groups a challenge's progress rows
  by participant and counts rows and completions. It computes each
  participant's current streak by walking back day by day from their last
  completion. It ranks participants by completion rate, then by streak.
- **Avatars** (`src/lib/userAvatars.ts`). A catalogue of ten hosted
  pictures, each URL holding a `{{wh}}` size slot. The module looks a picture
  up by id (falling back to the first), lists a gender's pictures in a random
  order, and picks what a profile shows.

Calendar days are integer day numbers. The database is not called: what it
returned for each query is a parameter of the model. `None` stands for a
query that reported an error, and `QueryFailed` / `NoData` / `Rows` are the
leaderboard query's three outcomes. The random draws of the shuffle are a
parameter too.

Files: `wrappers.dfy` (`Option`, `Result`), `sorting.dfy` (the stable sort
JavaScript's `Array.prototype.sort` is), `decimal.dfy` (how a template
literal renders a number), `profiles.dfy`, `progress.dfy` and
`progress_properties.dfy`, `leaderboard.dfy` and
`leaderboard_properties.dfy`, `avatars.dfy`.

Points where the code does something other than its names or comments
suggest, and the model follows the code:

- `total_days` counts the participant's progress rows; the challenge duration
  is not read.
- `last_completed_date` is the `created_at` of the participant's last
  completed row in query order (ascending `created_at`).
- The streak counts back from the last completed day, and only while that day
  is today or yesterday. It does not walk forward through the rows.
- The ledger is sorted most recent day first, although the code's comment
  says "ascending".

## Model

| member | source | states |
|---|---|---|
| Progress.DayCount | src/services/progress.services.ts:78 | The walk covers `min(daysPassed, duration)` days, and no day when either is not positive. |
| Progress.LookupDay | src/services/progress.services.ts:64-67 | The date map answers `None` exactly when no fetched row has that date. Otherwise it answers a fetched row with that date. |
| Progress.LookupDayIsLast | src/services/progress.services.ts:65-67 | When several fetched rows share a date, the map keeps the last one, like a `Map` built from pairs. |
| Progress.Slot | src/services/progress.services.ts:84-98 | Day `i`'s slot carries date `start + i`. |
| Progress.Ledger | src/services/progress.services.ts:78-99 | The walk yields one slot per day, in day order. Each slot is a fetched row for its date or a "missed" placeholder, and a placeholder only appears when no row was fetched for that day. |
| Progress.MissingDatesExact | src/services/progress.services.ts:76-99 | The missing-date list holds exactly the walked days that have no fetched row, strictly increasing. |
| Progress.MissedRows | src/services/progress.services.ts:29-35 | Each requested row is a not-completed row with note "missed" for the participant, the challenge and its date. |
| Progress.InsertMissedEntries | src/services/progress.services.ts:26-48 | No dates means no insert and nothing back. An insert error yields no rows. Otherwise the requested rows and the store's reply are returned. |
| ProgressProperties.SpliceAt | src/services/progress.services.ts:101-116 | A slot with a non-negative id stays. The slot holding the `c`-th negative id takes the `c`-th inserted row, or stays when the reply is shorter. |
| ProgressProperties.NegBeforeLedger | src/services/progress.services.ts:84-99 | The negative-id slots before day `i` are the missing days before it, less the join day when its placeholder id is `-0`. |
| Progress.Reconstruct | src/services/progress.services.ts:50-121 | A failed fetch yields an empty ledger. Otherwise there are as many rows as walked days, ordered by date descending, and an insert is requested exactly when some walked day was not logged. |
| Progress.NothingMissing | src/services/progress.services.ts:101-103 | The missing-date list is empty exactly when every walked day has a fetched row. |
| Progress.SortByDateDescSorted | src/services/progress.services.ts:118-119 | The final sort orders the ledger by date, most recent first. |
| ProgressProperties.MissingIndex | src/services/progress.services.ts:86-88 | A missing day sits in the missing list right after the missing days before it. |
| ProgressProperties.SplicedDates | src/services/progress.services.ts:101-116 | When the placeholders line up with the inserted rows, slot `i` carries day `start + i` after the splice. |
| ProgressProperties.CoverageWhenAligned | src/services/progress.services.ts:50-121 | With aligned placeholders and an echoing store, the ledger holds exactly one row for each walked day. |
| ProgressProperties.CorrectedLedgerCoversEveryDay | src/services/progress.services.ts:91 | With every placeholder id negative, the returned ledger covers each walked day exactly once, most recent first. |
| ProgressProperties.LedgerWithinWalk | src/services/progress.services.ts:78-119 | For either placeholder scheme and any store answer that echoes the request, every returned row's day lies between the join day and the last walked day, so no day past the challenge duration appears. |
| ProgressProperties.LedgerCoversEveryDayWhenJoinDayLogged | src/services/progress.services.ts:84-116 | As written, the ledger covers each walked day once whenever the join day itself was logged. |
| ProgressProperties.KeepsLoggedDays | src/services/progress.services.ts:84-85 | A logged row for a walked day, the last fetched for its date, is in the returned ledger. |
| ProgressProperties.FailedInsertKeepsPlaceholders | src/services/progress.services.ts:42-45 | When the insert fails, every unlogged day keeps its "missed" placeholder in the ledger. |
| ProgressProperties.DayZeroPlaceholderSurvives | src/services/progress.services.ts:91-108 | As written, the join day's placeholder has id 0, fails the `id < 0` test and survives the splice. |
| ProgressProperties.AsWrittenSlotShifted | src/services/progress.services.ts:106-115 | As written, with the join day unlogged, each later missing day's slot receives the row inserted for the previous missing day. |
| ProgressProperties.AsWrittenSplicedMissesLast | src/services/progress.services.ts:106-115 | As written, no slot receives the row inserted for the latest missing day. |
| ProgressProperties.AsWrittenDropsLastMissingDay | src/services/progress.services.ts:91-115 | As written, when the join day and a later day are unlogged and every "missed" row is stored, some unlogged later day has no row of its date in the ledger. |
| ProgressProperties.AsWrittenShiftExample | src/services/progress.services.ts:91-115 | For a two-day walk with nothing logged, the as-written ledger shows day 0 twice and never day 1. The corrected one shows days 1 and 0. |
| ProgressProperties.StoredRowsCoverWalk | src/services/progress.services.ts:37-47 | Once the echoed rows are stored, every walked day has a stored row. |
| ProgressProperties.LedgerFromStore | src/services/progress.services.ts:84-85 | When every walked day has a stored row, the walk takes only stored rows. |
| ProgressProperties.BackfillIdempotent | src/services/progress.services.ts:101-103 | A second call after a successful backfill inserts nothing. |
| ProgressProperties.CorrectedReconstructIdempotent | src/services/progress.services.ts:50-121 | With every placeholder id negative, positive fetched ids and an insert that stored every requested row, a second call on the fetched rows plus the stored ones returns the same ledger as the first call, whatever the store answers to an insert. |
| ProgressProperties.AsWrittenSecondCallDiffers | src/services/progress.services.ts:84-119 | As written, in the two-day example the second call, on a store holding rows 101 (day 0) and 102 (day 1), returns row 102 then row 101. The first call returned the id-0 placeholder then row 101, so the call is not idempotent. |
| Leaderboard.IndexOfUser | src/services/progress.services.ts:169 | The accumulator lookup finds the position of the participant's entry, or reports that there is none. |
| LeaderboardProperties.GroupSummarises | src/services/progress.services.ts:167-185 | The reduce yields exactly one entry per participant with rows. Each entry has the participant's row count, completion count, last completion and first row's profile. |
| Leaderboard.CompletedOn | src/services/progress.services.ts:202-206 | A day counts for the streak exactly when one of the participant's rows was created that day and is completed. |
| Leaderboard.RunBack | src/services/progress.services.ts:199-209 | The walk back counts a run of completed days ending at its start, and stops at the first day without one. |
| Leaderboard.Streak | src/services/progress.services.ts:191-212 | No completion, or a last completion before yesterday, gives 0. Otherwise the streak is at least 1 and the days right before the last completion are completed for `streak - 1` days, and not one more. |
| Leaderboard.WithStreaks | src/services/progress.services.ts:191-212 | Each entry gets the streak of its participant and nothing else changes. |
| LeaderboardProperties.CompletedDaysCounted | src/services/progress.services.ts:179-183 | Distinct completed days within a range are at most the participant's completed rows. |
| LeaderboardProperties.StreakAtMostCompleted | src/services/progress.services.ts:191-212 | A streak never exceeds the participant's completion count. |
| LeaderboardProperties.RateTransitive | src/services/progress.services.ts:216-221 | Comparing completion rates by cross-multiplying is transitive. |
| LeaderboardProperties.RanksIsOrder | src/services/progress.services.ts:214-223 | The ranking comparator is total and transitive: higher rate first, then longer streak. |
| Leaderboard.GetLeaderboard | src/services/progress.services.ts:142-224 | A query error is reported and no data gives an empty board. Otherwise the board is a reordering of the per-participant entries. |
| LeaderboardProperties.LeaderboardRanked | src/services/progress.services.ts:142-224 | The board is ranked, lists each participant with rows exactly once, and each entry's counts, last completion and streak match the rows. |
| Sorting.Insert | src/services/progress.services.ts:119 | Insertion keeps every element and adds exactly the new one. |
| Sorting.SortSorted | src/services/progress.services.ts:119 | The sort orders by any total, transitive relation. |
| Sorting.SortStable | src/services/progress.services.ts:119 | The sort is stable: the elements the comparator ties with any given element come out in their input order. |
| LeaderboardProperties.RanksTied | src/services/progress.services.ts:216-222 | The comparator ties two entries exactly when their rates and their streaks are equal. |
| LeaderboardProperties.GroupFirstAppearance | src/services/progress.services.ts:167-185 | The reduce lists participants in the order of their first rows. |
| LeaderboardProperties.LeaderboardTiesKeepOrder | src/services/progress.services.ts:214-223 | Entries with equal rates and equal streaks keep the order in which their participants first appear in the rows. |
| Sorting.SortReversesOpposite | src/services/progress.services.ts:119 | An input in exactly the opposite order comes out reversed. |
| Sorting.SortKeepsKeysDistinct | src/services/progress.services.ts:215-216 | Sorting never duplicates an element, so keys that were distinct stay distinct. |
| Decimal.IntToString | src/lib/userAvatars.ts:62 | A rendered integer is its canonical numeral: a minus sign exactly when it is negative, then digits with no leading zero (so never `065`, `00` or `-0`). |
| Decimal.IntRoundTrip | src/lib/userAvatars.ts:62 | A rendered integer parses back to itself. |
| Avatars.IndexFrom | src/lib/userAvatars.ts:62 | The search finds the first occurrence of the pattern at or after a position, or reports that there is none. |
| Avatars.ReplaceFirst | src/lib/userAvatars.ts:62 | A string replace substitutes only the first occurrence and leaves a string without one unchanged. |
| Avatars.ResizeTemplate | src/lib/userAvatars.ts:59-62 | In every catalogue template the first size slot follows the host prefix, so filling it yields host, size, path and key. |
| Avatars.RenderedWidth | src/lib/userAvatars.ts:58-64 | A rendered URL asks the host for the requested size, or 65 when the size is absent or 0. |
| Avatars.Find | src/lib/userAvatars.ts:59 | The lookup finds a catalogue picture with the id, or reports that none has it. |
| Avatars.GetAvatarByIdMatches | src/lib/userAvatars.ts:58-64 | A catalogue id yields that picture, rendered at the size. |
| Avatars.GetAvatarByIdFallback | src/lib/userAvatars.ts:58-64 | An unknown id yields the first picture, `fm1`. |
| Avatars.GetAvatar | src/lib/userAvatars.ts:49-51 | A non-empty uploaded URL wins. Otherwise the profile shows its catalogue avatar. |
| Avatars.GetAvatarDefaultSize | src/lib/userAvatars.ts:49-51 | Without an uploaded picture, a profile's avatar asks for 65 pixels. |
| Avatars.WithPrefix | src/lib/userAvatars.ts:82 | The filter keeps exactly the pictures whose id starts with the prefix. |
| Avatars.PrefixSelectsGender | src/lib/userAvatars.ts:81-82 | The prefix filter picks exactly `fm1`..`fm5` for women and `m1`..`m5` for men, in catalogue order. |
| Avatars.RenderAll | src/lib/userAvatars.ts:83-86 | Every picture is rendered at the size, position by position. |
| Avatars.Shuffle | src/lib/userAvatars.ts:71-73 | The shuffle only reorders. |
| Avatars.EveryOrderReachable | src/lib/userAvatars.ts:71-73 | Every reordering can come out of the shuffle for some random draws. |
| Avatars.GetAvatarList | src/lib/userAvatars.ts:80-87 | The listing is a reordering of the gender's rendered pictures. |
| Avatars.AvatarListContents | src/lib/userAvatars.ts:80-87 | The listing holds each of the gender's five pictures once. |
| Avatars.ListedAvatars | src/lib/userAvatars.ts:80-87 | Every listed avatar is of the requested gender and asks for the requested size. |

## Left out

- Database calls, authentication and row-level security: the rows each query or insert returned are parameters.
- Dates and time zones: days are integer day numbers. `daysPassed` is a parameter; the `Math.ceil` over milliseconds that produces it, the ISO date strings and `setHours` truncation are not modelled. Each `created_at` is taken as its local calendar day.
- The completion rate is compared exactly by cross-multiplication instead of as a floating-point quotient. An entry always has at least one row, so the divisor is positive.
- `Math.random`: the shuffle's draws are a parameter. The shuffle is modelled as a choice of any order, reachable for some draws; the probabilities of `sort` with a random comparator (biased and engine-specific) are not modelled.
- Avatars.SizeText: sizes are taken to be safe integers (below 2^53 in magnitude, so also below 1e21), which a template literal renders as plain decimal numerals. A negative size renders with a minus sign. Fractional sizes, exponent notation for very large numbers, and integers a JS number cannot hold exactly are not modelled.
- Fetched ids: the ledger lemmas that look at the splice (`ProgressProperties.NegBeforeLedger`, the coverage lemmas, `ProgressProperties.KeepsLoggedDays`) assume stored ids are positive, as a serial key makes them (`Progress.StoreIds`). A fetched row with a negative id would be overwritten by the splice like a placeholder.
- Insert reply: the coverage, bound and idempotence lemmas assume the batch insert answers with stored copies of the requested rows, in request order (possibly fewer of them), or with an error (`ProgressProperties.Echoes` and `ProgressProperties.Answers`). What the store does with a batch insert is outside the code.
- Grouping order: `Object.values` lists integer-like keys first, in numeric order, and other keys in insertion order. User ids are UUIDs, which are never integer-like, so the model lists participants in order of first appearance (`LeaderboardProperties.GroupFirstAppearance`).
- Avatars.GetAvatar: a missing profile (the optional chaining on `profile`) is not modelled; the source then throws when it reads `avatar_id`.
- `logProgress` and `getTodayProgress`: single-row insert and lookup with no logic to prove.
- The React screens, podium helpers and profile forms that call these functions.

## Findings

| source | as written | input that shows it | evidently intended | confidence | as-written member | corrected member |
|---|---|---|---|---|---|---|
| src/services/progress.services.ts:91-115 | The join day's placeholder gets id `-0`, which fails `entry.id < 0`. The splice then hands each inserted row to the next missing day's slot, one day late. | Join day 0, two days walked, nothing logged, and the insert returns rows 101 (day 0) and 102 (day 1). The ledger shows day 0 twice and never day 1. A second call on the stored rows returns rows 102 and 101, a different ledger. | Each inserted row replaces the placeholder of its own day, e.g. with ids `-(i + 1)`. | high, not executed | ProgressProperties.AsWrittenDropsLastMissingDay, ProgressProperties.AsWrittenSecondCallDiffers | ProgressProperties.CorrectedLedgerCoversEveryDay, ProgressProperties.CorrectedReconstructIdempotent |
