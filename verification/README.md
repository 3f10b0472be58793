# Verified model of the data-preparation engine, its agent, and its sessions

This project models three parts of the backend and proves what they keep.

**The cleaning engine.** A dataset is copied once to a snapshot (v0). Mutating operations (`dedupe`, `fillna`,
`normalize_text`, `parse_dates`, `normalize_numeric`) read the current snapshot, write a new one, move the working
copy's pointer to it and append a journal entry; inspections (`inspect_column`, `preview_duplicates`) only read.
Undo stamps a suffix of the active entries and rewinds the pointer; reset goes back to v0. `WorkingCopyService` is the
object that does this; `Journal` holds the same steps on values, and `JournalRuns` the theorems over every run of
run, undo and reset. The operations are modelled one module each, with the polars primitives they use (`unique`,
`group_by`, `fill_null`, `median`, `mode`, `strip_chars`, `replace_all`, casing, `filter`) written out. What each returns
is stated apart from how it is computed, on the rows and cells given, in `DedupeOutcome`, `FillnaOutcome`, `TextOutcome`,
`DatesOutcome`, `NumericOutcome` and `Floats`; `OperationOutcomes` joins them under the names the dispatcher knows.

**The agent.** A turn is a bounded loop against a provider that may answer anything. Each reply, each tool outcome and
the final answer are persisted; the next turn rebuilds its message list from those rows. `AgentTurn` and `Turns`
describe a turn as values, `Conversation` what a completed or a failed turn leaves on the user's desk (rows, working
copy, snapshot files), and `ConversationRuns` the theorems over every sequence of turns, undos and resets.
`TurnContents` says what every row, message and request of a turn holds, in terms of the replies and the tools' outcomes.
`AgentLoop.AgentService` is the object that runs the turns, `Chat` rebuilds the list, `Providers` translates it into the
four request formats (`ProvidersContents`: without losing anything), and `Suggestions` reads the chip line off an answer
(`SuggestionsReading`: exactly when there is one).

**Sessions and one-shot codes.** Refresh-token rotation, logout, revocation, password reset, single-use e-mail tokens
(`Accounts`, `AccountRuns`, `AuthService`), and TOTP enrolment with its ten recovery codes (`RecoveryCodes`,
`SecondFactor`, `SecondFactorRuns`, `MfaService`). `SignIn` joins the two halves of a login in one state, and `SignInRuns`
holds the theorems over runs of both.

Each service is a class whose methods update its fields in the order the source does. A method's `ensures` ties its new
state to a function on values; the properties are proved about those functions, over all inputs and all runs. A route
commits what its service did on success and drops it on failure, so `Handle` and `RunAgentLoop` restore the tables they
started from when the service refuses. Fresh ids, paths and times come from a stream of tickets; the service keeps how
many it has drawn, and a turn that fails has spent its tickets too.

`dafny verify dfyconfig.toml` checks everything.

## Assumptions

- Row ids, snapshot paths and random tokens are fresh, and times increase along a journal (`Journal.Fresh`,
  `AgentTurn.TicketsReady`, `Accounts.Fresh`). When times may repeat, undo keeps the chain of active entries exactly
  under the condition of `JournalRuns.UndoKeepsChainIff`; `JournalRuns.TieUndoesBoth` is the smallest case that breaks it.
  Reset then goes back to the original exactly under the condition of `JournalRuns.ResetReachesOriginalIff`.
- A transaction is one atomic step. `PENDING_ACTION_TOOLS` is empty, as it is in `backend/app/agent/tools.py:279`.
- The provider is any function from the number of the request to a reply or an error. The JSON text of a tool's outcome
  is a given function of the outcome, `strptime` a given partial function, and so are hashing, password rules and TOTP.
- A token's hash identifies its row and an e-mail address its user, as the tables' unique constraints demand; a
  recovery-code hash verifies exactly the string it was made from (`SecondFactor.Sound`).
- Numbers are reals; casing and digits are ASCII, where stripping accents changes nothing. Whitespace is the full
  Unicode set, once as polars and once as Python defines it.
- Among tied modes the earliest value is taken, and groups of equal size keep their order of first appearance.
- A normalised dedupe is given a frame without columns named like its transient ones (`Dedupe.Untangled`); the exact
  condition on those names is `Dedupe.NormalisedDedupeKeepsColumnsIff`. A column named twice in `subset` or `drop` counts once.
- The pending token that the second leg of a login needs is handed out with a challenge, and by nothing else.

## Where the code and its own words differ

- `preview_duplicates` says it counts what a dedupe with the same arguments would remove
  (`backend/app/transforms/ops/inspect.py:129-132`), but it ignores `normalize_text`. The two agree exactly when
  normalising merges no two distinct keys: `Inspect.PreviewBoundsNormalisedDedupe`. For the rows `Ana` and `ana ` it
  announces none, and the dedupe removes one: `Inspect.PreviewMissesSpellings`.
- `auto` decimal detection is said to read (`backend/app/transforms/ops/normalize_numeric.py:5-18`) `1.234,56` and
  `$ 1,200`. On a column of one such value it does not (`DecimalsProperties.DocumentedExamplesAlone`); the exact condition
  is `DecimalsProperties.AutoRecoversIff`, and with points or commas among the symbols `DecimalsProperties.AutoReadsIff`.
- A currency symbol, and everything that is no digit, mark or sign, is said to be stripped
  (`backend/app/transforms/ops/normalize_numeric.py:7`, `:29-31`), but the letters `e` and `E` are kept, and so is a point
  or comma of the symbol. A number reads as its value exactly when none of those letters
  stands around it and the marks among its symbols are harmless: `DecimalsProperties.CoerceUndoesPrintIff`. `EUR` in front
  makes every value a failure (`DecimalsProperties.CurrencyCodeWithExponentLetter`); `S/. 1,200` is read, as 0.12
  (`DecimalsProperties.PointInCurrencySign`).
- `drop_row` is said to drop a row only if at least the given fraction of its columns is null
  (`backend/app/transforms/ops/fillna.py:14-16`), but it rounds the limit half to even. The frames for which the rule can
  fail are exactly those for which that lowers a limit a row can reach: `FillnaProperties.DropRuleHoldsIff`. At one half,
  a row with two nulls of five goes: `FillnaProperties.DropRuleFails`.
- Presenting a rotated refresh token is said to revoke every session of the user (`backend/app/auth/service.py:654-657`).
  The service does so in its transaction, and the route then drops it (`backend/app/auth/routes.py:289-291`):
  after it every live session stays refreshable exactly until a refresh, logout, revocation or password reset of its own
  (`AccountRuns.ReuseSparesSessionsIff`); `AccountRuns.ReuseLeavesSessionLive` is such a run, from empty tables.
- `disable` is said to remove the recovery codes by cascade (`backend/app/auth/mfa_service.py:360`), but their foreign key
  points at the user (`backend/app/auth/models.py:236-240`): in every run, every disabling leaves all ten rows
  (`SecondFactorRuns.DisableKeepsCodes`), and such runs exist (`SecondFactorRuns.DisableIsReached`). Nothing left behind is
  ever accepted: `SecondFactorRuns.NoLeftoverCodeIsAccepted`.
- The recovery alphabet (`backend/app/auth/recovery_codes.py:29`) is described as 32 symbols and has 30:
  `RecoveryCodes.ThirtySymbols`.

## Model

| member | source | states |
|---|---|---|
| JournalRuns.RunKeepsInv | backend/app/transforms/service.py:194-381 | after any sequence of run, undo and reset the active entries, in time order, form an unbroken before/after chain from v0 to the current path, every entry is sound, and no snapshot written before has changed |
| JournalRuns.CurrentIsReplay | backend/app/transforms/service.py:194-223 | in such a state the current frame is exactly the active entries' operations applied in order to the v0 frame |
| JournalRuns.RowsAndColumnsConserved | backend/app/transforms/service.py:202-217 | the rows lost since v0 are the sum of the active entries' losses, no loss is negative, and column count and names are those of v0 |
| JournalRuns.UndoRestores | backend/app/transforms/service.py:282-339 | undoing an operation, whatever ran, was undone or was reset in between, brings back exactly the path, counts and active entries from before it, and reports how many entries that undid |
| JournalRuns.UndoKeepsChainIff | backend/app/transforms/service.py:313-334 | when times may repeat, undo leaves the active entries an unbroken chain from v0 to the pointer if and only if no active entry before the target shares its time |
| JournalRuns.RunWritesOnce | backend/app/transforms/service.py:194-381 | over any run of run, undo and reset, no snapshot is the result of two entries, undone ones included, and v0 of none |
| JournalRuns.TieUndoesBoth | backend/app/transforms/service.py:319 | with two entries of the same time, undoing the second undoes both, and the pointer is left at the first one's snapshot although nothing is active |
| JournalRuns.ResetIsUndoEarliest | backend/app/transforms/service.py:354-381 | reset equals undoing the earliest active entry; with none active it changes nothing and the pointer is already at v0 |
| JournalRuns.ResetRestoresOriginal | backend/app/transforms/service.py:342-381 | after reset the path and counts are v0's, no entry is active, all are still there, and the count returned is how many were active |
| JournalRuns.ResetReachesOriginalIff | backend/app/transforms/service.py:354-372 | when times may repeat, the before-path reset takes is v0 whichever of the tied entries comes first if and only if no two active entries share the earliest time |
| Journal.MaterialiseEstablishes | backend/app/transforms/service.py:145-163 | first use writes the source itself: the new file holds exactly the source frame, the pointer its path and counts, there is no journal, every other file is as before, and the working copy starts in the invariant with that file as v0 |
| Journal.RunPreserves | backend/app/transforms/service.py:194-225 | running any operation keeps the invariant; it changes the state exactly when it succeeds and mutates, and then appends one entry with the id and time drawn for it, the call, and the paths before and after |
| Journal.UndoPreserves | backend/app/transforms/service.py:297-339 | undo keeps the invariant although active entries need not be contiguous in the journal |
| Journal.ResetPreserves | backend/app/transforms/service.py:368-381 | reset keeps the invariant and lands on v0, the unstated assumption behind taking the earliest active entry's before-path |
| Journal.StampsSuffix | backend/app/transforms/service.py:313-330 | stamping by time deactivates exactly the active entries from the target on, leaves the rest as they were, and counts them |
| Journal.StampsNow | backend/app/transforms/service.py:313-330 | an undo stamps with its own time exactly the active entries from the target on, and changes nothing else of the journal |
| Journal.ResetStamps | backend/app/transforms/service.py:372-374 | a reset stamps with its own time exactly the active entries |
| Journal.UndoAnswersIff | backend/app/transforms/service.py:297-308 | an undo passes if and only if an active entry has the id; an undone entry and an unknown id are refused, each by its name |
| Journal.OldestIsFirst | backend/app/transforms/service.py:354-372 | the earliest active entry by time is the first active one in the journal |
| WorkingCopy.WorkingCopyService.GetOrCreate | backend/app/transforms/service.py:113-163 | an existing working copy is returned untouched; otherwise exactly the source frame is written to the new path, every other file stays, pointer and counts are the source's and the journal is empty; a source that cannot be read leaves everything as it was |
| WorkingCopy.WorkingCopyService.RunOperation | backend/app/transforms/service.py:175-225 | the in-place method yields the outcome and the state of the journal step, and keeps the invariant and v0 |
| WorkingCopy.WorkingCopyService.UndoOperation | backend/app/transforms/service.py:282-339 | the same for undo, with an unknown or already undone entry refused and nothing changed |
| WorkingCopy.WorkingCopyService.ResetAll | backend/app/transforms/service.py:342-381 | the same for reset |
| WorkingCopy.WorkingCopyService.Rollback | backend/app/agent/service.py:678-680 | a dropped transaction brings back row and journal while snapshot files stay, and the invariant still holds |
| Dispatcher.Dispatch | backend/app/transforms/dispatcher.py:60-71 | the in-place lookup gives the outcome of the modelled one, whose meaning by name is `OperationOutcomes.OutcomeByName`: an unknown-operation error if and only if the name is in neither registry, and a result carries a rectangular frame if and only if the name is registered as mutating |
| OperationOutcomes.OutcomeByName | backend/app/transforms/dispatcher.py:46-71 | for every name, argument list and frame the outcome is what the name promises, stated on cells and rows: `dedupe` leaves the rows without an earlier (later) equal one, `fillna` fills or drops by strategy, `normalize_text`, `parse_dates` and `normalize_numeric` change exactly the listed columns, the inspections count the frame given, and refusals carry their own error |
| OperationOutcomes.EntryRecordsOutcome | backend/app/transforms/service.py:194-223 | in every state a run reaches, the snapshot after a journal entry and its summary are what the entry's name promises of the snapshot before it |
| Dispatcher.OperationReturns | backend/app/transforms/dispatcher.py:60-71 | an operation that succeeds returns a frame exactly when it is registered as mutating, and the frame is rectangular |
| Dispatcher.OperationShape | backend/app/transforms/dispatcher.py:64-71 | no mutating operation renames, adds or drops a column or adds a row |
| Distinct.Unique | backend/app/transforms/ops/dedupe.py:56-59 | the loop behind `unique(keep, maintain_order)` computes the kept rows |
| Distinct.KeepIsTheSurvivors | backend/app/transforms/ops/dedupe.py:56-59 | the result is, in the original order, exactly the rows that are the first (or last) with their key |
| Distinct.KeepKeepsKeys | backend/app/transforms/ops/dedupe.py:56-62 | no key disappears and there is one row per key |
| Distinct.KeepComposes | backend/app/transforms/ops/dedupe.py:56-59 | keeping by a finer key first does not change what a coarser key keeps |
| Distinct.CoarserHasFewerKeys | backend/app/transforms/ops/dedupe.py:43-59 | a coarser key has no more values, and as many if and only if it still separates the rows |
| Dedupe.RunDedupe | backend/app/transforms/ops/dedupe.py:29-85 | the method with its checks, branches and loop over sentinel columns computes the modelled outcome |
| Dedupe.DedupeKeepsRowsByKey | backend/app/transforms/ops/dedupe.py:43-59 | adding transient normalised columns, keeping by them and dropping them is keeping the original rows by the stripped, lower-cased key |
| Dedupe.NormalisedDedupeKeepsColumnsIff | backend/app/transforms/ops/dedupe.py:47-57 | the normalised branch gives back the columns it got if and only if no transient name was taken |
| Dedupe.DedupeComposes | backend/app/transforms/ops/dedupe.py:43-59 | deduping by a finer key and then by a coarser one (fewer columns, or normalised after exact) equals deduping by the coarser one |
| Dedupe.DedupeIdempotent | backend/app/transforms/ops/dedupe.py:43-72 | the same dedupe again removes nothing and says so |
| Dedupe.DedupeRemoves | backend/app/transforms/ops/dedupe.py:61-71 | `removed` is the number of rows beyond one per key, under either keep rule |
| DedupeOutcome.DedupeDeduplicates | backend/app/transforms/ops/dedupe.py:29-72 | with `"first"` exactly the rows without an earlier row equal in the listed columns stay, with `"last"` those without a later one, in their order and with their columns; equal means equal, or differing in case and surrounding whitespace in a text column when normalised; each refusal has its condition |
| DedupeOutcome.RequiredColumnsIff | backend/app/transforms/ops/dedupe.py:30-35 | the check on the columns passes if and only if a non-empty list of columns that are there is given, and tells a missing list from a missing column |
| Inspect.RunPreviewDuplicates | backend/app/transforms/ops/inspect.py:126-178 | the method that groups, filters, sorts and sums in loops computes the modelled summary, for columns polars can group by |
| Inspect.GroupedIsGroups | backend/app/transforms/ops/inspect.py:141-143 | grouping yields each key once with exactly its number of rows, and the counts add up to the height |
| Inspect.SortedGroupsAreDuplicates | backend/app/transforms/ops/inspect.py:141-147 | after filter and sort the list holds exactly the keys carried by two rows or more, largest first |
| Inspect.PreviewExamplesAreLargest | backend/app/transforms/ops/inspect.py:150-157 | the examples are up to eight of the largest duplicated groups with exact sizes, and any group left out is no larger |
| Inspect.PreviewCounts | backend/app/transforms/ops/inspect.py:148 | the sum of group size minus one is the number of rows minus the number of keys |
| Inspect.PreviewAgreesWithDedupe | backend/app/transforms/ops/inspect.py:148 | the announced number is what an exact dedupe on the same columns removes, under either keep rule |
| Inspect.PreviewBoundsNormalisedDedupe | backend/app/transforms/ops/inspect.py:126-148 | it never exceeds what a normalised dedupe removes, and equals it if and only if normalising merges no two keys |
| Inspect.PreviewMissesSpellings | backend/app/transforms/ops/inspect.py:126-148 | a two-row frame where it announces nothing and a normalised dedupe with the same arguments removes a row |
| DedupeOutcome.PreviewAnnounces | backend/app/transforms/ops/inspect.py:126-178 | the preview counts the rows of the frame given, those with an earlier equal row, and as duplicated groups the rows that have a later equal row but no earlier one |
| Stats.MedianBalances | backend/app/transforms/ops/fillna.py:38 | at most half of the values lie strictly on either side of the median |
| Stats.StrictBalanceIsMedian | backend/app/transforms/ops/fillna.py:38 | a value with fewer than half on either side is the median |
| Stats.MedianIsMiddle | backend/app/transforms/ops/fillna.py:38 | the median is the middle of the values in order, or halfway between the two middle ones |
| Stats.MeanBalances | backend/app/transforms/ops/fillna.py:42 | a number is the mean if and only if the signed distances of the values from it add up to zero |
| Stats.SumIsTotal | backend/app/transforms/ops/fillna.py:42 | the sum in that law is zero on nothing, the value on one value, and additive over concatenation |
| Stats.FirstMode | backend/app/transforms/ops/fillna.py:44 | the value taken is one of the most frequent |
| Fillna.RunFillna | backend/app/transforms/ops/fillna.py:50-167 | the method with its checks, the drop branch and the filling loop computes the modelled outcome |
| Fillna.FillLoopCounts | backend/app/transforms/ops/fillna.py:139-148 | for any list of columns, the reported counts add up to the nulls that disappeared from the frame plus those of columns listed and filled again |
| Fillna.ColumnsWithNullsAre | backend/app/transforms/ops/fillna.py:64-65 | with no list given, the targets are exactly the columns that hold a null, in order |
| FillnaProperties.MedianFillKeepsMedian | backend/app/transforms/ops/fillna.py:35-38 | filling with the median leaves the median unchanged |
| FillnaProperties.MeanFillKeepsMean | backend/app/transforms/ops/fillna.py:39-42 | whatever number balances the values of a column, filling its nulls with it leaves that number the mean |
| FillnaProperties.ModeFillIsStrictMode | backend/app/transforms/ops/fillna.py:43-44 | filling with a mode makes it the strictly most frequent value |
| FillnaProperties.FillnaKeepsStatistic | backend/app/transforms/ops/fillna.py:126-138 | of the frame the operation returns, by strategy name: the median of a numeric target stays under `median` and `auto`, its mean under `mean`, and under `mode`, or for any other column, a most frequent value becomes strictly the most frequent |
| FillnaOutcome.FillnaFillsOrDrops | backend/app/transforms/ops/fillna.py:50-167 | whatever it is given: every null of a target gets the value its strategy names (`constant` as given, the median for `median` and `auto` on a numeric column, the mean for `mean`, otherwise a most frequent value; nothing for a column without values) and every other cell stays, with each report entry naming column, value and nulls; or exactly the rows whose nulls reach the rounded limit go; or the refusal is the one due |
| FillnaOutcome.ValueByStrategy | backend/app/transforms/ops/fillna.py:27-47 | the value computed for a column with nulls is the one its strategy and type name, and an unknown strategy fails exactly when the column also has values |
| FillnaOutcome.GivenIsNumbers | backend/app/transforms/ops/fillna.py:32 | the statistics are taken of the cells that are not null, each as often as it occurs |
| FillnaProperties.FillnaFills | backend/app/transforms/ops/fillna.py:123-148 | for any list of columns, no value is overwritten, nothing outside the targets changes and no null is left where a fill value exists; `total_filled` is nulls before minus nulls after if and only if no filled column is listed twice |
| FillnaProperties.FillnaIdempotent | backend/app/transforms/ops/fillna.py:63-148 | filling again changes nothing and reports nothing, whether the columns were listed or detected |
| FillnaProperties.RoundIsNearest | backend/app/transforms/ops/fillna.py:95 | the modelled `round` goes to a nearest integer, to the even one from half-way |
| FillnaProperties.FilterKeeps | backend/app/transforms/ops/fillna.py:96-97 | the mask keeps exactly the rows that pass, in order |
| FillnaProperties.DroppedRowsAre | backend/app/transforms/ops/fillna.py:89-97 | a row is missing from the frame returned if and only if its nulls among the target columns reach the rounded limit |
| FillnaProperties.DropRuleHoldsIff | backend/app/transforms/ops/fillna.py:94-97 | over all frames and arguments with this fraction and number of columns, every row dropped has at least the fraction of its target columns null, if and only if rounding does not lower the limit (the product is whole, rounds up, or is half-way above an odd number) or the limit is one or out of reach |
| FillnaProperties.DropRuleFails | backend/app/transforms/ops/fillna.py:95 | the frame of five columns whose row with two nulls is dropped at fraction one half |
| FillnaProperties.ListedDropIdempotent | backend/app/transforms/ops/fillna.py:89-97 | with listed columns, dropping rows again drops none |
| FillnaProperties.DetectedDropIdempotentIff | backend/app/transforms/ops/fillna.py:63-97 | with the columns detected, for every frame, dropping again changes nothing if and only if every row with fewer nulls than the limit for the columns that have a null has fewer than the limit for the columns that are null in such a row |
| FillnaProperties.DetectedDropRepeats | backend/app/transforms/ops/fillna.py:63-97 | a frame of two columns where, with the columns detected, a second drop takes the row the first one left |
| Texts.StripIsUnique | backend/app/transforms/ops/normalize_text.py:67 | stripping is the one way to cut whitespace off both ends |
| Texts.StripCollapseIsJoinedWords | backend/app/transforms/ops/normalize_text.py:66-69 | stripping and collapsing is splitting into words and joining them with one space, for every string |
| Texts.CleanIsWords | backend/app/transforms/ops/normalize_text.py:64-75 | with strip and collapse on, the pipeline is that, followed by the casing |
| Texts.CleanIdempotent | backend/app/transforms/ops/normalize_text.py:64-75 | every option combination is idempotent |
| NormalizeText.RunNormalizeText | backend/app/transforms/ops/normalize_text.py:40-115 | the method with its checks and column loop computes the modelled outcome |
| NormalizeText.CleaningNeverSplits | backend/app/transforms/ops/normalize_text.py:64-87 | the number of distinct values never rises |
| NormalizeText.ClampNeverUsed | backend/app/transforms/ops/normalize_text.py:97 | for any list of columns, `collapsed_variants` is before minus after; the clamp at zero is never used |
| NormalizeText.NormalizeTextIdempotent | backend/app/transforms/ops/normalize_text.py:59-86 | the operation applied to its own result returns it |
| TextOutcome.NormalizeCleansTexts | backend/app/transforms/ops/normalize_text.py:40-115 | exactly the texts of the listed text columns are cleaned and every other cell stays; the report has one entry per listed text column, in order, with its distinct counts before and after; each refusal has its condition |
| TextOutcome.CleanCleans | backend/app/transforms/ops/normalize_text.py:64-75 | character by character: whitespace goes at both ends, every run of it becomes one space, and then `lower` lowers, `upper` raises, `title` raises exactly the letters without a letter or digit before them and lowers the rest, `preserve` changes nothing; the first two steps only if asked for |
| ParseDates.RunParseDates | backend/app/transforms/ops/parse_dates.py:33-106 | the method with its nested loops computes the modelled outcome |
| ParseDates.SearchFormat | backend/app/transforms/ops/parse_dates.py:61-73 | the inner loop over formats, with its early `continue`, finds the best format |
| ParseDates.BestFormatIsBest | backend/app/transforms/ops/parse_dates.py:64-73 | the format chosen reads as many values as any candidate, is the first to do so, and one is chosen exactly when some candidate reads a value |
| ParseDates.CountsAddUp | backend/app/transforms/ops/parse_dates.py:74-95 | parsed and failed add up to the non-null values, so the clamp is never used |
| ParseDates.DatesLoopExactly | backend/app/transforms/ops/parse_dates.py:54-92 | each listed text column becomes its reading under the best format, also when it is listed twice, and every other column, and one no format reads, stays |
| ParseDates.DatesReport | backend/app/transforms/ops/parse_dates.py:74-95 | the report has one entry per listed column, in order, with its best format and counts that add up to its values |
| DatesOutcome.ParseReadsDates | backend/app/transforms/ops/parse_dates.py:21-106 | of the frame returned: in each listed text column that a candidate fits, every cell is the time its text reads as under one format, the first of those given (or of the eight default ones) that reads most, and null otherwise; every other column stays; the report says so per listed column |
| DecimalsProperties.CoerceUndoesPrintIff | backend/app/transforms/ops/normalize_numeric.py:51-66 | with anything but digits and signs around it, such a decimal reads back as its value if and only if no `e` or `E` is there and the decimal mark is there at most once, behind an integer, or in front of a bare zero |
| DecimalsProperties.CoerceUndoesPrint | backend/app/transforms/ops/normalize_numeric.py:51-66 | any signed decimal printed in US or EU style, grouped or not, with any symbols and letters around it that hold no point or comma, reads back with its mark given: as exactly its value without an `e` or `E` among the letters, as nothing with one |
| DecimalsProperties.LettersNeverConvert | backend/app/transforms/ops/normalize_numeric.py:51-66 | with an `e` or `E` anywhere around the number neither mark reads it, whatever its digits |
| DecimalsProperties.CoerceReadsIff | backend/app/transforms/ops/normalize_numeric.py:51-66 | with either mark, such a decimal reads as its value if and only if no exponent letter is around it and the marks are harmless to that reading; to the other one they are if the number has no group separator, at most one stands among the symbols and not before the sign, and what is read is an integer with none in front, or zero |
| DecimalsProperties.GroupedMisreads | backend/app/transforms/ops/normalize_numeric.py:58-62 | with a group separator the other mark reads a different value or none, whatever stands around the number |
| DecimalsProperties.UnmarkedReadsEitherWay | backend/app/transforms/ops/normalize_numeric.py:58-62 | without mark and separator in it or around it, and without an exponent letter, a number is read by both marks |
| DecimalsProperties.AutoReadsIff | backend/app/transforms/ops/normalize_numeric.py:35-66 | whatever stands around its numbers, `auto` recovers every value of a printed column if and only if no exponent letter stands around one and the mark it detects is harmless to each |
| DecimalsProperties.AutoRecoversIff | backend/app/transforms/ops/normalize_numeric.py:35-48 | with no point or comma among the symbols, that is if and only if no exponent letter stands around a number and the column has no separators, or has marks that the separators outnumber (or equal, in US style) |
| DecimalsProperties.DocumentedExamplesAlone | backend/app/transforms/ops/normalize_numeric.py:42-48 | `1.234,56` alone and `$ 1,200` alone are not recovered |
| DecimalsProperties.CurrencyCodeWithExponentLetter | backend/app/transforms/ops/normalize_numeric.py:32 | nothing that starts with `EUR` converts, with either mark |
| DecimalsProperties.PointInCurrencySign | backend/app/transforms/ops/normalize_numeric.py:51-66 | `S/. 1,200` has no exponent letter, its point is not harmless, and it reads as 0.12 |
| NormalizeNumeric.RunNormalizeNumeric | backend/app/transforms/ops/normalize_numeric.py:69-157 | the method with its checks, skips and column loop computes the modelled outcome |
| NormalizeNumeric.ConvertedPlusFailed | backend/app/transforms/ops/normalize_numeric.py:124-134 | every string is counted once, as converted or as failed |
| NormalizeNumeric.PrintedColumnConverts | backend/app/transforms/ops/normalize_numeric.py:107-123 | a printed column with nulls in it, whatever stands around its numbers, converts to exactly its values if and only if the mark given, or the one detected, reads each of them |
| NormalizeNumeric.ReadableByCounts | backend/app/transforms/ops/normalize_numeric.py:35-48 | with no point or comma among the symbols, that condition is: no exponent letter, and the mark given or found by the counts |
| NormalizeNumeric.NormalizeNumericConverts | backend/app/transforms/ops/normalize_numeric.py:119-137 | whatever else is listed, the same for the column in the frame the operation returns; its entry in the report counts every present number as converted or failed, and none as failed when the column comes back |
| NormalizeNumeric.NumericLoopExactly | backend/app/transforms/ops/normalize_numeric.py:98-137 | each listed column is computed from the original frame, also when it is listed twice, and every other column stays |
| NormalizeNumeric.NumericReport | backend/app/transforms/ops/normalize_numeric.py:124-137 | the report has one entry per listed column, in order, whose counts are those of the column |
| NumericOutcome.NormalizeReadsNumbers | backend/app/transforms/ops/normalize_numeric.py:69-157 | in each listed text column every text becomes the number it reads as with one mark, and everything else null; the mark is the one given or, for `auto`, the rarer of the two in the column; every other column stays; the report counts per listed column the texts that read and those that do not |
| Floats.CoerceIff | backend/app/transforms/ops/normalize_numeric.py:51-66 | for every text and either mark: it reads as a number if and only if its digits, signs, exponent letters and marks, the mark as a point, form a decimal with optional sign and exponent, and then as that decimal's value |
| Floats.FloatIff | backend/app/transforms/ops/normalize_numeric.py:63-66 | the modelled `float` reads exactly that grammar: the digits as one integer, times ten to the exponent less the digits behind the point |
| SuggestionsProperties.ParseUndoesPrint | backend/app/agent/service.py:295-323 | for any body without the marker and any single-line JSON spelling of a non-empty list of strings (sections 5 and 7 of RFC 8259: every escape, surrogate pairs, blanks), parsing gives the right-trimmed body and that list |
| SuggestionsProperties.EveryListIsRead | backend/app/agent/service.py:295-323 | every non-empty list of strings, whatever they hold, has such a spelling, and is read back |
| SuggestionsProperties.ArrayReads | backend/app/agent/service.py:312 | reading a JSON array of strings undoes every way of writing it |
| SuggestionsProperties.PlainTextUntouched | backend/app/agent/service.py:308-310 | a text without the marker only loses trailing whitespace and has no chips |
| SuggestionsReading.SaysIff | backend/app/agent/service.py:295-323 | for every text: chips are offered if and only if the first marker followed by a bracketed line up to the end of the text spells a non-empty list of strings; then the list is that one and the line is cut off, and otherwise only trailing whitespace goes |
| Chat.BuildHistoryMessages | backend/app/agent/service.py:538-579 | the loop over persisted rows rebuilds the list: tool answers from system rows, other system rows skipped, calls restored |
| Chat.HistoryJoin | backend/app/agent/service.py:558-580 | rebuilding is row by row, so a longer log rebuilds to a longer list with the same beginning |
| Chat.PairedAt | backend/app/agent/service.py:758-786 | what pairing means position by position: a turn with n calls is followed by exactly n answers with its ids in order, and every answer belongs to such a turn |
| Providers.BuildAnthropicMessages | backend/app/agent/clients.py:102-149 | each non-system message is translated once, in order |
| Providers.BuildOpenAiMessages | backend/app/agent/clients.py:237-282 | each message is translated once, in order; with the flag set, as Ollama expects it |
| Providers.BuildGoogleMessages | backend/app/agent/clients.py:405-467 | each non-system message is translated once, in order |
| Providers.AnthropicKeepsShape | backend/app/agent/clients.py:115-149 | a translated message asks and answers with the ids of the original |
| Providers.OpenAiKeepsShape | backend/app/agent/clients.py:250-282 | the same for OpenAI and Ollama |
| Providers.BuildersKeepPairing | backend/app/agent/clients.py:102-149 | from a paired list the Anthropic, OpenAI and Ollama requests are paired by the same ids at the same positions |
| ProvidersContents.AnthropicRequestCarries | backend/app/agent/clients.py:102-149 | the messages that are not the system's, in order, read back from the request with role, text, calls (id, name, arguments) and answers intact |
| ProvidersContents.OpenAiRequestCarries | backend/app/agent/clients.py:237-282 | every message, in order, reads back likewise from the OpenAI and the Ollama request |
| ProvidersContents.GoogleRequestCarries | backend/app/agent/clients.py:405-467 | from the Google request likewise, but for the ids of calls and the roles other than the assistant's, which that format does not carry |
| Providers.GooglePairedIff | backend/app/agent/clients.py:405-467 | the Google request, which answers by id but calls by name, is paired if and only if every id is its tool's name |
| AgentTurn.IterationsLog | backend/app/agent/service.py:661-786 | over any replies that call tools, the rows persisted rebuild to the messages appended up to the empty-text placeholder, calls and answers are paired, there is one assistant row per reply, and every call is dispatched once in order |
| AgentTurn.IterationsKeepJournal | backend/app/agent/service.py:758-767 | the tool calls of any number of replies keep the journal invariant |
| AgentTurn.JournalOverTurn | backend/app/agent/service.py:599-618 | over a turn the journal grows by exactly the mutating calls that did not raise, one active entry each, in order |
| Turns.RebuiltHistory | backend/app/agent/service.py:727-801 | after a turn that completes, the rebuilt list is the old one, the messages the loop appended (empty texts replaced by the placeholder) and the answer, and the log is again in order; what those messages hold is `TurnContents.TurnKeeps` |
| TurnContents.TurnKeeps | backend/app/agent/service.py:661-801 | a completed turn adds to the log the user's message, for each reply that calls tools a row with its calls, its chips and its text (the placeholder only for an empty one), for each call a row under its id with the text of the outcome of that call on the working copy the calls before it left, and the answer or the give-up message; the rows handed back are the replies' own |
| TurnContents.RequestCarries | backend/app/agent/service.py:661-786 | request k of any turn, completed or failed, is the list it started from (system text, history and message, or system text and trigger), then each of the first k replies with its text and calls and the answers to them |
| TurnContents.HistoryReads | backend/app/agent/service.py:558-580 | a committed log is rebuilt row by row: content, role, calls and answer ids survive |
| Turns.TurnBounds | backend/app/agent/service.py:661-801 | such a turn leaves 1 to 13 assistant rows, one per reply and one more for giving up; the last has no calls; every emitted call was dispatched exactly once |
| Turns.SentListsPaired | backend/app/agent/service.py:661-677 | if the list a turn starts from is paired, so is every list sent to the provider |
| Conversation.TurnSendsPaired | backend/app/agent/service.py:661-677 | every list a turn sends, completed or failed, is paired |
| Conversation.TurnRebuilds | backend/app/agent/service.py:804-857 | a completed turn leaves a paired log that rebuilds to the list it started from, what the loop appended up to the placeholder, and the final answer |
| Conversation.TurnKeepsDesk | backend/app/agent/service.py:804-868 | a turn, completed or failed, leaves a paired log, a working copy in the journal invariant, and only tickets nothing has used |
| ConversationRuns.RunKeepsDesk | backend/app/agent/service.py:625-913 | so does any sequence of messages, opening turns, failed turns, undos and resets |
| ConversationRuns.EveryListSentIsPaired | backend/app/agent/service.py:661-677 | over any such run, every list sent to the provider is paired |
| ConversationRuns.NextTurnContinues | backend/app/agent/service.py:804-857 | over any such run, a message's first request is the system text, the list the last completed turn ended with (what it sent first, what its loop appended, its answer) and the new message, whatever failed or was undone in between |
| ConversationRuns.TicketsGoForward | backend/app/agent/service.py:678-680 | over any such run no ticket is drawn twice and no snapshot file is lost or rewritten, also by turns that fail |
| ConversationRuns.CurrentIsReplayOfSource | backend/app/transforms/service.py:113-225 | over any conversation that starts without a working copy, the current frame is the active entries' operations applied in order to the source frame itself, as the turn that made the copy read it |
| ConversationRuns.ResetShowsSource | backend/app/transforms/service.py:342-381 | over any such conversation, a reset shows that source frame again with nothing active |
| AgentLoop.AgentService.RunTool | backend/app/agent/service.py:582-622 | one tool call makes the working copy on first use, runs the operation, and answers with the text of its outcome, errors included |
| AgentLoop.AgentService.RunTools | backend/app/agent/service.py:758-786 | the inner loop dispatches every call in order, one row and one message each |
| AgentLoop.AgentService.Round | backend/app/agent/service.py:661-786 | one iteration: the request is the list so far, a tool is forced only on the first, and it fails, answers or runs tools exactly as the reply says |
| AgentLoop.AgentService.Rounds | backend/app/agent/service.py:661-786 | the loop makes at most twelve requests and stops at the first failure or answer |
| AgentLoop.AgentService.Drive | backend/app/agent/service.py:625-801 | a turn that completes leaves the rows and the working copy of the modelled turn; one that fails says why, and no snapshot is lost |
| AgentLoop.AgentService.RunAgentLoop | backend/app/agent/service.py:625-801 | a turn is all or nothing: it commits its rows and working copy whole, or leaves rows, working copy and journal as last committed; snapshot files and tickets stay spent either way |
| AgentLoop.AgentService.SendMessage | backend/app/agent/service.py:804-857 | a user's message is a turn of the conversation from the current desk, first turn or later: the row is appended, the history rebuilt, a tool forced on the first request; when it completes, no text, call or answer is lost on the way to the log; after failure not even the user's row is left |
| AgentLoop.AgentService.SendKickoffTurn | backend/app/agent/service.py:870-913 | the opening turn likewise: it sends the trigger, persists only what the loop produced, and forces no tool |
| AgentLoop.AgentService.UndoOperation | backend/app/transforms/service.py:282-339 | an undo between turns changes the working copy as the journal step says, reports its count or its refusal, and touches no row |
| AgentLoop.AgentService.ResetAll | backend/app/transforms/service.py:342-381 | a reset between turns likewise |
| Accounts.RequestKeepsSessions | backend/app/auth/service.py:597-798 | every committed request keeps the newest row of a rotation chain the only one that may be unrevoked, keeps rows apart, loses none and clears no revocation |
| Accounts.RequestKeepsTokens | backend/app/auth/service.py:300-328 | every committed request keeps one-shot tokens apart, loses none and clears no use |
| Accounts.RequestKeepsUsers | backend/app/auth/service.py:236-260 | every committed request keeps one account per e-mail address |
| Accounts.LoginPassesIff | backend/app/auth/service.py:499-580 | each answer has its condition: a session if and only if an active, verified account has that address and password, no second factor is active and it has a workspace; a challenge if and only if the second factor is active; a refusal for want of a workspace otherwise; and the answer names that account |
| Accounts.LoginRefusedIff | backend/app/auth/service.py:499-580 | wrong credentials, an inactive and an unverified account are told apart, each if and only if it is the case |
| Accounts.RefreshGrantedIff | backend/app/auth/service.py:659-683 | a refresh is granted if and only if some unrevoked, unexpired row has the token's hash |
| Accounts.RefreshRefusedIff | backend/app/auth/service.py:659-683 | the refusals are told apart: reuse if and only if the token's row is revoked, expiry if and only if it is live and past its time, invalid if and only if there is no row |
| Accounts.ConsumeGrantedIff | backend/app/auth/service.py:309-328 | a one-shot token is accepted if and only if some unused, unexpired row of its kind has its hash |
| Accounts.ConsumeRefusedIff | backend/app/auth/service.py:309-328 | a used, an expired and an unknown one-shot token are told apart, each if and only if it is the case |
| Accounts.RotateKeeps | backend/app/auth/service.py:683-690 | revoking the presented row and appending its successor keeps the chain in order |
| Accounts.DeadStaysDead | backend/app/auth/service.py:671-690 | a chain whose rows are all revoked gets no new row |
| AccountRuns.NothingIsCleared | backend/app/auth/service.py:420-427 | over any stretch of a run no row is lost and no `revoked_at` or `used_at` is cleared or changed |
| AccountRuns.ChainHasOneLiveRow | backend/app/auth/service.py:659-690 | in every reachable state a chain has at most one unrevoked row, its newest, and one owner |
| AccountRuns.AcceptedIsReuseEverAfter | backend/app/auth/service.py:671-683 | once a refresh token is accepted it is answered as reused for the rest of the run |
| AccountRuns.NoTokenAcceptedTwice | backend/app/auth/service.py:659-702 | no refresh token is accepted twice over any run |
| AccountRuns.ResetEndsEverySession | backend/app/auth/service.py:430-460 | after a password reset, a refresh accepted for that user belongs to a chain started by a later login |
| AccountRuns.LogoutEndsChainIff | backend/app/auth/service.py:731-742 | logging out with a token ends its chain if and only if no newer row of the chain is live |
| AccountRuns.ReuseIsUndone | backend/app/auth/service.py:671-680 | on reuse the pending transaction revokes all of the user's sessions, and nothing of it is committed |
| AccountRuns.RevokedIff | backend/app/auth/service.py:420-804 | a live row is revoked by a committed request if and only if that is one of these four |
| AccountRuns.ReuseSparesSessionsIff | backend/app/auth/routes.py:281-291 | over any run, after a refused reuse every session live before it is refreshed at any time up to its expiry if and only if no later event is an accepted refresh of its token, a logout with its cookie by its user, a revocation of its id by its user, or a password reset of its user |
| AccountRuns.ReuseLeavesSessionLive | backend/app/auth/routes.py:289-291 | a run from empty tables (register, verify, log in, refresh, the rotated token again) whose last request is refused as reused while the successor is refreshed right after |
| AccountRuns.LiveSessionsComeFromLogins | backend/app/auth/service.py:597-702 | over any run the live sessions are at most those at the start plus the logins |
| AccountRuns.RefreshKeepsLive | backend/app/auth/service.py:683-690 | an accepted refresh keeps the number of live sessions |
| AccountRuns.NoTokenConsumedTwice | backend/app/auth/service.py:300-328 | over any run a verification or reset token is consumed at most once |
| AccountRuns.ConsumedIsUsedEverAfter | backend/app/auth/service.py:323-327 | once consumed it is refused as used for the rest of the run |
| AccountRuns.WeakPasswordSparesToken | backend/app/auth/service.py:440-453 | a reset refused for a weak password leaves the token usable, because marking it is dropped with the transaction |
| AccountRuns.RowsKeepTheirExpiry | backend/app/auth/service.py:163-185 | over any run every session row was made by one of its requests, and keeps the id and hash drawn for it and the expiry of its making, one lifetime after that request |
| AccountRuns.RefreshOnlyInTime | backend/app/auth/service.py:659-683 | over any run from empty tables, a refresh token is accepted no later than one lifetime after the request that handed it out |
| AuthService.AuthService.Revoke | backend/app/auth/service.py:420-427 | the bulk update stamps exactly the matching unrevoked rows and returns how many |
| AuthService.AuthService.RegisterUser | backend/app/auth/service.py:211-292 | a weak password and a taken address are refused and change nothing; otherwise exactly one active, unverified user and the token that verifies it are added |
| AuthService.AuthService.LogIn | backend/app/auth/service.py:499-580 | a session answer adds exactly one live row of a new chain for the account, holding the hash of the token handed out; any other answer changes nothing |
| AuthService.AuthService.IssueFor | backend/app/auth/service.py:597-642 | either exactly that row is added for the user, or the user has no workspace and nothing changes |
| AuthService.AuthService.Rotate | backend/app/auth/service.py:645-710 | an accepted refresh revokes the live row of the token now and adds one live successor in its chain, with the new id, hash and a full lifetime; a reused token revokes every live row of its user now and changes no other; anything else changes nothing |
| AuthService.AuthService.LogOut | backend/app/auth/service.py:718-742 | exactly the user's live rows with the cookie's hash are revoked now and every other row is as it was; without a cookie nothing changes |
| AuthService.AuthService.RevokeOne | backend/app/auth/service.py:771-804 | exactly the user's live row with this id is revoked now; a change is reported exactly when there is one |
| AuthService.AuthService.RequestPasswordReset | backend/app/auth/service.py:376-417 | the answer is the same for any address; only if an account has it, one unused reset token for that account with a full lifetime is added, and nothing else changes |
| AuthService.AuthService.ConsumeToken | backend/app/auth/service.py:300-328 | an accepted token is an unused, unexpired one of its kind and is the only row changed; unknown, used and expired tokens are told apart, in that order, and change nothing |
| AuthService.AuthService.ConfirmEmail | backend/app/auth/service.py:331-367 | an accepted token is marked used and exactly its user becomes verified; a refusal changes nothing |
| AuthService.AuthService.ChangePassword | backend/app/auth/service.py:430-460 | when done, exactly the token owner has the new password and none of the owner's sessions is live; when refused, no account or session has changed, though the token may be marked |
| AuthService.AuthService.Handle | backend/app/auth/routes.py:273-295 | a route commits on success only, and keeps the tables in order |
| RecoveryCodes.NormalizeIff | backend/app/auth/recovery_codes.py:45-49 | any input reads back as a code if and only if it is that code with spaces and hyphens put in anywhere, letters in either case, between margins of any whitespace and hyphens |
| RecoveryCodes.ThirtySymbols | backend/app/auth/recovery_codes.py:29 | the alphabet is thirty symbols, each listed once |
| RecoveryCodes.GroupedReadsBack | backend/app/auth/recovery_codes.py:35-49 | a generated code is shown as three groups of four and reads back as drawn |
| RecoveryCodes.SpellingsAreNotTotp | backend/app/auth/mfa_service.py:241-242 | no spelling of a generated code is taken for a time-based one |
| RecoveryCodes.TypesDigitsIff | backend/app/auth/mfa_service.py:241-242 | an input is taken for a time-based code if and only if it is six digits with spaces put in and any whitespace around, and those digits are what is checked |
| SecondFactor.RequestKeepsApart | backend/app/auth/mfa_service.py:144-163 | no string ever verifies against two stored codes |
| SecondFactor.VerifyStepVerifies | backend/app/auth/mfa_service.py:215-285 | a second leg passes as time-based if and only if the method is active and the typed six digits are right for its secret and time, and as recovery if and only if the method is active, no six digits are typed and an unused stored code verifies; the first such row and nothing else is spent; everything else is refused by name and changes nothing |
| SecondFactor.DisableStepDisables | backend/app/auth/mfa_service.py:333-374 | disabling removes the method if and only if password, active method and code are right, keeps every recovery code, and names the check that failed otherwise |
| SecondFactor.RegenerateStepRenews | backend/app/auth/mfa_service.py:333-398 | new codes are shown and stored, hashed and unused, under the same condition; otherwise nothing changes |
| SecondFactorRuns.CodesAreConserved | backend/app/auth/mfa_service.py:144-285 | in every reachable state unused codes and acceptances since the last mint add up to ten, or to zero before the first mint |
| SecondFactorRuns.NoCodeAcceptedTwice | backend/app/auth/mfa_service.py:255-279 | however it is spelled, a code is accepted at most once between mints |
| SecondFactorRuns.MintedCodesPassIff | backend/app/auth/mfa_service.py:255-279 | right after a mint an input passes as a recovery code if and only if it spells one of the ten shown |
| SecondFactorRuns.CodePassesUntilSpent | backend/app/auth/mfa_service.py:255-285 | until the next mint, while the method is active, a spelling of a minted code passes exactly when no spelling of it passed before |
| SecondFactorRuns.DisableKeepsCodes | backend/app/auth/mfa_service.py:350-374 | over any run, right after every disabling all ten recovery-code rows are there, the unused ones being ten minus those accepted since the mint |
| SecondFactorRuns.DisableIsReached | backend/app/auth/mfa_service.py:350-374 | a run that enrols, confirms and disables exists for every secret and valid code |
| SecondFactorRuns.NoLeftoverCodeIsAccepted | backend/app/auth/mfa_service.py:232-234 | after disabling, no second leg passes until a new set of codes is minted |
| MfaService.MfaService.Start | backend/app/auth/mfa_service.py:90-137 | while active it is refused and changes nothing; otherwise the method awaits confirmation with the new secret, and no code is touched |
| MfaService.MfaService.ReplaceCodes | backend/app/auth/mfa_service.py:144-163 | the loop drops every row and stores one hash of the normalised form per code shown |
| MfaService.MfaService.Confirm | backend/app/auth/mfa_service.py:166-208 | codes are shown if and only if a setup is pending and the code is right; then the method is active with its secret and the stored codes are the shown ones, hashed and unused; otherwise nothing changes and the refusal names the check |
| MfaService.MfaService.VerifyDuringLogin | backend/app/auth/mfa_service.py:215-285 | the in-place verification with its loop over candidates: passes if and only if the method is active and the typed six digits are right, or no six digits are typed and an unused stored code verifies; the first such row and nothing else is spent |
| MfaService.MfaService.Drop | backend/app/auth/mfa_service.py:350-374 | the in-place disabling: the method goes if and only if password, active method and code are right, and every code stays |
| MfaService.MfaService.Renew | backend/app/auth/mfa_service.py:377-398 | the in-place renewal: the codes are replaced by those shown under the same condition, and the method stays |
| MfaService.MfaService.Handle | backend/app/auth/routes.py:240-266 | a code is spent only if the login it belongs to issues its session |
| SignInRuns.SessionNeedsBothFactors | backend/app/auth/routes.py:217-266 | over any run of both halves, every session begun by a login follows a password that passed for an active, verified account of its user; while the second factor is active it is begun by a second leg, after an earlier first leg, that typed six digits right for the secret and time, or a code that verified against an unused recovery code |
| SignInRuns.CodeBeginsOneSession | backend/app/auth/routes.py:242-266 | a second leg that passes begins exactly one session of its user; one that does not pass changes nothing |
| SignInRuns.CodesPayForSessions | backend/app/auth/routes.py:242-266 | over any such run, a user's unused recovery codes and the sessions begun with codes of the set add up to ten, or to zero before the first set |
| SignInRuns.NoCodePaysTwice | backend/app/auth/routes.py:242-266 | however it is typed, a recovery code pays for at most one session of its user |
| SignInRuns.FactorRun | backend/app/auth/mfa_service.py:90-374 | what one user's second factor sees of such a run is itself a run of the second factor, ending in the state it is in |

## Left out

- HTTP routes beyond commit or rollback, request schemas, cookies, middleware, configuration, e-mail and the frontend: plumbing.
- Provider network calls, token usage, system-prompt text, title derivation, audit rows, logging and the provider catalogue: nothing the properties depend on.
- Cryptography and randomness: hashes, password rules, TOTP and `strptime` are given functions, fresh values are parameters.
- Row-level security and SQL: tables are sequences, a query is a predicate on rows.
- The pending-action path (`resolve_pending_action`): no tool reaches it.
- File reading and writing, the data types polars infers, and coercion between them: a cell is null, a number, a text or an opaque value, a constant of another type is placed as it is, and a source that cannot be read (missing dataset, database-backed source, no path) is one of three errors.
- Not-a-number, infinities, rounding and overflow of floats.
- Non-ASCII casing, digits and accents; `remove_accents` is the identity on ASCII.
- `inspect_column` beyond its counts (statistics, histogram, top values) and every visualization: each is one call to a library, with nothing across functions.
- Listing of active sessions, sign-on through an external provider (it ends in the modelled `issue_session` or a challenge), and workspace creation at registration.
- Suggestions.ParseSuggestions: an escape in a suggestion line that is half of a surrogate pair is read as a malformed line; Python accepts it as a lone surrogate, which a Dafny character cannot hold.
- Inspect.RunPreviewDuplicates: on a key column called `__count__`, or listed twice, polars raises an error that is not an operation error; the model answers as if it could group.
- One conversation per working copy: turns of two conversations, or a turn and a click in the journal panel, do not interleave.
- AgentLoop.AgentService.Drive: file snapshots written by a turn that fails stay on disk, as in the source; only the tables are restored.
