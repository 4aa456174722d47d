# FilmBill: verified models of its number series, check digits, schedules and ledgers

FilmBill numbers documents, validates IBANs, re-checks tax identifiers, arranges parties in trees,
guards one-time codes, redacts its audit trail and rounds money. The comments beside that code make
exact promises: no gap in a number range, no exchange of two digits unnoticed, one default account.
Here those parts are modelled in Dafny 4.11, and the promises are proved for every input, every run
or every interleaving. Where a promise does not hold as written, the model keeps what the code
does, names an input that breaks it and proves the exact condition under which it holds.

| file | what it models |
|---|---|
| `Common.dfy`, `Digits.dfy` | options and results, letter case, decimal digit strings |
| `Patterns.dfy` | number patterns: acceptance, the four sequential replacements, repeats |
| `NumberSeries.dfy`, `SeriesOutcomes.dfy` | the series row as a class: plan, allocate, edit, preview; and what each of these does, said by the rows |
| `SeriesRuns.dfy`, `SeriesLaws.dfy` | runs of allocations and edits: invariant, gap-freeness, collisions |
| `SeriesOrder.dfy` | when issue order, document dates and numbers agree |
| `SeriesCollisions.dfy` | whole runs with two-digit years, the edit whose next number fails, the run out of order |
| `SeriesEdits.dfy` | an edit as a guard that reads and a write that comes later |
| `Transactions.dfy` | interleaved transactions and edits over one row lock, with commit and rollback |
| `Mod97.dfy`, `Iban.dfy`, `IbanAcceptance.dfy` | arithmetic modulo 97, the IBAN validator on top of it, and which texts it accepts |
| `TaxIdChecks.dfy`, `CheckSchedule.dfy` | tax-identifier checks: changes, verdict, attention flag, schedule, work queue |
| `PartyTree.dfy`, `PartyOutcomes.dfy` | parent rules, cycle walk, depth bound and ancestor chain |
| `Redis.dfy` | one-time-code pools and the request limiter over keys with expiry |
| `Audit.dfy`, `AuditShown.dfy` | redaction and diff over nested values, and what each value shows |
| `Money.dfy`, `DecimalGrammar.dfy` | half-up rounding, decimal strings on the wire, and which texts are numbers |
| `BankAccounts.dfy` | a company's bank accounts and their one default |
| `AccountRaces.dfy`, `AccountOverlaps.dfy` | creates that overlap, and promotions and deletions with them |

`dafny verify dfyconfig.toml` checks everything.

An object whose methods update its fields is a class here (`SeriesRow`, `TaxIdentifier`,
`PartyTable`, `Redis`, `AccountTable`); each method is proved to compute a function of the old
state, and the laws are lemmas about that function. Times are integers (microseconds in the check
schedule, seconds in Redis); text is ASCII; integers are unbounded.

## Where the code and its documentation differ

The model follows the code in each case.

- A start value is documented as settable so that a migrating company continues its old numbering
  (apps/api/schemas/number_series.py:42-46). A yearly series ignores it: `FirstNumber` gives the
  exact condition, `YearlyStartIsIgnored` an instance.
- A yearly pattern is accepted when it has `{YY}` only, and then repeats its numbers after a
  century. `YearlyCollision` states exactly when for one allocation, `EveryDocumentNumberedExactly`
  for a whole run; `TwoDigitYearsCollide` gives the family and `TwoDigitInstance` a case.
- A collision that the caller commits instead of rolling back leaves a gap in its period, because
  the counter is written before the savepoint opens, unless the document is dated before the
  current period, whose counter then stays (`CommittedCollisionGap`). The gap-free laws ask for
  collisions to be rolled back.
- An accepted edit is meant to leave the next number free. It does, for the day of the edit, except
  on a continuous series whose current period lies after that day (`AcceptedEditIssuesANewNumber`).
  `AcceptedEditCollides` reaches that case: three numbers, the last one post-dated into the next
  year, then a switch to a continuous series under another pattern.
- Numbers of documents that met no out-of-order warning are in the order of their dates if and only
  if no document before the current period of a continuous series is numbered by a counter its own
  period has passed (`InOrderExactly`); a series that stays yearly, or whose collisions are all
  rolled back, is always in order. `OrderCanBreak` reaches 1, 3, 2 in one year.
- No edit may set a series back over a number already issued (apps/api/routers/number_series.py:178-222,
  373-377). The handler checks without the row lock and writes later, so the invariant holds
  throughout if and only if the check would still pass at every write (`InvUnderEditsExactly`).
  Allocations in between matter only for an edit of the counter (`AllocationsBetween`), and one that
  lowers a raised counter meanwhile sets it back (`LateWriteSetsBack`).
- "Almost every transposition" is caught by the IBAN check digits. All of them are, between two
  letters or two digits, at any distance; between a neighbouring letter and digit exactly
  B1, M2 and X3 go unnoticed (`MixedNeighbours`).
- A `not_applicable` row counts as an answer for the verdict but not for change detection
  (`TwoReadingsOfAnAnswer` says exactly when they disagree, `MigratedRowSplitsTheReadings` shows
  it). No check writes such a row today, since its result type refuses the status
  (apps/api/billing/parties/verification.py:51, 139-145); only a row from before migration 0013,
  which keeps them (apps/api/alembic/versions/0013_party_tax_ids.py:304-334), can carry it. On
  recorded rows the two readings agree (`ReadingsAgreeOnRecordedRuns`).
- For an identifier that nothing can check, nothing is meant to be scheduled
  (apps/api/services/tax_id_checks.py:434-438, 496-501). A manual confirmation runs through the
  same record and does schedule one; that check comes back `not_checkable`, displaces the
  confirmation and raises the attention flag (`ConfirmationIsUndone`). `NeverDueExactly` says which
  histories schedule nothing.
- The spacing of checks during an outage holds, whatever the workers' timing, if and only if no
  scheduler run dispatches an identifier that is still waiting in the work queue (`SpacedExactly`):
  `check_one` does not look at the due time again, so a backlog doubles checks up
  (`WaitingChecksDoubleUp`, `BackloggedQueueDoublesUp`).
- Exactly one account of a company is promised to be its default
  (apps/api/schemas/company.py:247-250). One request after another it is (`EveryRunIsGood`).
  apps/api/database.py:12-13 sets no isolation level, so each statement of an overlapping create
  sees what is committed when it starts. Two creates then leave two defaults if and only if both
  take the default and each demotes before the other commits (`TwoCreates`, and
  `OneDefaultExactly` for any number); two first accounts can do so (`FirstAccountsRace`). With
  promotions and deletions among them there is one default at every moment if and only if each
  request finds at its commit what it took for granted (`AlwaysOneDefaultExactly`); otherwise two
  can be left (`PromotionsBothStay`) or none (`PromotionsUndoEachOther`, `CreateAfterDeletion`).
- On every reachable party store the kind rules alone decide: the own-parent, cycle and depth
  refusals never fire (`KindsDecide`).
- A request limit of 0 still lets the request through that finds no counter; the bounds are
  therefore stated for the larger of the limit and 1.

## Model

| member | source | states |
|---|---|---|
| Patterns.BracedFindsEveryGroup | apps/api/services/number_series.py:59-110 | the token scanner finds exactly the brace pairs that enclose no brace, wherever they stand |
| Patterns.AcceptedPatterns | apps/api/services/number_series.py:79-123 | a pattern is accepted if and only if every brace pair spells a known token, the counter occurs, the mode is known, and a yearly series prints a year |
| Patterns.RefusedPatterns | apps/api/services/number_series.py:79-123 | which of the five reasons refuses a pattern, and exactly which tokens are unknown |
| Patterns.FormatIsOnePass | apps/api/services/number_series.py:135-150 | the four sequential replaces equal one token-by-token rendering, for every pattern |
| Patterns.NumberShowsExactly | apps/api/services/number_series.py:135-150 | a text is the number if and only if it is the pattern with each token replaced by digits that read as the year in four, the year in the century in two, the month in two, or the counter padded to at least the width, and everything else as it stands |
| Patterns.CounterBetween | apps/api/services/number_series.py:135-150 | between plain text the counter stands in digits that read back to it, with zeros in front only to reach the width |
| Patterns.RenderAligned | apps/api/services/number_series.py:135-150 | two renderings of equal token widths agree if and only if every occurring token prints the same |
| Patterns.SameNumber | apps/api/services/number_series.py:135-150 | for one pattern and padding, numbers are equal if and only if the counters are equal and every date token that occurs agrees, also when the value outgrows the padding or a token repeats |
| Digits.StrLessIsNumeric | apps/api/services/number_series.py:348-356 | on digit strings of one length, string order is numeric order |
| NumberSeries.PeriodOrder | apps/api/services/number_series.py:153-155 | the text order of period keys is the order of years, and equal keys mean equal years |
| NumberSeries.HighestBounds | apps/api/services/number_series.py:260-276 | the highest value of a period is an upper bound that is attained, or 0 over no rows |
| NumberSeries.LatestIsMaximal | apps/api/services/number_series.py:279-296 | the latest allocation has the greatest document date, and is the last issued of that date |
| NumberSeries.WarnsExactlyWhenOutOfOrder | apps/api/services/number_series.py:325-364 | a plan carries the out-of-order warning if and only if some issued number has a later document date |
| NumberSeries.SeriesRow.constructor | apps/api/routers/number_series.py:298-350 | a created series is active, has no period and no allocation, and stores the start value |
| NumberSeries.SeriesRow.HighestValueInPeriod | apps/api/services/number_series.py:260-276 | the loop over the rows returns the maximum of the period |
| NumberSeries.SeriesRow.AllocateNumber | apps/api/services/number_series.py:386-501 | one allocation updates counter, period and rows as specified in both modes, and on a collision leaves the counter moved and the row missing |
| NumberSeries.SeriesRow.Update | apps/api/routers/number_series.py:356-433 | an edit is refused for its pattern, padding, a value already issued in the current period or a number already on file; otherwise exactly the sent fields change |
| SeriesOutcomes.PlannedValueExactly | apps/api/services/number_series.py:346-369 | on a yearly series a document of another year than the current gets one more than the highest value of its year, and any other document what the counter says |
| SeriesOutcomes.PlanExactly | apps/api/services/number_series.py:302-383 | number, value, period, warning with date and number of the latest document, and whether a new period starts, each said by the rows |
| SeriesOutcomes.AllocateExactly | apps/api/services/number_series.py:386-501 | no series if and only if it is not active, and then nothing changes; a collision if and only if the planned number or the planned value of the period is on file; otherwise exactly one row is added; and where counter and period stand afterwards |
| SeriesOutcomes.InactiveIssuesNothing | apps/api/services/number_series.py:414-421 | over every run a deactivated series issues nothing until an edit activates it |
| SeriesOutcomes.EditExactly | apps/api/routers/number_series.py:356-433 | an edit is saved if and only if the pattern is accepted, the padding is 1 to 12, the counter is above every value of the current period and the next number is not on file; which refusal is given otherwise; and every field afterwards |
| SeriesOutcomes.PreviewTellsTheNext | apps/api/services/number_series.py:504-545 | a preview of other settings is what an allocation issues, or collides on, once an edit has saved exactly those |
| SeriesOutcomes.PreviewOfNewSeries | apps/api/services/number_series.py:504-545 | the preview before there is a series is what one that starts at 1 issues |
| NumberSeries.FirstNumber | apps/api/services/number_series.py:504-545 | the first number honours the start value if and only if the series is continuous or starts at 1, and the preview of a missing series is right under the matching condition |
| NumberSeries.YearlyStartIsIgnored | apps/api/services/number_series.py:346-357 | a yearly series created to continue at 500 issues 1 |
| SeriesRuns.PlannedValueIsNew | apps/api/services/number_series.py:346-369 | the planned value exceeds every value of its period, except for a back-dated document on a continuous series |
| SeriesRuns.RunKeepsInv | apps/api/services/number_series.py:302-475 | over every run of allocations, collisions and edits no allocation lies after the current period, the counter exceeds every value issued in it, and both unique constraints hold |
| SeriesRuns.EditKeepsInv | apps/api/routers/number_series.py:169-266 | an accepted edit of pattern, mode and counter keeps that invariant |
| SeriesLaws.CurrentPeriodNeverGoesBackInRuns | apps/api/services/number_series.py:434-442 | over every run mixing modes and edits the current period never goes back |
| SeriesLaws.SwitchTakesEffectAtTheBoundary | apps/api/routers/number_series.py:365-375 | a switch of mode leaves the current year's next value alone, and under a yearly reset every later year opens at 1 |
| SeriesLaws.YearlyIsConsecutive | apps/api/services/number_series.py:346-364 | from any settled yearly state each period continues consecutively from its own next value, whatever the order of document dates |
| SeriesLaws.YearlyIsGapFree | apps/api/services/number_series.py:260-276 | from creation on, when collisions are rolled back and edits leave counter and mode as they are, the values issued in each period are exactly 1..n, in order, with no gap and no repeat |
| SeriesLaws.ContinuousIsConsecutive | apps/api/services/number_series.py:365-369 | a continuous series counts on from its counter in issue order |
| SeriesLaws.YearlyCollision | apps/api/services/number_series.py:457-474 | a yearly series under one pattern collides if and only if only a two-digit year is printed and another century's twin holds the value |
| SeriesLaws.EveryAllocationSucceeds | apps/api/models/number_series.py:167-173 | with pattern, padding and mode fixed no allocation ever violates a unique constraint: always on a continuous series, and on a yearly one when its printed years tell the dates apart |
| SeriesLaws.TwoDigitPatternIsAccepted | apps/api/services/number_series.py:79-123 | a pattern with `{YY}` only is accepted for a yearly series |
| SeriesLaws.TwoDigitYearsCollide | apps/api/services/number_series.py:434-474 | every accepted pattern without a four-digit year collides a century later, and committing over the collision leaves a gap |
| SeriesLaws.TwoDigitInstance | apps/api/services/number_series.py:434-474 | under the accepted pattern `AR-{YY}-{SEQ}` the first number of 2126 collides with that of 2026, and 2126 starts at 2 if that is committed |
| SeriesLaws.CommittedCollisionGap | apps/api/services/number_series.py:434-474 | a committed collision of a yearly series skips one value of its own period, and none if and only if the document is dated before the current period |
| SeriesCollisions.EveryDocumentNumberedExactly | apps/api/services/number_series.py:434-474 | a yearly series numbers every document of a run, collisions rolled back, if and only if no two share a printed year of different centuries and their place in their year |
| SeriesOrder.InOrderExactly | apps/api/services/number_series.py:302-369 | in every mode, across edits and whatever callers did with collisions, a run that met no warning has issue order, document-date order and (period, value) order agree if and only if no document before the current period of a continuous series got a number its period had reached |
| SeriesOrder.ForwardRunsStayInOrder | apps/api/services/number_series.py:302-369 | so the orders agree when no document lies before the current period of a continuous series |
| SeriesOrder.YearlyRunsStayInOrder | apps/api/services/number_series.py:346-364 | and on a series that stays yearly without any further condition |
| SeriesOrder.RunsWithoutWarningsStayInOrder | apps/api/services/number_series.py:302-369 | and in every mode when callers roll back their collisions |
| SeriesCollisions.OrderCanBreak | apps/api/services/number_series.py:434-474 | under every pattern that repeats after a century, six operations without a warning issue 1, 3, 2 in one year |
| SeriesLaws.AcceptedEditIssuesANewNumber | apps/api/routers/number_series.py:194-266 | after an accepted edit the next number for that day is new, and its allocation fails if and only if the day lies before a continuous series' current period and the value is taken there |
| SeriesCollisions.AcceptedEditCanCollide | apps/api/routers/number_series.py:169-266 | with any two accepted patterns of unequal first letters an edit from yearly to continuous is saved and the next allocation for that day fails |
| SeriesCollisions.AcceptedEditCollides | apps/api/routers/number_series.py:169-266 | the case `A-{YYYY}-{SEQ}` to `B-{YYYY}-{SEQ}` with numbers of 30 December 2026 and 2 January 2027 |
| SeriesCollisions.LetterPatternAccepted | apps/api/services/number_series.py:79-123 | a capital letter before `-{YYYY}-{SEQ}` is an accepted pattern in both modes |
| Transactions.Serialisable | apps/api/services/number_series.py:240-257 | any interleaving of lock, plan, flush, insert, commit and rollback with the guards and writes of edits leaves the row as running, one at a time, the inserts whose transaction commits and the writes that found the row free, in that order; every write passed its guard on a row as it was after some operations before it |
| Transactions.HistoryIsEffective | apps/api/services/number_series.py:240-257 | from any consistent moment on, exactly those operations take effect, in that order |
| Transactions.LockedIssues | apps/api/services/number_series.py:386-475 | lock, plan, flush, insert and commit, run while the row is free, leave exactly what one allocation leaves and log it once; on a series that is not active, nothing |
| Transactions.AloneIssues | apps/api/services/number_series.py:386-475 | so a transaction that begins and meets nobody issues one number |
| Transactions.HolderIssues | apps/api/services/number_series.py:386-475 | a transaction that holds the lock and allocates again sees one more allocation on top of its own, and logs it |
| Transactions.AloneIsEdit | apps/api/routers/number_series.py:378-412 | guard and write of an edit, run while the row is free, are the edit in one piece, and a refused one changes nothing |
| Transactions.RollbackLeavesNoTrace | apps/api/services/number_series.py:386-475 | a transaction that held the lock and rolls back leaves committed data, history, lock and every other transaction as running the others' actions without it and without the locks and edits it kept waiting |
| Transactions.RolledBackNeverRan | apps/api/services/number_series.py:386-475 | the same from its first action to its rollback: the run ends as if the transaction had not been there |
| Transactions.ConcurrentYearlyIsGapFree | apps/api/services/number_series.py:386-475 | under every interleaving in which no transaction commits over a collision and no edit alters counter or mode, each period of a yearly series holds exactly 1..n, however edits of the pattern overlap |
| Transactions.InvUnderEditsExactly | apps/api/routers/number_series.py:169-266 | under every interleaving the invariant holds after every effective operation if and only if the guard of every edit still passes at its write |
| Transactions.UndisturbedEditsAreSteps | apps/api/routers/number_series.py:378-412 | where nothing commits between the guard and the write of an edit, the row is as if edits were single steps, and keeps the invariant |
| SeriesEdits.WriteKeepsInvExactly | apps/api/routers/number_series.py:388-412 | a write that comes late keeps the invariant if and only if its guard, asked of the row by then, still passes |
| SeriesEdits.AllocationsBetween | apps/api/routers/number_series.py:178-222 | allocations between guard and write break it if and only if the edit writes a counter they have reached |
| SeriesEdits.LateWriteSetsBack | apps/api/routers/number_series.py:178-222 | an edit that lowers a raised counter is sound on its own and sets the series back when an allocation comes between |
| Mod97.NoZeroDivisors | apps/api/core/iban.py:74-89 | 97 has no zero divisors, by descent along its remainders |
| Mod97.NoShortPeriod | apps/api/core/iban.py:74-89 | 10 is a primitive root modulo 97: no power below the 96th is 1 |
| Mod97.ShiftMovesUnits | apps/api/core/iban.py:74-89 | moving a non-zero digit difference by fewer than 96 places always changes its remainder |
| Iban.ChunkRead | apps/api/core/iban.py:83-89 | each joined chunk stays below 97 * 10^9 and has the remainder of the whole prefix read so far |
| Iban.Mod97OfIban | apps/api/core/iban.py:74-89 | the nine-digit loop returns the value of the whole expanded decimal string modulo 97 |
| Iban.ValidateIban | apps/api/core/iban.py:92-129 | the validator's error and success cases, over any registry of lengths |
| IbanRegistry.ValidateIban | apps/api/core/iban.py:30-45 | the same over the registry the program ships |
| IbanAcceptance.ValidateExactly | apps/api/core/iban.py:92-129 | required, bad shape, wrong length with both lengths, bad check digits or accepted, each if and only if the characters that count say so; the check is that the digits they spell, first four characters last, leave 1 modulo 97 |
| IbanAcceptance.NormaliseIs | apps/api/core/iban.py:64-71 | normalising keeps exactly the characters that are no white space, in order, small letters as capitals |
| IbanAcceptance.AlikeTextsAgree | apps/api/core/iban.py:64-129 | texts that differ only in letter case and white space, anywhere, get the same answer |
| Iban.NormaliseIdempotent | apps/api/core/iban.py:64-71 | normalising a normalised text changes nothing |
| Iban.SubstitutionIsCaught | apps/api/core/iban.py:112-129 | a valid IBAN with any one digit replaced by another digit, or any one letter by another letter, is refused |
| Iban.ExchangeIsCaught | apps/api/core/iban.py:112-129 | a valid IBAN with any two unequal digits, or two unequal letters, exchanged at any distance is refused |
| Iban.MixedNeighbours | apps/api/core/iban.py:112-129 | exchanging a neighbouring letter and digit of the account part stays valid if and only if they are B1, M2 or X3 |
| Iban.CheckDigitsExist | apps/api/core/iban.py:74-129 | for every country and account part the valid check digits are one residue class modulo 97, so there is always a pair and never more than two |
| Iban.GroupsOfFour | apps/api/core/iban.py:132-135 | every fifth character of the display form is a space and the others are the IBAN in order |
| IbanAcceptance.FormatExactly | apps/api/core/iban.py:132-135 | the display form of any text: its characters that count, a space after every four |
| Iban.FormatRoundTrip | apps/api/core/iban.py:132-135 | the grouped display form validates exactly as the original and normalises back to it |
| TaxIdChecks.DetectChanges | apps/api/services/tax_id_checks.py:301-352 | the dictionary filled step by step is exactly the set of adverse differences with their details |
| TaxIdChecks.SilentExactly | apps/api/services/tax_id_checks.py:301-352 | nothing is reported if and only if status, names, name match and registrations did not worsen, field by field; improvements and first sightings are silent |
| TaxIdChecks.DetectExactly | apps/api/services/tax_id_checks.py:301-352 | each kind of change is reported if and only if its fields worsened, with what was before and what is after |
| TaxIdChecks.LatestWhereIs | apps/api/services/party_service.py:252-271 | the latest answer exists if and only if some row answers, and no answer is later |
| TaxIdChecks.EvidenceSupportsTheVerdict | apps/api/services/party_service.py:274-350 | the verdict and the evidence never disagree, and the evidence is a fresh, valid answer that is not a manual VAT confirmation and that no later answer contradicts |
| TaxIdChecks.VerifiedExactly | apps/api/services/party_service.py:274-350 | verified if and only if the newest answer is valid, for VAT not a manual one, and no older than the limit in days where there is one; the evidence is that row |
| TaxIdChecks.OutageChangesNoVerdict | apps/api/services/party_service.py:252-350 | deleting every failed attempt changes neither verdict nor evidence, and time alone can only withdraw a verdict |
| TaxIdChecks.TwoReadingsOfAnAnswer | apps/api/services/tax_id_checks.py:289-298 | the latest answer of the verdict and the latest completed check agree if and only if the newest answering row, the last stored among those of its moment, is not `not_applicable` |
| TaxIdChecks.MigratedRowSplitsTheReadings | apps/api/services/party_service.py:252-271 | a `not_applicable` row after a valid answer withdraws the VAT verdict, and the next valid answer reports no change |
| TaxIdChecks.ReadingsAgreeOnRecordedRuns | apps/api/services/tax_id_checks.py:166-270 | on every run of recorded checks and acknowledgements the two readings agree |
| TaxIdChecks.FlagMeansUnacknowledgedChange | apps/api/services/tax_id_checks.py:194-270 | the attention flag is up if and only if a completed check since the last acknowledgement differed from its completed predecessor |
| TaxIdChecks.HistoryIsTheChecks | apps/api/services/tax_id_checks.py:194-270 | the history is every check of the run in order, untouched but for the changes recorded on it |
| TaxIdChecks.RowsRecordTheirChanges | apps/api/services/tax_id_checks.py:194-270 | every row records the changes from the last completed check before it, and a failed one none |
| TaxIdChecks.OutageLeavesNoTrace | apps/api/services/tax_id_checks.py:194-270 | deleting failed attempts from a run changes neither the flag nor any completed row or the change recorded on it |
| CheckSchedule.TaxIdentifier.ScheduleInitial | apps/api/services/tax_id_checks.py:482-502 | a new or changed identifier starts the series over; when nothing can check it no due time is set at that moment |
| CheckSchedule.TaxIdentifier.AdvanceSchedule | apps/api/services/tax_id_checks.py:400-479 | retry streak, initial series and regular interval move as specified for every answer |
| CheckSchedule.TaxIdentifier.RecordCheck | apps/api/services/tax_id_checks.py:166-270 | one check appends its row with the detected changes, moves the schedule and raises the flag on a change |
| CheckSchedule.TaxIdentifier.Acknowledge | apps/api/services/tax_id_checks.py:541-577 | acknowledging lowers the flag and nothing else |
| CheckSchedule.SeriesFollowsAnswers | apps/api/services/tax_id_checks.py:400-502 | over every history of answers, failures and `not_checkable` results, from either start, the counter is the answers since the last `not_checkable` on top of the whole series if there was one, the streak is the failures since the last answer, and the due time follows from the two and the last attempt |
| CheckSchedule.SeriesKeepsItsDays | apps/api/services/tax_id_checks.py:440-456 | no check of the initial series comes due before its own day less the jitter |
| CheckSchedule.SeriesComesDueOnItsDays | apps/api/services/tax_id_checks.py:440-502 | an identifier is first due exactly on the first day of its series, and while checks are answered on time each later one on its own day, give or take a tenth of a day |
| CheckSchedule.NeverDueExactly | apps/api/services/tax_id_checks.py:430-438 | nothing is ever due if and only if nothing can check the identifier and every result is `not_checkable`, or an answer after the series is settled with re-checking off |
| CheckSchedule.ConfirmationIsUndone | apps/api/routers/parties.py:1451-1524 | a manual confirmation of an identifier nothing can check makes it due, and the check that follows takes the verdict back and raises the flag |
| CheckSchedule.FailureKeepsTheSeries | apps/api/services/tax_id_checks.py:416-428 | a failed attempt moves only the retry state, waits at least its due gap, and stops being scheduled exactly after the second retry with re-checking off |
| CheckSchedule.AttemptsAreSpaced | apps/api/services/tax_id_checks.py:440-479 | attempts during an outage of any length are at least 3.6 h, then 21.6 h, then the interval less 2.4 h apart |
| CheckSchedule.OutageIsBounded | apps/api/services/tax_id_checks.py:64-69 | n attempts of an outage take linear time, and there are at most three with re-checking off |
| CheckSchedule.OutageKeepsTheSeries | apps/api/services/tax_id_checks.py:416-428 | an outage of any length does not move the count of completed checks |
| CheckSchedule.SpacedExactly | apps/api/tasks/tax_id_tasks.py:37-115 | the attempts are spaced for every time at which workers take the checks, one after another, if and only if no scheduler run dispatches an identifier that is already waiting |
| CheckSchedule.QueueConserves | apps/api/tasks/tax_id_tasks.py:37-115 | every dispatch of a due identifier is executed or waiting, none is invented, and what was executed moved the schedule in order |
| CheckSchedule.WorkersTakeWhatWaits | apps/api/tasks/tax_id_tasks.py:78-115 | workers execute what waits, one check each |
| CheckSchedule.DrainedQueueIsSpaced | apps/api/tasks/tax_id_tasks.py:37-115 | when no dispatch finds one waiting, whatever attempts are executed are an outage in that sense |
| CheckSchedule.WaitingChecksDoubleUp | apps/api/tasks/tax_id_tasks.py:37-115 | two or more waiting checks, executed at one moment and failing, are never spaced |
| CheckSchedule.BackloggedQueueDoublesUp | apps/api/tasks/tax_id_tasks.py:37-115 | two scheduler runs an hour apart before any worker are such a backlog |
| PartyTree.ValidateParent | apps/api/services/party_service.py:67-152 | the walk terminates on every store, cyclic ones included, and its verdict is the specified one |
| PartyTree.DepthOf | apps/api/services/party_service.py:155-170 | the cycle-guarded loop computes the specified depth |
| PartyTree.BuildChain | apps/api/services/party_service.py:416-441 | the bounded loop collects the specified chain, the party first and the top last |
| PartyTree.UnmetWalkEnds | apps/api/services/party_service.py:118-141 | a walk that meets nobody already seen reaches the top |
| PartyTree.DepthIsHeight | apps/api/services/party_service.py:155-170 | where the top is reached the computed depth is the number of levels |
| PartyTree.CollectedIsAncestors | apps/api/services/party_service.py:416-441 | within the bound the collected chain is the true list of ancestors |
| PartyTree.MoveAccepted | apps/api/services/party_service.py:87-152 | on any store a move is accepted if and only if the kinds fit and the new parent is at most second from the top of a chain that does not pass the party |
| PartyOutcomes.MoveAcceptedByRows | apps/api/services/party_service.py:87-152 | the same by the rows: the parent is a fitting row of the company, not the party, and at the top or one below a top that is not the party |
| PartyOutcomes.CreateAcceptedByRows | apps/api/services/party_service.py:87-152 | on any store a new party is accepted if and only if the parent fits and the way up ends or comes round after at most one step |
| PartyOutcomes.RefusedBecause | apps/api/services/party_service.py:87-152 | which refusal is given; a move is below itself if and only if the way up passes the party or never ends |
| PartyOutcomes.ChainIsParents | apps/api/services/party_service.py:416-441 | the chain built on a reachable store is the party, then parent after parent, to one without a parent |
| PartyTree.PartyTable.CreateParty | apps/api/routers/parties.py:412-436 | a party is stored if and only if its parent is accepted |
| PartyTree.PartyTable.UpdateParent | apps/api/routers/parties.py:484-499 | a move is stored if and only if it is accepted, and an unchanged parent is not checked again |
| PartyTree.ReachableIsWellKinded | apps/api/models/party.py:77-81 | on every reachable store each parent is in the same company and of an allowed kind |
| PartyTree.ReachableIsAForest | apps/api/services/party_service.py:87-170 | every reachable store is a forest at most three deep, and the chain built is the complete list of ancestors |
| PartyTree.KindsDecide | apps/api/services/party_service.py:87-152 | on reachable stores a parent is accepted if and only if it exists in the company and its kind fits |
| CodePools.StoreCode | apps/api/services/redis_service.py:31-38 | storing sets the code with its pool's expiry and drops the failures |
| CodePools.VerifyCode | apps/api/services/redis_service.py:41-69 | the four verdicts and what each does to the store |
| CodePools.ClearCode | apps/api/services/redis_service.py:477-483 | both keys are dropped |
| CodePools.KeysDiffer | apps/api/services/redis_service.py:165-172 | no key of one pool or kind equals a key of another, whatever the addresses |
| CodePools.ActsOnOwnSlot | apps/api/services/redis_service.py:99-133 | a command acts on its own pool and address as on that slot alone |
| CodePools.LeavesOtherSlots | apps/api/services/redis_service.py:309-366 | a command in one pool, or for one address, changes no other pool or address |
| CodePools.AtMostFiveWrongGuesses | apps/api/services/redis_service.py:41-69 | between one store and the next, whatever else runs, at most five wrong guesses are compared with the code and it is accepted at most once |
| CodePools.VerdictExactly | apps/api/services/redis_service.py:41-69 | every answer to a guess after a store and any commands but another store: missing once accepted or dropped; while live, 900 seconds for the backup address and 600 for the others, by the guess and the wrong ones since; then missing or still refused |
| CodePools.AcceptedExactly | apps/api/services/redis_service.py:41-69 | after a store and any commands but another store, a guess is accepted if and only if it is the stored, non-empty code, has not expired, fewer than five wrong guesses fell since, and it was neither accepted nor cleared |
| RateLimit.CheckRateLimit | apps/api/services/redis_service.py:517-544 | one request is refused at the limit with the remaining time, or counted, opening a window when none is live |
| RateLimit.StoreIsTheWindow | apps/api/middleware/global_rate_limit.py:85-102 | the key in the store is exactly a window of admissions |
| RateLimit.RetryAfterIsExact | apps/api/services/redis_service.py:533-537 | a refused caller is let through again if and only if the announced wait has passed |
| RateLimit.AdmittedExactly | apps/api/services/redis_service.py:517-544 | a request is let through if and only if no window is open or fewer than the limit were let through in it |
| RateLimit.AtMostTwiceTheLimit | apps/api/services/redis_service.py:517-541 | for any request times any stretch as long as the window admits at most twice the limit, and the counter's own window at most the limit |
| Audit.RedactedIsSafe | apps/api/services/audit.py:132-176 | whatever a field holds, at every depth each secret name holds the marker and each IBAN is masked |
| Audit.MaskShowsTheTrace | apps/api/services/audit.py:115-129 | two IBANs are masked alike if and only if their first two and last four characters agree, or both are too short or no text |
| Audit.RowShowsExactly | apps/api/services/audit.py:137-176 | two values are stored alike if and only if they agree on every leaf outside secret fields and on the trace of every IBAN, at any depth |
| AuditShown.SecretExactly | apps/api/services/audit.py:40-135 | a field is secret if and only if its name, in any case, is one of the 22 or ends in one of the seven endings |
| AuditShown.StructureIsShown | apps/api/services/audit.py:147-176 | a dictionary keeps its keys in order, each value redacted under its own key, and a list its elements |
| AuditShown.MaskExactly | apps/api/services/audit.py:115-129 | an IBAN of eight or more characters shows two, an ellipsis and four, without spaces and in capitals; a shorter one and anything but text shows the marker |
| Audit.Diff | apps/api/services/audit.py:235-261 | the loop returns exactly the fields whose raw values differ, both sides redacted |
| Audit.DiffShowsExactly | apps/api/services/audit.py:235-261 | two changes give the same diff if and only if the same fields differ and those agree outside secrets and IBAN middles, for any raw equality |
| Audit.ChangedSecretIsRecorded | apps/api/services/audit.py:243-260 | a secret appears in the diff if and only if its raw value changed, as two markers |
| Money.HalfUpIsNearest | apps/api/core/money.py:177-191 | half-up division is the one nearest multiple with ties away from zero |
| Money.RoundsToNearest | apps/api/core/money.py:177-191 | a decimal is the quantizer's result if and only if it has the sign and the target's scale, fits 34 digits and is nearest with ties away from zero (roundTiesToAway, section 4.3.1 of IEEE 754-2008), at every finer scale |
| Money.HalvesGoUp | apps/api/core/money.py:177-191 | a half of the last place goes away from zero every time, whatever the digit before it, for amounts and quantities |
| Money.QuantizeIsMonotone | apps/api/core/money.py:177-191 | rounding keeps the order of values, whatever their scales and signs |
| Money.QuantizeIsStable | apps/api/core/money.py:177-191 | rounding is idempotent and sign-symmetric, and leaves a value of the target scale alone |
| Money.RefusedExactly | apps/api/core/money.py:56-74 | rounding is refused if and only if the value reaches the 34-digit bound less half a unit |
| Money.SumOfRoundedAmounts | apps/api/core/money.py:177-186 | the sum of n rounded amounts differs from the rounded sum by at most (n + 1) / 2 units of the last place |
| DecimalGrammar.TextAcceptedExactly | apps/api/core/money.py:84-122 | a text is accepted if and only if, without the white space around it, it is an optional sign, at least one digit with at most one point among the digits, and an optional exponent |
| DecimalGrammar.NumeralAccepted | apps/api/core/money.py:84-122 | the decimal read has the sign, digits and scale the numeral spells |
| DecimalGrammar.TextRefusedExactly | apps/api/core/money.py:84-122 | a refused text is empty if it is white space, not finite if it names infinity or no number, and otherwise not a number |
| Money.SerialiseRoundTrip | apps/api/core/money.py:84-142 | reading a serialised decimal restores its value, and its scale if the exponent is not positive; the text is always positional |
| Money.SerialisedForm | apps/api/core/money.py:125-142 | a minus sign for a negative decimal alone, no zeros in front, and after the point as many digits as the scale |
| BankAccounts.AccountTable.SetDefaultBankAccount | apps/api/services/company_service.py:213-245 | the account becomes the default and every other default of the company is demoted |
| BankAccounts.AccountTable.CreateBankAccount | apps/api/routers/companies.py:722-778 | a valid, new IBAN is stored normalised, and the first account is the default |
| BankAccounts.AccountTable.UpdateBankAccount | apps/api/routers/companies.py:784-850 | the refusals of an edit, and exactly the sent fields changed otherwise |
| BankAccounts.AccountTable.DeleteBankAccount | apps/api/routers/companies.py:856-902 | an account goes unless it is a default with others beside it |
| BankAccounts.CreateAcceptedExactly | apps/api/routers/companies.py:736-746 | a create is accepted if and only if the IBAN is valid and the company does not hold it; a refused one changes nothing |
| BankAccounts.CreateRefusedExactly | apps/api/routers/companies.py:736-746 | a create is refused as invalid or as a duplicate, and for which |
| BankAccounts.CreateIsExact | apps/api/routers/companies.py:745-775 | an accepted create stores what was sent, is the default if it asks to be or is the first, and touches another row only to demote it |
| BankAccounts.UpdateIsExact | apps/api/routers/companies.py:798-847 | an accepted edit stores exactly the fields sent and touches another row only to demote it; a refused one changes nothing |
| BankAccounts.UpdateAcceptedExactly | apps/api/routers/companies.py:798-818 | an edit is accepted if and only if the account is the company's, a sent IBAN is valid and held by no other account, and the default is not asked to step down; which refusal is given otherwise |
| BankAccounts.OthersUntouched | apps/api/services/company_service.py:213-245 | a request for one company changes no row of another |
| BankAccounts.RunKeepsGood | apps/api/routers/companies.py:722-902 | one request after another keeps each company at no account or exactly one default, with valid, normalised, pairwise distinct IBANs |
| BankAccounts.EveryRunIsGood | apps/api/models/company.py:281-332 | every run from an empty table is in such a state |
| AccountRaces.OneDefaultExactly | apps/api/services/company_service.py:213-245 | at every moment of every interleaving of creates a company has one default if and only if at most one committed create took the default and committed after every other taker demoted |
| AccountRaces.TwoCreates | apps/api/services/company_service.py:213-245 | two committed creates leave two defaults if and only if both take the default and each demotes before the other commits |
| AccountRaces.FirstAccountsRace | apps/api/routers/companies.py:736-775 | two first accounts of a company, each inserted and demoting before the other commits, are both the default |
| AccountRaces.IbansStayDistinct | apps/api/models/company.py:281-332 | however creates overlap, no company holds one IBAN twice |
| AccountRaces.AloneIsCreate | apps/api/routers/companies.py:722-778 | the four statements run without interruption are the create of the sequential model |
| AccountOverlaps.AlwaysOneDefaultExactly | apps/api/routers/companies.py:722-902 | however creates, promotions and deletions overlap, a company has one default or no account at every moment if and only if each request finds at its commit what it took for granted |
| AccountOverlaps.PromotionsBothStay | apps/api/services/company_service.py:213-245 | two promotions that each demote before the other commits leave two defaults |
| AccountOverlaps.PromotionsUndoEachOther | apps/api/services/company_service.py:236-245 | a promotion of the present default, with a promotion of another account in between, leaves none |
| AccountOverlaps.CreateAfterDeletion | apps/api/routers/companies.py:856-902 | a deletion of the one account while a create has read it leaves an account and no default |
| AccountOverlaps.AloneIsPromotion | apps/api/routers/companies.py:784-850 | the statements of a promotion run without interruption are the edit of the sequential model |
| AccountOverlaps.AloneIsDeletion | apps/api/routers/companies.py:856-902 | and those of a deletion the deletion |

## Left out

- SQLAlchemy sessions, identity maps and stale reads; FastAPI routing, permissions and audit rows of the handlers: the row lock, commit, rollback and unique constraints appear as abstract steps.
- Database widths: 32-bit counters, String(64) numbers and NUMERIC(18, x) columns are not modelled; integers and texts are unbounded.
- `document_date_in_company_timezone` and every time zone database: a document date is an input.
- `seed_number_series` and the conflict between two active series of one document type: table set-up without a law of its own.
- `allocate_party_number`, `create_tax_id`, `update_tax_id` with retire and replace, duplicates and archiving of parties.
- PATCH bodies that send null for a series field, and the wording of messages and change sentences.
- AllocateNumber: the caller's commit or rollback is not part of the method; `Transactions.dfy` models it.
- Transactions: locks are granted in the order asked for; deadlock detection and lock time-outs are not modelled.
- MixedNeighbours: adjacent positions of the account part only; for a letter and a digit further apart the outcome depends on everything between them.
- Text beyond ASCII: upper-casing, lower-casing and white space follow ASCII; a party's or registry's name is compared after an ASCII strip.
- `due_identifiers`: selection order, batch size and SKIP LOCKED; one identifier is followed at a time.
- AttemptsAreSpaced: attempts are scheduler-driven; checks started by hand are not part of an outage.
- The tax engine, region packs, registry providers and the check-policy parser: their results are inputs.
- UpdateParent: a party's other fields, and parties of a type outside the three known ones, are not modelled.
- VerifyCode: commands are atomic steps in time order; interleaved GET and INCR of two requests, TTL rounding and Redis being down (the limiter then lets requests through) are not modelled.
- The staged second-factor set-up, invite tokens and share sessions in Redis: single reads and writes.
- Diff: Python's equality is a parameter, sets are listed in a fixed order, distinct keys stay distinct after `str`, and dictionary order is kept, which JSONB would ignore.
- `record`, `snapshot` and the actor of an audit event.
- TextAcceptedExactly: underscores and non-ASCII digits in numerals, and exponents beyond the decimal library's limits, are not modelled.
- SerialiseRoundTrip: the same limits; contexts of the caller play no part, as in the source.
- CreateBankAccount: the tidying of a BIC and the length limits of label, BIC and bank name; ids are fresh.
- OneDefaultExactly: creates only; with promotions and deletions the condition is stated for every moment at once, not for one moment (`AlwaysOneDefaultExactly`).
- AlwaysOneDefaultExactly: a statement that waits for a row lock counts from its start, and its wait, which only rules out some orders, is not modelled; edits of an IBAN that overlap other requests are not modelled.
- Serialisable: the guard of an edit is one step, although its queries are several statements.
- LatestIsMaximal: rows of one document date are ranked in the order issued. The code ranks them by `allocated_at`, the start of the transaction, which can differ for overlapping transactions; only the number named in the warning depends on it.
- LatestWhere: of checks with one `checked_at` the last stored is taken; the database may return either.
- SpacedExactly: workers execute waiting checks one after another; two workers that read one streak at the same time are not modelled.
- Last-owner protection, login and two-factor handlers, settings tables: one branch or one lookup each.
