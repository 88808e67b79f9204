# Shift-swap roster: a verified model

This project models the core of a shift-swap desk for a controllers' shift roster. The roster
is a sheet: one row per controller, one column per header. Some columns are dates whose
cells hold shift codes (`D`, `N`, `DC`, `NC`, `DDM`, `NDM`, `R`, `X`, ...). A controller
asks to give away the shift on one date to a partner, who takes it on the same date.

The model covers:

- the classification of shift codes (night, day, working);
- the run counter and the staffing count;
- the four rules that judge a swap on a copy of the roster;
- the detection of date columns and their chronological order;
- the display labels of the date columns and the login names, both made unique with a
  numeric suffix;
- the swap desk itself. It holds the live roster (a two-dimensional array), the request
  list, the audit trail and the notifications. It models submission, supervisor approval,
  override and the marking of inexperienced controllers.

Modules, leaves first:

- `Wrappers`: `Option` and `Result`.
- `Text`: Python's `str.strip`, `str.split`, `str.upper`/`lower` and `str(n)`.
- `Shifts`: cells and shift codes.
- `Calendar`: dates, the swap horizon and date labels.
- `Rules`: the rule engine.
- `Naming`: the free-key loop shared by the label map and the user map.
- `Columns`: date-column detection, chronological order and the display map.
- `Users`: the name column and the usernames.
- `Workflow`: the swap desk.

The header date parser is a parameter (`HeaderParser = string -> Option<Date>`). Its
formats are not modelled. Each operation that reads dates from headers takes it as an
argument.

Behaviour that the code has and the rule names and messages would not suggest. The
model follows the code in each case:

- `count_consecutive` always counts the date itself, even when that cell is a rest day.
  So on a same-date swap the consecutive-days rule does not depend on the exchanged codes
  at all (`Rules.SameDateRunIgnoresExchangedCodes`). Only the date's own cell is counted
  whatever it holds: a rest day before or after the date still stops the scan.
- The shift-code score reads the first eight cells of a column, empty ones included. It
  does not read the first eight non-empty cells.
- A partner with no code on the date is only warned about. The submission is not refused.
- Approval and override add no audit entry. Override sends no notification.
- An overridden request keeps its reasons. So "reasons are empty exactly when not
  declined" fails after an override.
- No request ever becomes `SupervisorDeclined`, although override accepts that status.
- Auto-approval writes the stripped codes back. Approval and override exchange the raw
  cells.
- The staffing count reads names from the first column of the sheet, not from the name
  column.
- The requester is looked up by stripped text. The partner and the names stored in a
  request are looked up by exact equality.

## Model

| member | source | states |
|---|---|---|
| `Text.TrimLeftShape` | app_full_final.py:75 | lstrip keeps a suffix, drops only whitespace, and leaves no leading whitespace |
| `Text.TrimRightShape` | app_full_final.py:75 | rstrip keeps a prefix, drops only whitespace, and leaves no trailing whitespace |
| `Text.StripShape` | app_full_final.py:75-77 | a stripped header is empty exactly when it is all whitespace; otherwise it starts and ends with a non-space |
| `Text.StripIdempotent` | app_full_final.py:83 | stripping twice is stripping once |
| `Text.TrimLeftUpper` | app_full_final.py:113 | upper-casing commutes with lstrip |
| `Text.TrimRightUpper` | app_full_final.py:113 | upper-casing commutes with rstrip |
| `Text.StripUpperCommute` | app_full_final.py:113 | `upper().strip()` equals `strip().upper()` |
| `Text.WordLength` | app_full_final.py:107 | the leading word ends at the first whitespace or at the end |
| `Text.Words` | app_full_final.py:107 | `split()` yields non-empty words with no whitespace, and none exactly when the string is all whitespace |
| `Text.NatToString` | app_full_final.py:253 | the counter renders as a non-empty string of decimal digits |
| `Text.ParseNatRoundTrip` | app_full_final.py:253 | reading the rendered counter back gives the counter |
| `Text.NatToStringInjective` | app_full_final.py:253 | different counters render differently |
| `Shifts.CodeOf` | app_full_final.py:359-360 | the code the form reads: empty for a missing cell, otherwise the stripped text |
| `Shifts.CodeOfShape` | app_full_final.py:359-360 | the code read has no surrounding whitespace and classifies as the cell does |
| `Shifts.NormalizeIsUpperThenStrip` | app_full_final.py:112-116 | the normal form used here equals the source's `upper().strip()` |
| `Shifts.IsNight` | app_full_final.py:112-113 | `is_night`: the code upper-cased then stripped is N, NC or NDM; such a code is never a day code |
| `Shifts.IsDay` | app_full_final.py:115-116 | `is_day`: the code upper-cased then stripped is D, DC or DDM; such a code is never a night code |
| `Shifts.IsWorking` | app_full_final.py:119-123 | `work`: the cell holds a day or night code; a missing cell reads "nan" and never works |
| `Shifts.NightDayDisjoint` | app_full_final.py:112-116 | no code is both night and day; a working code is exactly one of them |
| `Shifts.ManagementCodesWorkButDoNotStaff` | app_full_final.py:132-140 | DDM/NDM count as working days but never towards the staffing limit |
| `Shifts.StripKeepsCode` | app_full_final.py:145-148 | stripping a code before writing it does not change its classification |
| `Calendar.MonthDiff` | app_full_final.py:173-174 | `month_diff`: months after January 2026; negative exactly before 2026, 0 exactly in January 2026, 1 exactly in February 2026 |
| `Calendar.InHorizonIff` | app_full_final.py:168-176 | a date is inside the horizon exactly when it falls in January or February 2026 |
| `Calendar.MonthAbbrevInjective` | app_full_final.py:94 | different months have different abbreviations |
| `Calendar.DayLabelIff` | app_full_final.py:91-95 | two dates get the same label exactly when day and month agree |
| `Rules.Grid` | app_full_final.py:144 | the roster array read as a table has its dimensions |
| `Rules.CopyTable` | app_full_final.py:144 | the deep copy holds exactly the roster's cells |
| `Rules.WorkLane` | app_full_final.py:119-123 | one working flag per date column |
| `Rules.LeftRunSpan` | app_full_final.py:124-126 | the left scan covers only working days and stops at a rest day or the first column |
| `Rules.RightRunSpan` | app_full_final.py:127-129 | the right scan covers only working days and stops at a rest day or the last column |
| `Rules.RunBounds` | app_full_final.py:118-130 | the count is between 1 and the number of date columns, and equals 1 exactly when neither neighbour works |
| `Rules.RunLengthIsMaximalRun` | app_full_final.py:118-130 | the count is the length of the maximal stretch around the date whose other days all work |
| `Rules.MaximalRunUnique` | app_full_final.py:118-130 | every maximal stretch around the date has the counted length |
| `Rules.RestDayInTheMiddleIsCounted` | app_full_final.py:130 | a rest day between two runs of three counts as a run of seven |
| `Rules.ScanLeft` | app_full_final.py:124-126 | the leftward loop counts exactly the working days immediately before the date |
| `Rules.ScanRight` | app_full_final.py:127-129 | the rightward loop counts exactly the working days immediately after the date |
| `Rules.CountConsecutive` | app_full_final.py:118-130 | the two scan loops return the run length, between 1 and the number of date columns |
| `Rules.StaffFlags` | app_full_final.py:134-139 | one staffing flag per row |
| `Rules.CountTrue` | app_full_final.py:133-140 | the tally never exceeds the number of flags |
| `Rules.CountTrueIsCardinality` | app_full_final.py:133-140 | the tally is the number of flagged rows |
| `Rules.CountTrueOverOne` | app_full_final.py:163-166 | the tally exceeds one exactly when two different rows are flagged |
| `Rules.TallyMeaning` | app_full_final.py:132-140 | the staffing count is at most the row count, and exceeds one exactly when two rows hold D/N/DC/NC under inexperienced names |
| `Rules.InexperiencedCount` | app_full_final.py:132-140 | the counting loop returns the staffing tally |
| `Rules.SwapCopy` | app_full_final.py:144-148 | the copy keeps the roster's shape |
| `Rules.SwapCopyCells` | app_full_final.py:144-148 | exactly the two swapped cells change, to the other side's stripped code; when both name one cell the requester's code stays |
| `Rules.Message` | app_full_final.py:152-176 | the text appended for each reason; the seven texts have seven different lengths |
| `Rules.NightThenDay` | app_full_final.py:151-154 | a night code at the date and a day code at the next date column; never at the last column, and both cells are working days with different contents |
| `Rules.OutsideHorizon` | app_full_final.py:168-176 | the month rule's condition: false exactly when both dates read as dates in January or February 2026 |
| `Rules.AppendInOrder` | app_full_final.py:150-178 | appending a later check's reason keeps the list in check order |
| `Rules.InWhen` | app_full_final.py:150-178 | a reason is in the list after a check exactly when it was before or the check fired |
| `Rules.ListedMember` | app_full_final.py:150-178 | a reason is listed exactly when its check fired |
| `Rules.Checked` | app_full_final.py:150-178 | the k-th check's reason has rank k |
| `Rules.FirstChecksOrdered` | app_full_final.py:150-178 | the reasons of the first k checks are in check order, ranked below k, and at most k |
| `Rules.ListedIsFirstChecks` | app_full_final.py:150-178 | the reason list is what the seven checks raise one after another |
| `Rules.ListedOrdered` | app_full_final.py:150-178 | reasons come in check order, each at most once, so at most seven |
| `Rules.InexperiencedReasonIff` | app_full_final.py:162-166 | each staffing reason fires exactly when two rows of the swapped copy are inexperienced staff on that date |
| `Rules.MonthReasonIff` | app_full_final.py:168-178 | the month reason fires exactly when a date is unresolved or outside January-February 2026 |
| `Rules.SameDateLanes` | app_full_final.py:144-148 | on a same-date swap each person's working days are their own except at the date, where they hold the other's |
| `Rules.SelfSwapLane` | app_full_final.py:144-148 | when requester and partner are one row, the copy only strips that row's code, so the rules see the person's own working days and every other cell unchanged |
| `Rules.LeftRunIgnoresFrom` | app_full_final.py:124-126 | the left scan never reads the date itself or later columns |
| `Rules.RightRunIgnoresUpTo` | app_full_final.py:127-129 | the right scan never reads the date itself or earlier columns |
| `Rules.SameDateRunIgnoresExchangedCodes` | app_full_final.py:156-160 | on a same-date swap the consecutive rule fires exactly when the person's own roster already has a long stretch there |
| `Rules.SameDateNightToDay` | app_full_final.py:150-154 | on a same-date swap the requester is flagged exactly when the partner's code is a night and the requester's next column is a day, and symmetrically |
| `Rules.ValidateSwap` | app_full_final.py:142-180 | the reasons are those the rules give on the swapped copy; the roster array is only read |
| `Rules.MessageInjective` | app_full_final.py:150-176 | two reasons have the same text exactly when they are the same reason |
| `Rules.ApplyRules` | app_full_final.py:150-180 | the seven checks append their reasons in order |
| `Naming.Variant` | app_full_final.py:252-253 | the j-th key tried: the bare base for 0, otherwise the base followed by a suffix (" (j)" for labels, "j" for usernames, line 266) |
| `Naming.VariantInjective` | app_full_final.py:252-253 | different counters give different keys |
| `Naming.VariantsInjective` | app_full_final.py:265-266 | the key sequence tried for one base never repeats |
| `Naming.FreshKey` | app_full_final.py:250-253 | the loop returns the first untaken key, and every key tried before it is taken |
| `Naming.FreeVariant` | app_full_final.py:250-253 | the first free variant of a base, with every lower-numbered variant taken |
| `Naming.TakenBelowGrows` | app_full_final.py:254 | adding an entry keeps every taken variant taken |
| `Naming.FirstFreeUnique` | app_full_final.py:250-253 | a base has one first free variant among the keys taken so far |
| `Naming.PrefixesAgree` | app_full_final.py:246-254 | two walks that each pick the first free variant in turn choose the same keys |
| `Naming.NumberedUnique` | app_full_final.py:246-254 | two maps numbered by the same first-come keys are equal |
| `Naming.FirstComeUnique` | app_full_final.py:246-254 | the list walked fixes the map: each entry's key (bare or numbered) is decided by the entries before it |
| `Naming.StepKeepsFirstFree` | app_full_final.py:250-254 | entering the next entry under its first free variant keeps every earlier choice first-free |
| `Naming.NumberedStep` | app_full_final.py:250-254 | one pass of the loop extends the first-come numbering by one entry |
| `Naming.NumberedBases` | app_full_final.py:246-254 | after the walk every base is a key, and the first entry keeps its bare base |
| `Naming.NumberedValues` | app_full_final.py:254 | every value in the map comes from the list walked |
| `Naming.Register` | app_full_final.py:246-254 | one key per entry; every base is a key; the first entry keeps its bare base; each entry in walking order is under the first variant of its base not taken by earlier entries |
| `Columns.ShiftCodeScore` | app_full_final.py:83-84 | the score counts at most the first eight rows |
| `Columns.Qualifies` | app_full_final.py:74-86 | a qualifying header is not blank, and when it does not read as a date two of the column's first eight cells hold shift codes |
| `Columns.HeadFlags` | app_full_final.py:83 | at most eight cells are scored |
| `Columns.RectangularHasColumn` | app_full_final.py:83 | every row of the sheet has every column |
| `Columns.DetectDateColumns` | app_full_final.py:71-89 | the detected columns are in sheet order; they are the qualifying ones, or every column after the fourth when none qualifies |
| `Columns.ScoreMeaning` | app_full_final.py:83-86 | the score is at most eight, and reaches two exactly when two of the first eight cells hold a shift code |
| `Columns.ScoreIgnoresLaterRows` | app_full_final.py:83 | rows below the eighth never change the score |
| `Columns.LabelFor` | app_full_final.py:91-95 | `label_for`: a header read as a date gets a label starting with the day's digits; any other header gets its stripped text |
| `Columns.LabelsCollide` | app_full_final.py:91-95 | two date headers get the same label exactly when they share day and month |
| `Columns.KeyLeTotal` | app_full_final.py:244 | any two sort keys are comparable |
| `Columns.KeyLeTransitive` | app_full_final.py:244 | the sort key order is transitive |
| `Columns.InsertKeeps` | app_full_final.py:244 | inserting adds exactly one occurrence of the column |
| `Columns.SortedCons` | app_full_final.py:244 | a column no later than every column of a sorted list can go in front |
| `Columns.SortedTail` | app_full_final.py:244 | the tail of a sorted list is sorted and no earlier than its head |
| `Columns.InsertSorted` | app_full_final.py:244 | inserting into a sorted list keeps it sorted |
| `Columns.Insert` | app_full_final.py:244 | inserting a column into the sorted list adds one element |
| `Columns.ByDate` | app_full_final.py:244 | `sorted(date_cols, key=date or date.max)` as an insertion sort; as long as its input (ByDateSorts gives order and permutation) |
| `Columns.ByDateSorts` | app_full_final.py:244 | the sorted columns are in chronological order, unresolved ones last, and are a permutation of the detected ones |
| `Columns.ByDateMembers` | app_full_final.py:244 | sorting neither adds nor drops a column, so detection results survive it |
| `Columns.Labels` | app_full_final.py:249 | one label per date column |
| `Columns.IncreasingDistinct` | app_full_final.py:71-89 | columns detected in sheet order are all different |
| `Columns.PermutationDistinct` | app_full_final.py:244 | reordering different columns keeps them different, so the sorted columns repeat none |
| `Columns.BuildDisplayMap` | app_full_final.py:246-254 | one key per column, values are date columns, the earliest column keeps its bare label, and in chronological order each column is under the first of its label, "label (1)", "label (2)", ... left free by earlier columns |
| `Users.NameColumn` | app_full_final.py:260 | "Names" when it is a header (its first occurrence); else the first header reading "name..." after strip and lower; else the first column, and then no header reads "name..." |
| `Users.FirstEqual` | app_full_final.py:260 | the first occurrence of the header |
| `Users.FirstNamePrefix` | app_full_final.py:260 | the first header starting with "name" after strip and lower, else column 0 |
| `Users.MakeUsername` | app_full_final.py:103-110 | empty exactly for a blank name; never holds whitespace or an upper-case letter |
| `Users.UnspacedIsOneWord` | app_full_final.py:104-108 | a string without whitespace strips to itself and is one word |
| `Users.WordLengthOfUnspaced` | app_full_final.py:107 | a string without whitespace is one leading word |
| `Users.UsernameIsStable` | app_full_final.py:103-110 | a username taken as a name yields itself |
| `Users.UsernameIgnoresPadding` | app_full_final.py:104 | surrounding whitespace does not change the username |
| `Users.Column` | app_full_final.py:263 | the name column has one cell per row |
| `Users.Usernames` | app_full_final.py:263 | one username per row |
| `Users.BuildUsers` | app_full_final.py:261-267 | one key per row; every username is a key; the first row keeps its bare username; in row order each name is under the first of its username, username1, username2, ... left free by earlier rows |
| `Workflow.AutoCode` | app_full_final.py:361 | the code upper-cased is one of the automatic codes, so it has one to three characters |
| `Workflow.AutoCodeIsPresent` | app_full_final.py:359-361 | a missing cell never has an automatic code, so an auto-approved cell holds its stripped text |
| `Workflow.Decide` | app_full_final.py:362-373 | declined exactly when there are reasons; pending exactly when there are none and a code is not automatic; approved otherwise |
| `Workflow.FindUser` | app_full_final.py:285 | the first row whose stripped name is the user's stripped name, or none |
| `Workflow.FindName` | app_full_final.py:338 | the first row whose name cell equals the name; a missing name matches nothing |
| `Workflow.IndexOf` | app_full_final.py:332 | the first position of the column in the chronological order |
| `Workflow.Admit` | app_full_final.py:322-357 | refused for an unknown date, a requester or partner without a row, or a swap with oneself; otherwise the two rows |
| `Workflow.Exchanged` | app_full_final.py:397 | the exchanged roster keeps its shape |
| `Workflow.ExchangedCells` | app_full_final.py:397 | the two cells trade contents and nothing else changes |
| `Workflow.ExchangeInvolution` | app_full_final.py:397 | exchanging twice restores the roster |
| `Workflow.AutoApprovalIsExchange` | app_full_final.py:371 | when both cells already hold stripped codes, the auto-approval write is the exchange |
| `Workflow.NamesOf` | app_full_final.py:338 | one name cell per row |
| `Workflow.GridIs` | app_full_final.py:371 | an array that agrees cell by cell with a table reads as that table |
| `Workflow.PlanDates` | app_full_final.py:208-254 | the date columns in chronological order, as detected and all different, and their first-come display map, in which the earliest column keeps its bare label |
| `Workflow.Locate` | app_full_final.py:395-396 | the first rows whose name cells equal the requester's and the partner's, or which of them is missing |
| `Workflow.NameTexts` | app_full_final.py:430 | the picker offers exactly the name texts of the rows |
| `Workflow.LedgerGrows` | app_full_final.py:374-376 | a new request with the next id and its audit entry keep requests and audit aligned |
| `Workflow.LedgerRestatus` | app_full_final.py:398 | a status change that fits the reasons keeps the ledger |
| `Workflow.SwapDesk.Audited` | app_full_final.py:376 | an audit entry shows the request it was made for, as it is now |
| `Workflow.SwapDesk.Load` | app_full_final.py:204-254 | the loaded desk: detected date columns in chronological order and all different, their first-come display map with the earliest column under its bare label, no requests |
| `Workflow.SwapDesk.Exchange` | app_full_final.py:397 | the tuple assignment exchanges the two cells of the live roster |
| `Workflow.SwapDesk.WriteSwap` | app_full_final.py:371 | the auto-approval write leaves the roster equal to the copy the rules judged |
| `Workflow.SwapDesk.ApproveAutomatically` | app_full_final.py:369-371 | with both codes automatic, both cells are present and the write leaves the roster equal to the judged copy |
| `Workflow.SwapDesk.Judgement` | app_full_final.py:358-373 | the reasons for the swap and the status they decide; the roster is only read |
| `Workflow.SwapDesk.Record` | app_full_final.py:374-378 | the request and its audit entry are appended with the next id; only an auto-approval notifies |
| `Workflow.SwapDesk.File` | app_full_final.py:358-378 | one request and one audit entry added with the next id; only auto-approval notifies and changes the roster, into the judged copy |
| `Workflow.SwapDesk.Submit` | app_full_final.py:322-378 | a refusal changes nothing; otherwise the new request records the judged status and reasons, and only an auto-approval changes the roster |
| `Workflow.SwapDesk.Approve` | app_full_final.py:385-400 | only a pending request can be approved; its two cells are exchanged, it becomes supervisor-approved and both are notified; a refusal changes nothing |
| `Workflow.SwapDesk.Override` | app_full_final.py:408-421 | only a declined request can be overridden; its two cells are exchanged and it becomes overridden-approved; a refusal changes nothing |
| `Workflow.SwapDesk.MarkInexperienced` | app_full_final.py:429-432 | the inexperienced set becomes the selection of name texts |

## Left out

- The user interface, the dashboard, the tabs, the login form and the history view are
  presentation only. The requester is passed in as the name cell the login stored.
- Fetching the sheet over the network, including the retry with the second row as
  header, is not modelled. So is the Excel export. `Workflow.SwapDesk.Load` takes the
  sheet and its headers as given.
- The header date parser's formats are not modelled: it is a parameter. This covers
  day-first text, `year:day/month` headers and spreadsheet serials.
- Timestamps of audit entries and message texts of notifications are left out, because
  the clock is outside the model. The rule messages are kept as `Rules.Message`. A request
  records its reasons as `Reason` values; `Rules.MessageInjective` shows no text is lost.
- `str.upper`/`str.lower` are modelled on ASCII letters only. `%b` is the C-locale month
  abbreviation.
- Columns are identified by position. The source identifies them by header and assumes
  headers are unique.
- The source builds the display map twice, once at load time and again before use. Both
  loops walk the same chronologically sorted columns, so they build the same map.
  `Workflow.SwapDesk.Load` builds it once.
- Dictionary insertion order is not modelled. The maps are Dafny maps.
- The lookups use no silent row-0 fallback. The source falls back to row 0 when the
  logged-in user's name has no row. It raises an error when a partner or a recorded name
  has no row. The model refuses with `RequesterNotFound` or `PartnerNotFound` and changes
  nothing. A date label missing from the map raises an error in the source; here it is
  `UnknownDate`.
- `Columns.ByDateSorts`: states order and permutation but not stability. Python's sort is
  stable, and the insertion model is too, but no lemma states it. A header that parses to
  9999-12-31 ties with unresolved headers in the source but sorts before them here.
- `Users.BuildUsers`: the source runs the loop only while the user map is still empty.
  The model always builds it from scratch.
- `Workflow.SwapDesk.Approve`, `Workflow.SwapDesk.Override`: the list of pending or
  declined requests shown on screen is not modelled. The request is chosen by id.
