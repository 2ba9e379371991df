# A verified model of the release and measurement scripts

This project models the scripts that re-anchor documentation citations, keep the release pin
ledger, stamp the web board, and compute the figures decisions are taken on. Each script's
loops are Dafny methods proved against specification functions; what the scripts promise is
then proved about those functions, over all inputs, all runs and all interruptions. Where a
promise does not hold of the code, the exact condition under which it does is proved instead.

Check it with `dafny verify dfyconfig.toml`.

## The files

| Part | Files |
|---|---|
| Shared: Python text primitives, decimal numbers, sorting, counting | `PyText`, `Decimal`, `Order`, `Counting` |
| Citations, and what a plan makes of each row | `Citations`, `PlanAccounts` |
| Citation re-anchoring | `Surfaces`, `Reanchor`, `ApplyOutcome`, `FileBytes` |
| Citation reconciling | `Reconcile`, `ReconcileOutcome`, `ReconcileRuns`, `SharedPrefixes` |
| Compaction replay and attempt attribution | `Replay`, `Attempts` |
| Navigation-value instrument | `Corpora`, `Windows`, `WindowLaws`, `Argv`, `Navigation`, `NavigationLaws` |
| Content digests, pin ledger, commit gate | `Digest`, `Manifest`, `ManifestLaws`, `Ledger`, `LedgerLaws`, `Gate` |
| Board freshness | `Freshness`, `FreshnessLaws` |
| Incidents, review rounds | `Incidents`, `IncidentLaws`, `Rounds`, `Findings`, `FindingsLaws` |
| Archive and reversal | `Sql`, `Archive`, `ArchiveLaws` |

## How to read it

*Texts as pieces.* A citation holds no delimiter of its surface (a backtick in the docs, a
double quote in the citation table) and no newline. So a text is read as its pieces between
delimiters, and counting or replacing a quoted citation in the text is proved to be counting or
replacing a piece (`PyText.CountIsPieceCount`, `PyText.ReplaceIsPieceReplace`). The batches are
written over a `Surface`, a pair of a rewrite and a reading of the text; the two surfaces the
scripts use are proved to be such pairs.

*Methods, functions, laws.* A method is proved to compute a specification function. The `...Laws`,
`...Outcome` and `PlanAccounts` modules then say what that function answers, over its inputs and
without its own notions: which rows are refused and why, which events cut a window, when a verdict
is which, what each column sums up.

*What stands outside.* Hashes, regular expressions, JSON and the checker of the documentation's
citations are function-valued parameters (what is read of a citation itself is not, see below).
A hash is only ever assumed to be collision-free on the finitely many inputs at hand.

*Files as texts.* The citation scripts read files in text mode, so their laws are about decoded
texts with newline endings; `FileBytes` says what that means for the bytes.

## Where the code and its documentation disagree

* A batch of re-anchored citations is simultaneous substitution in a text only if that text
  quotes no old citation in two neighbouring pieces: `str.count` does not count overlapping
  matches, so such a pair passes for one occurrence and is half rewritten
  (`Reanchor.ApplyIsSimultaneous`, `Reanchor.TwinIsHalfRewritten`).
* A file with CRLF endings loses them when one of its citations is re-anchored: the script reads
  text and writes it back byte by byte (`FileBytes.ApplyKeepsBytesIff`).
* A second reconcile run changes nothing, but it may refuse: a row can move onto a citation that
  already stands elsewhere in its doc or in the table, and then the next run refuses that row.
  `ReconcileRuns.ReconcileSettles` gives the refused rows exactly, `ReconcileRuns.SecondRunRefuses`
  shows such files. A row right after a copy of itself is left behind in the table
  (`ReconcileRuns.TwinStaysBehind`).
* A reconcile run that resolves every row may still lose one: rows with the same stable prefix can
  resolve on each other's citation. That cannot happen, whatever the files hold, exactly when rows
  of one prefix are to read the same (`SharedPrefixes.SurviveIff`); over tables that list the rows
  it takes this only of rows that cite from one doc (`SharedPrefixes.ListedSurviveIff`, and
  `SharedPrefixes.SharedPrefixLosesARow` for such a run).
* A range moved below line 0 no longer reads as a range (`Reconcile.PlanIsGood`,
  `Reconcile.DescendingRangeIsLost`).
* The replay's domination "by construction" needs the reset size to be at most one more than the
  window; `main` does not validate the fraction (`Replay.DominatedIff`).
* The commit gate reads the manifest through a text-mode pipe, which turns carriage returns
  into newlines; the checker was written to avoid exactly that. A manifest with a carriage
  return inside a path is read differently by the two (`Gate.GateReadsManifest`, and
  `Gate.InnerCRIsMisread` for one such path).
* A path that ends in a carriage return or holds a newline is tracked and written, and not read
  back (`Manifest.ParseUndoesRender`, `Manifest.TrailingCRIsLost`); the strict check then fails
  right after a successful write (`Ledger.WrittenNotRead`).
* A missing board whose stamp still matches is not safe to rebuild: a half-written bundle reads
  as current (`Freshness.SafeIff`). Nor is a stale one when the edit that made it stale is undone
  after the rebuild was interrupted: the old stamp matches again (`Freshness.RevertLies`; which
  courses of events exclude it, `Freshness.RunIsGenuineIff`). And the stamp is taken after the
  build, so it vouches for sources the build never saw if they changed meanwhile
  (`Freshness.GenuineIffInterchangeable`).
* Demotions are attributed to the round whose review follows them, except that a review with
  the same timestamp is sorted first (`Rounds.TieRule`, `Rounds.TiedDemotionMoves`).
* The reversal statement restores an archived row unless the row was superseded or its content
  held the suffix before; restoring a row in the product leaves the suffix, so archiving,
  restoring, archiving and reversing loses the audit trail (`Archive.TrailLost`).

## Model

| member | source | states |
|---|---|---|
| PyText.CountIsPieceCount | scripts/reanchor_citations.py:178-185 | `str.count` of a quoted citation is the count of the pieces that read it, where two neighbours count once |
| PyText.ReplaceIsPieceReplace | scripts/reanchor_citations.py:178-185 | replacing the first quoted citation replaces the first piece that reads it and leaves every other piece |
| PyText.SplitJoin | scripts/check_release_manifest.py:144 | splitting undoes joining for delimiter-free pieces |
| Citations.NewSpecMoves | scripts/reanchor_citations.py:83-91 | a re-anchored line part starts at the found line, keeps its span and can be re-anchored again |
| Citations.NewSymbolSpecReads | scripts/reanchor_citations.py:94-103 | a re-anchored symbol citation keeps its symbol and span, cites the found line, and never reads as a bare line number |
| Citations.NewRawReads | scripts/reanchor_citations.py:83-103 | the whole rewritten citation keeps path, symbol and span, cites the found line and stays free of delimiters |
| Citations.Plan | scripts/reanchor_citations.py:126-151 | the planning loop finds, row by row, exactly the drifts and the rows no rewrite can fix |
| Citations.RowDriftSound | scripts/reanchor_citations.py:106-151 | every planned rewrite comes from its row, changes the text, and stays clean |
| Citations.PlanSettles | scripts/reanchor_citations.py:126-151 | planning over the corrected rows finds no drift and the same unfixable rows |
| PlanAccounts.DriftsExactly | scripts/reanchor_citations.py:106-151 | a drift is planned for exactly the rows that cite a line their token is not on |
| PlanAccounts.LineOnlyExactly | scripts/reanchor_citations.py:126-151 | and exactly the line-only rows are set aside as unfixable |
| PlanAccounts.ReanchoredCites | scripts/reanchor_citations.py:83-151 | after re-anchoring every row that cites a line and is found in the source cites the line it is found on |
| Surfaces.QuotedRewrite | scripts/reanchor_citations.py:178-185 | a text-level rewrite is the rewrite of one piece |
| Surfaces.LiteralKept | scripts/reanchor_citations.py:188-208 | rewriting inside the table literal leaves the literal's bounds and everything outside it alone |
| Surfaces.TableRewrite | scripts/reanchor_citations.py:188-208 | a successful table rewrite needs exactly one quoted copy, changes that piece of the literal and nothing around it |
| Reanchor.ApplyAll | scripts/reanchor_citations.py:211-254 | the loop returns texts only when nothing is unresolved, and none of them otherwise |
| ApplyOutcome.ScriptSurfacesComplete | scripts/reanchor_citations.py:178-254 | a doc, and a file with the table literal, is rewritten if and only if its count of the old citation is 1, whatever the new one is |
| ApplyOutcome.ApplyRefuses | scripts/reanchor_citations.py:178-254 | a batch in which no drift repeats another or leads on to one refuses exactly the drifts whose old citation is not quoted once in their doc and once in the table, in order and with the text at fault |
| ApplyOutcome.ApplyResolvesIff | scripts/reanchor_citations.py:178-254 | over files whose table lists the drifted rows, a batch goes through if and only if every old citation is quoted once in its doc and once in the table literal, and no drift repeats another or leads on to one |
| Reanchor.ScriptSurfacesFaithful | scripts/reanchor_citations.py:178-208 | the two rewrites of the script change exactly the piece that read the old citation, so the batch laws apply to them |
| Reanchor.NeverWritten | scripts/reanchor_citations.py:211-254 | a drift that resolves after others finds an old text that no earlier drift wrote: otherwise the table would show it twice |
| Reanchor.BatchIsDone | scripts/reanchor_citations.py:211-254 | after any resolved batch, table and docs are the first-occurrence substitution of the batch, text by text |
| Reanchor.ApplyIsSimultaneous | scripts/reanchor_citations.py:178-254 | a resolved batch is one simultaneous substitution of the table and of every cited doc, in each of them exactly when it quotes no old citation twice in a row; the rest of the table's decoded text is untouched and no drift chains onto another |
| Reanchor.ApplySettles | scripts/reanchor_citations.py:126-254 | a new plan over the re-anchored rows finds no drift, and after a successful apply those are the rows the table lists exactly when no drifted row follows right on a copy of its own citation |
| Reanchor.TwinIsHalfRewritten | scripts/reanchor_citations.py:178-185 | two neighbouring copies pass the uniqueness test and only one is rewritten |
| FileBytes.ApplyKeepsBytesIff | scripts/reanchor_citations.py:211-254 | the files a resolved apply writes differ from those on disk in the re-anchored citations only, byte for byte, if and only if they held no carriage return |
| Reconcile.ReconcilePlan | scripts/reanchor_citations.py:258-292 | the plan lists exactly the rows that can be anchored and refuses the others |
| PlanAccounts.RefusesExactly | scripts/reanchor_citations.py:258-292 | the plan refuses exactly the line-only rows, those whose path is not one file and may not be absent, and those whose symbol or token is not in it, each for that reason |
| PlanAccounts.AnchorsExactly | scripts/reanchor_citations.py:258-292 | it anchors exactly the rows that cite a line and are found, each on the line it is found on |
| PlanAccounts.CleanPlanIff | scripts/reanchor_citations.py:258-292 | nothing is refused if and only if no row is line-only and every row that cites a line is found on one or may be absent |
| PlanAccounts.PlanAddsUp | scripts/reanchor_citations.py:258-292 | every row is anchored once, refused once or passed over |
| PlanAccounts.SettledCites | scripts/reanchor_citations.py:258-292 | once settled, every row that cites a line and is found cites the line it is found on |
| Reconcile.ReconcileAll | scripts/reanchor_citations.py:329-378 | the run is all or nothing, and counts the texts it changed |
| ReconcileOutcome.ReconcileReports | scripts/reanchor_citations.py:295-378 | a run over distinct prefixes refuses exactly the rows not found in their doc or in the table, with the text at fault, counts exactly those that change either, and marks the files they change |
| ReconcileOutcome.ReconcileResolvesIff | scripts/reanchor_citations.py:295-378 | it goes through if and only if each text quotes the row's citation once, or else one citation of its prefix, which its right neighbour may repeat |
| ReconcileOutcome.WritesWhatChanged | scripts/reanchor_citations.py:329-378 | the texts a resolved run writes are exactly those that read differently afterwards |
| Reconcile.ReconcileInPieces | scripts/reanchor_citations.py:295-305 | reconciling a text is reconciling its pieces, fallback match included |
| Reconcile.TableReconcile | scripts/reanchor_citations.py:308-326 | reconciling the table acts on the literal's pieces only |
| Reconcile.ScriptSurfacesFaithful | scripts/reanchor_citations.py:295-326 | both surfaces of the script obey the batch laws |
| Reconcile.PlanIsGood | scripts/reanchor_citations.py:258-292 | a planned row meets what a batch asks exactly when its citation is clean, its lines are digits or a range, and the moved range does not end below line 0 |
| Reconcile.ReconcileAnchors | scripts/reanchor_citations.py:329-378 | a resolved run over distinct prefixes anchors every row in the table and in its own doc and moves no citation of another prefix |
| Reconcile.RunUnmarked | scripts/reanchor_citations.py:329-378 | a text the run does not mark as changed, and so does not write, reads as it did |
| Reconcile.AnchoredCarries | scripts/reanchor_citations.py:329-378 | where a row is anchored, its source-derived citation stands |
| Reconcile.DescendingRangeIsLost | scripts/reanchor_citations.py:258-305 | lines 9-2 re-anchored to line 3 become 3--4, which the fallback pattern no longer matches |
| Reconcile.AnchoredOnce | scripts/reanchor_citations.py:295-305 | a row that resolves leaves its new citation in the text, and leaves it once exactly when it did not move onto a copy standing elsewhere |
| Reconcile.ReconcileConverges | scripts/reanchor_citations.py:329-378 | running the batch again with each old citation replaced by its new one, over the files the run wrote, changes nothing and refuses exactly the rows that moved onto a citation already standing elsewhere, in order and on the surface where it stood |
| ReconcileRuns.RowSettles | scripts/reanchor_citations.py:258-292 | planning an anchored row again asks for exactly what it already reads |
| ReconcileRuns.PlanOfSettled | scripts/reanchor_citations.py:258-292 | a plan over the settled rows is the settled plan and refuses the same rows |
| ReconcileRuns.BatchIsGood | scripts/reanchor_citations.py:258-292 | the plan of admissible rows with distinct prefixes is a batch the run laws apply to |
| ReconcileRuns.TableAfter | scripts/reanchor_citations.py:329-378 | after a resolved run every row of the table, anchored or not, reads its settled citation at its own place, exactly when none that moved follows right on a copy of its own |
| ReconcileRuns.ReconcileSettles | scripts/reanchor_citations.py:258-378 | from plan to second run: the table on disk lists the settled rows exactly when none that moved follows right on a copy of its own; planning from the settled rows refuses the same rows, and running again changes nothing and refuses exactly the rows that moved onto a citation already standing elsewhere |
| ReconcileRuns.SecondRunRefuses | scripts/reanchor_citations.py:295-378 | files on which the run resolves its one row and the run after it refuses that row |
| ReconcileRuns.TwinStaysBehind | scripts/reanchor_citations.py:308-326 | of two neighbouring copies in the table literal the run rewrites the first and leaves the second |
| SharedPrefixes.SurviveIff | scripts/reanchor_citations.py:295-378 | whatever the files hold, a run that resolves every row leaves every new citation in its doc and in the table, if and only if rows of one stable prefix have the same new citation |
| SharedPrefixes.ListedSurviveIff | scripts/reanchor_citations.py:295-378 | the same over every table that lists the rows, if and only if rows of one prefix in one doc have the same new citation, or two rows of the batch can never both resolve in such a table |
| SharedPrefixes.ListedRun | scripts/reanchor_citations.py:308-378 | a run that resolves every row the table lists shows each new citation at its row or right before it, and no row's old or new citation is a later row's old one |
| SharedPrefixes.SharedPrefixLosesARow | scripts/reanchor_citations.py:295-378 | files whose table lists two rows of one prefix and whose doc quotes the second only: the run resolves both, and the first one's new citation is not in its doc |
| Replay.ReplayTurns | scripts/measure_cache_burn.py:146-180 | the loop's series and compaction count are those of the resetting accumulator |
| Replay.LossIsNothing | scripts/measure_cache_burn.py:173-174 | a recorded negative growth, wherever it stands, counts as zero |
| Replay.GrowthAddsUp | scripts/measure_cache_burn.py:146-180 | without a window the replay of non-negative growth ends at its plain sum, with no compaction |
| Replay.FloorIs | scripts/measure_cache_burn.py:170 | the reset size is the named part of the window rounded towards zero: none without a window or at fraction 0, the whole window at fraction 1 |
| Replay.FloorMonotone | scripts/measure_cache_burn.py:170 | a larger window or fraction never resets to less |
| Replay.Conserved | scripts/measure_cache_burn.py:146-180 | total growth is the final size plus everything discarded, and each compaction discards at least window + 1 - floor |
| Replay.Bounded | scripts/measure_cache_burn.py:146-180 | compactions times (window + 1 - floor) is at most the total growth, and the size never passes the window |
| Replay.DominatedIff | scripts/measure_cache_burn.py:146-169 | the windowed size never exceeds the uncompacted one on any recording if and only if the reset size is at most one more than the window |
| Replay.AfterNeverExceedsBefore | scripts/measure_cache_burn.py:209-225 | for a fraction between 0 and 1 the burn after the fix is at most the burn before it, turn by turn and in total |
| Replay.Coupled | scripts/measure_cache_burn.py:170-180 | two runs over one recording: the one with more headroom never gets ahead in compactions, and has at least as much room while level |
| Replay.NeverMoreOftenIff | scripts/measure_cache_burn.py:55-64 | one setting compacts no more often than another on every recording if and only if its window and its headroom are no smaller |
| Attempts.AttemptAt | scripts/measure_cache_burn.py:127-134 | the boundary walk finds the last boundary not after the row, and none only for a row before them all |
| Attempts.BoundaryTable | scripts/measure_cache_burn.py:99-107 | each owner's boundaries are its own rows, in order |
| Attempts.UsageByAttempt | scripts/measure_cache_burn.py:126-143 | every attributable row is listed once, in order, under its own attempt, and nothing else is |
| Attempts.BelongsOnce | scripts/measure_cache_burn.py:126-143 | a row belongs to at most one attempt, and to none exactly when no boundary of its owner precedes it |
| Attempts.FiledUnder | scripts/measure_cache_burn.py:91-143 | a usage row counts, with its own figure and after those before it, for the attempt named by the last numbered start of its owner that is not after it |
| Windows.ReadEvents | scripts/navigation_value.py:738-813 | for every interleaving the corpus lists, owner after owner, that owner's events split at every cut, empty windows dropped |
| Windows.NoCallLost | scripts/navigation_value.py:738-813 | an owner's windows, read one after the other, are exactly the calls it made in order |
| Windows.InterleavingIrrelevant | scripts/navigation_value.py:738-813 | events of different owners may trade places without changing anyone's windows |
| WindowLaws.CutDivides | scripts/navigation_value.py:762-773 | an attempt start or a compaction, from whatever source, divides its owner's windows: those before it and those after it are cut up apart |
| WindowLaws.OthersIgnored | scripts/navigation_value.py:738-813 | an event that neither cuts nor is a call of the owner's leaves its windows as they were |
| WindowLaws.UncutIsOneWindow | scripts/navigation_value.py:738-813 | without a cut, all the coder's tool uses with a tool name are one window, in order |
| WindowLaws.CompactionParts | scripts/navigation_value.py:762-773 | two calls with a compaction between them stand in two windows |
| WindowLaws.SizesAreLast | scripts/navigation_value.py:775-790 | the size kept for a use id is that of the coder's last sized result for it, and none is kept without one |
| WindowLaws.MalformedAreCounted | scripts/navigation_value.py:758-768 | each malformed event is counted once |
| Argv.PatternFromArgv | scripts/navigation_value.py:505-572 | the scan loop computes the scanner's answer, and its index advances on every token |
| Argv.ScannerReadsCommand | scripts/navigation_value.py:505-572 | on every printed command line the scanner returns the first explicit pattern, else none if patterns come from a file, else the first operand |
| Argv.EveryArgvIsPrinted | scripts/navigation_value.py:505-572 | every argument vector is the print of some structured command line |
| Argv.ScannerIsTotal | scripts/navigation_value.py:505-572 | so on every argument vector the answer is what a command line printing to it searches for |
| Navigation.Classify | scripts/navigation_value.py:1018-1061 | the classifying loops compute the per-window reads |
| NavigationLaws.WindowReads | scripts/navigation_value.py:1018-1061 | a window has one read per read call, in order; its size, subagent mark, lookup, whole-file, repeat and turns after are those the calls before it, its result and the threshold give |
| Navigation.Members | scripts/navigation_value.py:1094-1112 | a read is put into exactly the classes it belongs to, each once |
| Navigation.Aggregate | scripts/navigation_value.py:1080-1153 | every class and every file extension holds the totals of its members, in reads, characters and weight, and the net figures those of the navigable reads |
| NavigationLaws.CorpusReads | scripts/navigation_value.py:1018-1061 | the reads of a corpus are those of its windows, one window after the other |
| NavigationLaws.ClassesSum | scripts/navigation_value.py:1080-1138 | every class, and every extension, counts and sums up in characters and in characters times calls remaining exactly the reads it is named for |
| NavigationLaws.AddressableSums | scripts/navigation_value.py:1080-1138 | the net figures are the sums of what a symbol answer would save of each navigable read |
| Navigation.InclusionExclusion | scripts/navigation_value.py:1094-1138 | navigable plus both is symbol lookup plus whole file, in every unit |
| Navigation.ExtensionsPartition | scripts/navigation_value.py:1133-1138 | the buckets of the extensions add up to the bucket of all reads |
| Navigation.SharesFall | scripts/navigation_value.py:1018-1153 | raising the large-read threshold raises neither share and leaves floors and denominators unchanged |
| Navigation.VerdictMonotone | scripts/navigation_value.py:1160-1225 | a HALT survives raising the threshold and a PROCEED survives lowering it, for every corpus |
| NavigationLaws.DecisionIs | scripts/navigation_value.py:1140-1225 | PROCEED if and only if the floors are met and the navigable reads save at least the gate's part of all reads in both units; HALT if and only if the floors are met and they do so in neither |
| NavigationLaws.ProbesAre | scripts/navigation_value.py:1405-1440 | the probes are the threshold halved and doubled, cut to whole numbers |
| NavigationLaws.FragileWhen | scripts/navigation_value.py:1411-1458 | a run's own decision is fragile exactly when halving overturns a HALT, doubling a PROCEED, or either settles what was left open |
| Navigation.Fragile | scripts/navigation_value.py:1411-1458 | the robustness loop reports fragility exactly when some probe decides differently |
| Navigation.OneProbeSpeaks | scripts/navigation_value.py:1438-1458 | only the halved probe can overturn a HALT and only the doubled one a PROCEED; below the floors every threshold is inconclusive |
| Navigation.WeightedIsResent | scripts/navigation_value.py:1022-1060 | characters times calls remaining is the sum over every call of the earlier unshared reads of its window |
| Navigation.MeasuredIsResent | scripts/navigation_value.py:1018-1138 | the weighted mass measured over all windows is what they re-send |
| Navigation.SplitNeverRaises | scripts/navigation_value.py:1022-1138 | a boundary put inside a window of a corpus never raises the measured weighted mass, and lowers it by exactly what the calls after it would have re-sent |
| Digest.ReadBoard | scripts/verify_artefact.py:247-287 | the digested files are exactly the readable regular ones; the links are reported with their number and each unreadable file on its own, so a problem is reported exactly when something was skipped |
| Digest.SkippedAre | scripts/verify_artefact.py:247-287 | the reported link count is the number of links in the listing, and each unreadable regular file is reported exactly once |
| Digest.OrderIrrelevant | scripts/verify_artefact.py:289-319 | the listing does not depend on the enumeration order |
| Digest.ListingAscends | scripts/verify_artefact.py:289-319 | the hashed text is the line of every file, each once, in ascending order of bytes, each ended by a newline |
| Digest.DigestIsInjective | scripts/verify_artefact.py:289-319 | two file maps with newline-free paths have equal digests if and only if they map the same paths to the same bytes |
| Digest.BoardsAgreeIff | scripts/verify_artefact.py:247-319 | two boards read without a problem have the same digest if and only if the same regular files stand under both |
| Digest.LineReads | hatch_build.py:79-99 | a digest line is read back in one way |
| Digest.NewlineListsAsTwo | hatch_build.py:79-99 | a path with a newline can list as two files and collide |
| Manifest.ParseManifest | scripts/check_release_manifest.py:129-151 | the parsing loop keeps every row, or stops at the first unreadable or repeated one |
| Manifest.ErrorSticks | scripts/check_release_manifest.py:129-151 | an error in a prefix of the lines is the error of the whole |
| ManifestLaws.ManifestReads | scripts/check_release_manifest.py:129-151 | a text is read if and only if every line is blank, a comment, or 64 hexadecimal digits, two spaces and a path, and no path comes twice; its rows are those it shows; an error names the first line, counted from 1, that shows no row or repeats a path |
| Manifest.ReadPathsLack | scripts/check_release_manifest.py:129-151 | no path that was read holds a character its line lacks, a newline in particular |
| Manifest.ParseUndoesRender | scripts/check_release_manifest.py:129-151 | parsing the written manifest gives back the rows if and only if no path is empty, holds a newline or ends in a carriage return |
| Manifest.TrailingCRIsLost | scripts/check_release_manifest.py:129-151 | a path ending in a carriage return is read back under another name |
| Manifest.ParseUndoesCrlf | scripts/check_release_manifest.py:140-146 | parsing the CRLF-converted manifest gives back the rows if and only if no path is empty or holds a newline |
| Ledger.CheckManifest | scripts/check_release_manifest.py:398-522 | exit 0 if and only if the manifest parses, every row is borne out by a tracked, pinnable, hash-equal file, and under strict every other tracked path is unpinnable; an uncaught error exactly when a listed, tracked, pinnable file is not there to hash |
| Ledger.CheckStrict | scripts/check_release_manifest.py:398-522 | strict exit 0 is agreement of the tree and the manifest in both directions |
| Ledger.UnlistedFiles | scripts/check_release_manifest.py:437-441 | the unlisted bucket holds exactly the tracked paths without a row that may have one |
| Ledger.DriftedRows | scripts/check_release_manifest.py:444-461 | the drifted rows are those naming an unpinnable file or other bytes, unless one of them cannot be hashed |
| Ledger.WriteManifest | scripts/check_release_manifest.py:335-395 | the writer refuses exactly when something is unpinnable or a reviewed hash would be replaced by line-ending conversion, fails after that exactly when a file to pin is missing, and leaves the tree alone both times |
| Ledger.AnyConverted | scripts/check_release_manifest.py:262-303 | the line-ending refusal fires exactly when a listed path drifts and its LF form matches |
| LedgerLaws.NormalizedIsOriginal | scripts/check_release_manifest.py:262-276 | a text of LF lines checked out with CRLF is hashed as the original |
| LedgerLaws.ConversionIsRefused | scripts/check_release_manifest.py:262-395 | a tracked file pinned with LF endings and checked out with CRLF counts as converted |
| LedgerLaws.WriteConverted | scripts/check_release_manifest.py:335-395 | and makes the writer refuse and leave the manifest alone |
| LedgerLaws.NothingToRefuse | scripts/check_release_manifest.py:262-303 | a tree whose tracked files hold no CRLF is never refused for its line endings |
| LedgerLaws.ChangeIsNoticed | scripts/check_release_manifest.py:398-522 | on a strictly clean tree, removing a pinned path or giving it bytes or a link target with another hash makes the strict check fail |
| LedgerLaws.NewFileIsNoticed | scripts/check_release_manifest.py:398-522 | a tracked path without a row fails the strict check unless the classification keeps it out |
| LedgerLaws.KeptOut | scripts/check_release_manifest.py:335-522 | a tracked path the classification keeps out stops the writer, and a row for it fails the strict check |
| Ledger.SortedListing | scripts/check_release_manifest.py:375-376 | the written rows list each pinned path once, sorted |
| Ledger.WriteThenCheck | scripts/check_release_manifest.py:335-522 | after a successful write the strict check passes if and only if every pinned path can stand in a row |
| Ledger.WriteTwice | scripts/check_release_manifest.py:335-395 | writing a second time succeeds and changes nothing |
| Ledger.WrittenNotRead | scripts/check_release_manifest.py:335-522 | a tree whose write succeeds and whose strict check fails: one file whose name ends in a carriage return |
| Gate.FindUnpinnedChanges | scripts/precommit_manifest_gate.py:126-142 | the loop reports exactly the staged pinned files whose bytes differ from their pin, in order |
| Gate.Gate | scripts/precommit_manifest_gate.py:145-155 | a commit passes if and only if the staged manifest parses and no staged pinned file mismatches |
| PyText.UniversalHasNoCR | scripts/precommit_manifest_gate.py:115-123 | text-mode reading leaves no carriage return and changes only texts that have one |
| PyText.EndingsRead | scripts/precommit_manifest_gate.py:115-123 | the three line endings each read as one newline |
| PyText.UniversalReads | scripts/precommit_manifest_gate.py:115-123 | text is read piece by piece wherever it is not cut inside a CRLF |
| Gate.GateReadsManifest | scripts/precommit_manifest_gate.py:115-123 | the gate reads a written manifest as the checker does if and only if no path holds a carriage return |
| Gate.InnerCRIsMisread | scripts/precommit_manifest_gate.py:115-123 | a path the checker reads back and the gate does not |
| Gate.GateIsExact | scripts/precommit_manifest_gate.py:98-142 | from a state where the pins hold, they hold after a commit if and only if the gate passes it and every row written for an unstaged file is right |
| Gate.PinsHoldThroughout | scripts/precommit_manifest_gate.py:98-142 | along every run of passing commits that write rows only for files they stage, every pinned file present matches its pin |
| Gate.LooseRowSlips | scripts/precommit_manifest_gate.py:126-142 | a row rewritten for an unstaged file passes the gate and breaks its pin |
| Freshness.Board.WriteStamp | hatch_build.py:120-130 | the stamp file goes through every prefix of its text, from the empty one |
| Freshness.Board.TryBuildBoard | hatch_build.py:148-177 | the build's moments are those of the two commands and then of the stamp, cut where a step fails |
| Freshness.Board.RebuildBoardOrRaise | hatch_build.py:218-239 | it returns exactly when npm is there, the build succeeds and the board is current, and else raises the refusal the caller's state calls for |
| Freshness.Board.PlanBoardInclusion | hatch_build.py:242-268 | a distributable build includes the board only when it is current or there are no sources to compare, and never warns |
| FreshnessLaws.StatesAre | hatch_build.py:133-145 | the four states, read off the index, the sources and the stamp |
| FreshnessLaws.BuildsWell | hatch_build.py:133-178 | a build succeeds if and only if package and npm are there, both commands return 0, an index stands and the stamp fits; the board then reads current, or source-absent |
| FreshnessLaws.DistributionShips | hatch_build.py:148-268 | a distributable build ships exactly a bundle that has no sources to compare, or a stamp that names them, or a rebuild that goes well; it refuses as missing exactly without a bundle |
| FreshnessLaws.StaleShips | hatch_build.py:148-268 | commands that return 0, an index and room for the stamp make a stale board ship |
| FreshnessLaws.EditableShips | hatch_build.py:242-268 | an editable install never refuses, warns exactly over a stale bundle, and leaves the board out exactly when it is missing and no build goes well |
| Freshness.NoFalseCurrent | hatch_build.py:120-177 | from a stale board with inputs held fixed, no moment an interruption could leave reads as current unless the bundle was built from these sources |
| Freshness.SafeIff | hatch_build.py:133-177 | a board is safe to rebuild in that sense if and only if its stamp does not match |
| Freshness.SuccessIsCurrent | hatch_build.py:133-177 | a successful build leaves a current board |
| Freshness.RebuiltIsGenuine | hatch_build.py:218-268 | what a distributable build ships after a rebuild was built from the sources beside it |
| Freshness.SuccessVouches | hatch_build.py:148-177 | after a successful build the board is genuine exactly when its bundle is an output of the sources the stamp was taken of |
| Freshness.GenuineIffInterchangeable | hatch_build.py:148-177 | sources may change under the build command without harm if and only if every bundle of the old ones is a bundle of the new ones |
| Freshness.StepKeepsTrust | hatch_build.py:120-177 | no edit, deletion or interrupted rebuild makes a stamp speak for a bundle it was not written for, as long as the bundle is untouched since |
| Freshness.RunIsGenuine | hatch_build.py:120-177 | along every run of edits, deletions and interrupted rebuilds, a board that reads as current is genuine unless its sources came back to the stamped ones after the bundle was touched |
| Freshness.RunIsGenuineIff | hatch_build.py:120-177 | of all runs that go the same way but for what stands in their bundles, every one is genuine throughout if and only if the sources never come back to the stamped ones over a touched bundle |
| Freshness.ExposedLies | hatch_build.py:120-177 | a run whose sources do come back can be refilled, act by act, into a fair one that reads as current over a half-written bundle |
| Freshness.RevertLies | hatch_build.py:133-177 | edit, interrupt the rebuild of the stale board, undo the edit: the half-written bundle reads as current |
| Incidents.CountGaps | scripts/measure_release_downloads.py:482-488 | on sorted times the gap count is the number of times with no other in the window before them |
| Incidents.CountIncidents | scripts/measure_release_downloads.py:477-489 | incidents are the connected components of the at-most-an-hour-apart graph per branch, never more than the failures |
| Incidents.LeadersAreComponents | scripts/measure_release_downloads.py:477-489 | times that start a gap correspond one to one to the components |
| Incidents.LeaderOf | scripts/measure_release_downloads.py:477-489 | every failure is connected to one that starts a gap |
| Incidents.ConnectedLeaders | scripts/measure_release_downloads.py:477-489 | two that start gaps are never connected |
| Incidents.ReleaseFailureSteps | scripts/measure_release_downloads.py:378-387 | every failed packaging step is listed, in order |
| Incidents.FailingRunsAreReleaseRuns | scripts/measure_release_downloads.py:390-405 | the release-run guard never drops a failed packaging step |
| Incidents.MeasureFetchFailures | scripts/measure_release_downloads.py:408-474 | there is one event per failed packaging step of any run, the three categories partition them, incidents are components of the fetch failures, and the window runs from the earliest to the latest run |
| IncidentLaws.EventsReport | scripts/measure_release_downloads.py:378-462 | there is one event for each packaging step that ran and went wrong, with its run's branch and time, its job and its name; unclassifiable exactly when no log text can be had, a fetch failure exactly when the pattern for its conclusion matches the log |
| IncidentLaws.FiguresAre | scripts/measure_release_downloads.py:455-458 | the three figures count those steps |
| IncidentLaws.NothingMatched | scripts/measure_release_downloads.py:358-489 | patterns that match nothing leave no fetch failure and no incident |
| IncidentLaws.EverythingMatched | scripts/measure_release_downloads.py:358-458 | patterns that match everything leave no other failure |
| IncidentLaws.MoreMatched | scripts/measure_release_downloads.py:358-458 | the patterns decide nothing but the category, never which logs are unclassifiable, and patterns that match more take no event out of the fetch failures |
| IncidentLaws.OnePatternDecides | scripts/measure_release_downloads.py:366-375 | only the progress pattern decides a cancelled step, and only the signature any other |
| IncidentLaws.OneFetchFailure | scripts/measure_release_downloads.py:358-489 | one failed step with a matching log is one fetch failure, one incident and no other failure |
| IncidentLaws.TwoFailures | scripts/measure_release_downloads.py:477-489 | two fetch failures are one incident if and only if they are on one branch and at most 3,600,000,000 microseconds (one hour) apart |
| IncidentLaws.ReleaseRunsRan | scripts/measure_release_downloads.py:390-433 | release runs are those in which some packaging step was not skipped |
| Incidents.CategoriesPartition | scripts/measure_release_downloads.py:455-458 | the three category counts add up to all events |
| Rounds.DemotionsOf | scripts/review_round_value.py:170-184 | round r gets exactly the demotions with r - 1 reviews no later than them |
| Rounds.DemotionsByRound | scripts/review_round_value.py:151-184 | the same for every task, over that task's own events |
| Rounds.OwnRows | scripts/review_round_value.py:151-184 | a task's rows are its own reviews and demotions, whatever else is recorded |
| Rounds.ReviewsBefore | scripts/review_round_value.py:174-182 | in the sorted order the reviews no later than a demotion are those before it |
| Rounds.DemotionsConserved | scripts/review_round_value.py:168-184 | the rounds' counts add up to all demotions |
| Rounds.TieMovesOn | scripts/review_round_value.py:154-157 | a demotion is never put in too early a round, and in too late a one exactly when a later review shares its time |
| Rounds.TieRule | scripts/review_round_value.py:151-184 | the counts are those of the emission order if and only if no demotion shares its time with a review emitted after it |
| Rounds.TiedDemotionMoves | scripts/review_round_value.py:151-184 | a demotion and its review in one instant: emitted in round 1, counted in round 2 |
| Findings.IsSimilar | scripts/review_round_value.py:130-148 | the loop answers whether some earlier word set shares 0.6 of the union |
| Findings.EvidenceIgnored | scripts/review_round_value.py:102-110 | a finding's label does not depend on its evidence |
| Findings.TallyRecord | scripts/review_round_value.py:226-242 | a record's columns count its findings against the labels and words of earlier records only |
| Findings.Collect | scripts/review_round_value.py:195-260 | every round's bucket is the sum of the shares of the records with that number; the task counters, the highest round and the demotion total are what they name |
| FindingsLaws.ColumnsAre | scripts/review_round_value.py:219-248 | every column of a round is the sum over the records of that number: records, passed, failed, raised, new, repeated, similar, advisory, demoted |
| FindingsLaws.AlikeIs | scripts/review_round_value.py:130-148 | two labels are similar when at least 0.6 of all their significant words are in both |
| FindingsLaws.CountersAre | scripts/review_round_value.py:208-250 | the counters count tasks with a record, with twelve or more, and with blocking findings in two records |
| Findings.RepeatIsAlike | scripts/review_round_value.py:130-148 | an exact repeat with a significant word is similar too |
| Findings.RoundAddsUp | scripts/review_round_value.py:219-248 | in every round new plus repeated is raised, passed plus failed is the records, and every repeat with a significant word is counted similar |
| Findings.ColumnAccounts | scripts/review_round_value.py:219-248 | a task's demoted column differs from what was attributed by the demotions of rounds no longer in the history and of rounds recorded more than once, each none exactly when there is no such round |
| FindingsLaws.ReportAccounts | scripts/review_round_value.py:219-248 | the demoted column reported of a task alone is that column, so it differs from what was attributed by just those rounds |
| Sql.LiteralReads | scripts/memory_triage_runbook.py:269-270 | a quoted value reads back, whatever quotes it holds |
| Sql.UpdateReads | scripts/memory_triage_runbook.py:269-289 | a printed update statement reads back: table, assignments, key and ids, whatever quotes its texts hold |
| Sql.StatementReads | scripts/memory_triage_runbook.py:273-289 | the emitted statement sets the flag to 0, the pointer to NULL and the content with the suffix removed, for the ids it was made for, and says nothing else |
| Archive.Store.ArchiveMemory | src/no_human/core/db.py:4177-4186 | a row is archived exactly when its flag is 0, its content then ending in the suffix |
| Archive.Store.TemplatedTargets | scripts/memory_triage_runbook.py:254-266 | the targets are the first matching rows by creation time and id, each once |
| Archive.Store.ExecuteTemplated | scripts/memory_triage_runbook.py:463-516 | every target is archived or, without a flag, refused, and refusals set the exit code |
| ArchiveLaws.RowsAfter | scripts/memory_triage_runbook.py:463-516 | of the rows it is given a run changes those whose flag is 0: flag 1, and the reason in brackets, if there is one, at the end of the content |
| Archive.Store.RunReversal | scripts/memory_triage_runbook.py:273-289 | running the emitted statement restores flag, pointer and content of the listed rows |
| Archive.ReversalRestores | scripts/memory_triage_runbook.py:273-289 | running those assignments is the restoration of the named rows |
| Archive.TargetsReproducible | scripts/memory_triage_runbook.py:254-266 | which rows a run takes does not depend on the order the store lists them in |
| ArchiveLaws.OldestTaken | scripts/memory_triage_runbook.py:254-266 | a run takes unconfirmed, unhidden, unarchived rows of the class, each once and oldest first, and every such row left out is younger than every one taken |
| ArchiveLaws.HowManyTaken | scripts/memory_triage_runbook.py:254-266 | it takes as many as the limit lets through |
| Archive.SuffixIsBorderless | scripts/memory_triage_runbook.py:273-289 | the suffix of a one-line reason cannot overlap itself |
| Archive.RemovalUndoesAppend | scripts/memory_triage_runbook.py:284-288 | removing every copy of such a suffix undoes appending one if and only if the text held none |
| Archive.ReversalRestoresIff | scripts/memory_triage_runbook.py:254-289 | archiving and reversing is the identity on the whole table if and only if no archived row was superseded or held the suffix; other rows keep every column |
| Archive.TrailLost | scripts/memory_triage_runbook.py:274-280 | archive, restore in the product, archive again and reverse loses the audit trail |
| Archive.CountsAgree | scripts/memory_triage_runbook.py:196-251 | a run deletes nothing and moves exactly the rows it archived: out of the templated and pending classes, and of the stale one as far as they were in it, into the archived one; the confirmed and superseded counts stay |

## Left out

- ReconcileRuns.ReconcileSettles: asks for distinct stable prefixes, as does `Reconcile.ReconcileConverges`; what rows that share one need is the subject of `SharedPrefixes`.
- FileBytes.ApplyKeepsBytesIff: is about `--apply`; `--reconcile` reads and writes its files the same way. Bytes are modelled as the characters they decode to.
- Freshness.RunIsGenuineIff: its runs hold edits, deletions and rebuilds; the `--stamp` command, which stamps whatever bundle stands there, is not among them.
- Gate.PinsHoldThroughout: renames and type changes, which the `AM` filter does not report, are excluded by asking that every added or modified file is staged as such.
- Archive.ReversalRestoresIff: asks for a non-empty reason on one line; the script's reason is a constant of that kind.
- Freshness.NoFalseCurrent: a build command that returns 0 is taken to leave the output of the sources it started on.
- Ledger.WriteTwice: asks that every pinned path can stand in a row, the condition of `Ledger.WriteThenCheck`.
- Timestamps are integers; of the recorded floating-point seconds only the order and the differences matter.
- Findings.ColumnAccounts: takes the attribution of one task over a stretch of rounds that holds all its demotions.
- The reading of citations is the checker's own, tests/test_readme_claims.py, and is modelled as such: `CitedLine` and `LegacySpec` are concrete readings of its `_cited_line` and of its pattern for line-only citations. Its lookup of files, symbols and tokens is a parameter.
- Message texts, reports and exit-code wiring of the `main` functions; `diagnose_divergence`.
- Subprocesses, git, gh, npm, SQLite connections, argument parsing and file reading; their results are inputs.
- SHA-256 (an abstract hash), regular expressions, JSON, `shlex` and Unicode digits; the JSON reader of stamps is assumed to read complete stamps and to read a cut one as nothing or as complete.
- Lone surrogates in paths (Dafny characters are Unicode scalar values).
- `shell_search`, `is_symbol_query` and the transcript reader of the navigation instrument: the model starts from argument vectors and normalized calls.
- Rounding: shares are real numbers, the similarity bound is an exact fraction, the replay's floor is truncated toward zero.
- Negative result sizes, which the event reader accepts when the recorded length is negative.
- An unparseable classification file, which makes both modes of the ledger script refuse.
- The retention sweep (the run without `--templated-only`), which emits no reversal statement.
- The figures of the download report other than failures and incidents, and the order in which the navigation report lists file extensions.
