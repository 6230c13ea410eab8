# Pebrel: verified models of its algorithms and protocols

This project models the self-contained algorithms and protocols of Pebrel, a
terminal application, and proves what its code and documentation rely on:

- `ShellScanner`, `ShellGrammar`, `ShellWordLaws`, `CommandContext`: the four-dialect
  command-line scanner, the grammar it accepts and what its words mean, the printer that
  spells a value back into a dialect and quoting, and the in-place edit that joins them.
- `DirectoryPaths`, `DirectoryDatabase`, `DirectoryVisits`, `DirectoryAging`,
  `DirectoryService`: directory keys, keyword search, the frecency database, what visits
  add up to in it, what its aging keeps, and one process's service.
- `DirectoryProtocol`, `DirectoryProgress`, `DirectoryHazards`: several processes sharing
  one history file under a lock file, what reaches the file when nobody is in the way, and
  what a stolen lock or a misreported save does to it.
- `AtomicFile`: crash-safe replacement of a file by concurrent writers.
- `ShellNesting`, `ShellReports`: the stack of nested SSH and WSL shells behind a pane,
  over whole runs and report by report.
- `AgentRules`, `AgentMemo`: gate evaluation, the choice among rules, and the
  generation-stamped memo in front of them.
- `Calendar`, `ArchiveNames`, `BackupRetention`: UTC timestamps, archive names whose
  order is time order, pruning, pushing and restoring.
- `NDots`, `PathCompletion`, `CompletedPaths`: n-dot shorthand, recursive path completion
  with cooperative cancellation, and which paths it finds.
- `AnswerInbox`: which assistant session owns a pane's answers.

`Text` holds the shared vocabulary. Code that updates state step by step is modelled
by methods and classes with the same fields; each is proved equal to a function of
its inputs or its old state, and the theorems are about those functions. Protocols
between threads or processes are step relations, and their theorems quantify over
every run.

Two conventions: positions in text are character positions where the program uses
byte offsets that lie on character boundaries, and lengths that the program limits
in bytes are computed as UTF-8 lengths. `char::is_alphanumeric` is a parameter that
is only assumed to be exact on ASCII (and, in one lemma, to exclude white space).

`dafny verify dfyconfig.toml` checks everything.

## What is false of the code, and exactly when

- Splicing a completion is not always faithful. Behind a blank that an escape made
  part of a word (`a\ `), the parser offers an empty word, because it looks only at
  the last raw character; the spliced value then joins the word before it.
  `SpliceIsExact` states the edit contract as an equivalence with that case and the
  64-word limit; `EscapedBlankHappens` is the concrete line.
- A lock file is reclaimed after 30 seconds on the assumption that no healthy writer
  is that slow. `ReclaimIsSafeExactly`: after the removal two processes can hold the
  lock, and a visit that was reported as saved can be lost, if and only if a live
  process still works under the removed lock; nothing else has to go wrong.
  `TheftHappens` is a concrete run with a slow writer; `ReclaimRaceHappens` needs none:
  two processes that find the lock of a crashed one stale are enough.
- On Unix a save can report failure after the rename. `MisreportIsHarmlessExactly`:
  the file can then come to count visits that were never made if and only if the save
  had visits to write; `MisreportCountsTwice` gives the count after the next visit and
  `DoubleCountHappens` a concrete run.
- Recording a visit does not always leave the directory in the database: where total
  rank is 10,000, in memory or only in the shared file, a first visit fades in the call
  that records it. `RecordedVisitStaysExactly` is an equivalence over the whole call,
  its flush included; `VisitFadesHappens` has both inputs.
- A shared file may repeat a directory key, and recording then brings the repeats into
  memory. `RecordingStaysSound` says exactly when keys are unique afterwards;
  `RepeatedKeysHappen` is such a file.
- Aging does not always drop the lowest scores: fading goes by rank alone, so a recent
  visit of low rank is dropped before an old one of higher rank.
  `OnlyFadingDropsTheBetter` says exactly which better entries are dropped;
  `FadingDropsTheBetterHappens` is a database where it happens.
- Pruning counts listed names, not archives: it removes no repeats, although listing
  for a restore does, and a listing may name files that are not there. With every
  archive listed, success leaves the ten newest if and only if no surplus name is
  stored, or the ten greatest names are stored and the eleven greatest do not repeat;
  the returned number is right if and only if there are ten archives or exactly as many
  names as archives: `Prune`. `ExtraNameLosesArchive` is the failing family,
  `RepeatedNameHappens` one listing of it.
- Archive names stop being recognised at the end of year 9999: `NameIsAccepted` is an
  equivalence, `FiveDigitYearHappens` its first second.
- If pruning spared the newest archive, a pushed archive is what a restore returns if
  and only if its year has four digits and no archive already stored sorts after it:
  `PushThenPullReturnsPacket`. `LaterArchiveHappens` is an archive stored by a clock
  that was ahead. The newest archive is spared if and only if the eleventh greatest
  listed name is older: `NewestIsSpared`.
- Folding and expanding n-dots is the identity if and only if no component contains
  three dots in a row: `CollapseRoundTrip`; `LongRunHappens` is the component `...`.

## Model

| member | source | states |
|---|---|---|
| ShellScanner.ScanWord | nebula-completions/src/command_context.rs:208-303 | the inner loop computes the value, extent and closedness of the word at a position, as read recursively without loop state; ShellGrammar.WordIsRead says what that reading is |
| ShellScanner.ScanWords | nebula-completions/src/command_context.rs:201-322 | the whole scanner returns the recursive reading of the line, which ShellGrammar.WordsReadExactly characterises, so the check for an open word with input left never decides anything, and the word limit is the only other failure |
| ShellGrammar.WordIsRead | nebula-completions/src/command_context.rs:208-303 | every row of segments a dialect allows (bare, escaped, quoted with their own items, unclosed) is read as exactly its meaning, up to exactly its end |
| ShellGrammar.SpelledIsRead | nebula-completions/src/command_context.rs:201-322 | every line of such words between blanks is read as its words, with opening quote, closedness and home mark, and an empty word behind a final blank; with more than 64 words it is refused |
| ShellGrammar.SpellingFound | nebula-completions/src/command_context.rs:201-322 | every line the scanner accepts is spelled by such words |
| ShellGrammar.WordsReadExactly | nebula-completions/src/command_context.rs:201-322 | in all four dialects the scanner succeeds if and only if the line is spelled by at most 64 such words, and then returns what they mean |
| ShellWordLaws.LexExtends | nebula-completions/src/command_context.rs:201-322 | text up to a word boundary is read the same whatever is appended |
| ShellWordLaws.LexSplits | nebula-completions/src/command_context.rs:201-322 | cutting a line where a word starts separates its words exactly there |
| CommandContext.WordsAreWellPlaced | nebula-completions/src/command_context.rs:201-322 | at most 65 words, spans ordered and disjoint, only blanks outside them, an open quote only in the last word, which then reaches the end |
| CommandContext.QuoteRoundTrip | nebula-completions/src/command_context.rs:138-198 | in every dialect and quoting, a printed candidate is scanned as exactly one closed, non-home word with the original value |
| CommandContext.SpelledExactly | nebula-completions/src/command_context.rs:138-198 | which values have a spelling, by their characters and for every dialect and quoting; exactly when it is the bare value, and the quotes around it otherwise |
| CommandContext.CandidateIsLiteralArgument | nebula-completions/src/command_context.rs:47-57 | the literal argv of a printed candidate is the original value alone |
| CommandContext.LiteralArgumentsExactly | nebula-completions/src/command_context.rs:47-57 | a line spelled by words has literal arguments if and only if it fits 4,096 bytes and 64 words and all its words are closed and without a home mark; they are what the words mean |
| CommandContext.NoLiteralArguments | nebula-completions/src/command_context.rs:47-57 | a line that no words spell has none |
| CommandContext.ParsesExactly | nebula-completions/src/command_context.rs:79-117 | a parse succeeds if and only if there is text before the cursor, the line fits and scans there and as a whole, no word in front needs a forbidden expansion and no word behind is open or needs one |
| CommandContext.TargetExactly | nebula-completions/src/command_context.rs:85-98 | the target is the last word before the cursor, extended to the end of the word of the line that starts there, whose value is remembered exactly if it differs |
| CommandContext.SurroundingsExactly | nebula-completions/src/command_context.rs:92-127 | the arguments are the words in front with the places of home marks, the following arguments the nonempty words behind |
| CommandContext.ParseCuts | nebula-completions/src/command_context.rs:79-127 | a successful parse cuts the line into settled text with the reported arguments, the target, and text with the reported following arguments |
| CommandContext.SpliceAtCut | nebula-completions/src/command_context.rs:138-198 | splicing a candidate keeps the words before it, inserts one closed literal word with the value, and only moves the words after it |
| CommandContext.SpliceKeepsTheOthers | nebula-completions/src/command_context.rs:79-198 | without an escaped trailing blank the edited line reads as old preceding arguments, new value, old following arguments, or exceeds the word limit |
| CommandContext.SpliceBehindEscapedBlank | nebula-completions/src/command_context.rs:312-320 | behind an escaped trailing blank the edited line never reads that way |
| CommandContext.SpliceIsExact | nebula-completions/src/command_context.rs:79-198 | the edit contract holds if and only if there is no escaped trailing blank and the result fits 64 words |
| CommandContext.SpliceThenParse | nebula-completions/src/command_context.rs:79-198 | parsing the edited line behind the new word yields the same surroundings with the new value under the cursor |
| CommandContext.EscapedBlankHappens | nebula-completions/src/command_context.rs:312-320 | the line `a\ ` parses, accepts a candidate, and is edited into something else |
| Calendar.CalendarInverse | nebula_app/src/backup_remote.rs:306-326 | for every second since the epoch the closed form yields a valid Gregorian date and time, and counting it back year by year and month by month returns the second |
| Calendar.TimeOrderIsCalendarOrder | nebula_app/src/backup_remote.rs:306-326 | timestamps compare field by field exactly as times do, and determine the time |
| Calendar.FourDigitYears | nebula_app/src/backup_remote.rs:328-333 | the year has four digits exactly before the first second of year 10000 |
| ArchiveNames.NameIsAccepted | nebula_app/src/backup_remote.rs:328-349 | an archive name is recognised, with its own timestamp, if and only if the year has four digits |
| ArchiveNames.ArchiveNamesExactly | nebula_app/src/backup_remote.rs:335-349 | archives are exactly the names made of the prefix, eight digits, a hyphen, six digits and the suffix |
| ArchiveNames.FiveDigitYearHappens | nebula_app/src/backup_remote.rs:306-349 | the name of the first second of year 10000 is not recognised |
| ArchiveNames.NameOrderIsTimeOrder | nebula_app/src/backup_remote.rs:328-333 | names are injective and lexicographic order of names is time order |
| BackupRetention.BeforeIsNameOrder | nebula_app/src/backup_remote.rs:351-355 | among archives the sort's comparison is plain name order |
| BackupRetention.SortAscends | nebula_app/src/backup_remote.rs:351-355 | the sorted list of archives is ascending |
| BackupRetention.Prune | nebula_app/src/backup_remote.rs:545-554 | for every listing: files that are not archives and names that are not surplus always stay, success removes every surplus name, and it fails exactly when the listing, the deletion of a stored surplus name or, where the backend minds, the deletion of an absent or repeated one does; with every archive listed, success leaves the ten newest and returns their number under exactly the stated conditions |
| BackupRetention.PruningIsExact | nebula_app/src/backup_remote.rs:545-554 | deleting the surplus names of a listing that shows every archive leaves the ten newest archives and every other file exactly when no surplus name is stored, or the ten greatest names are stored and the eleven greatest do not repeat |
| BackupRetention.ExtraNameLosesArchive | nebula_app/src/backup_remote.rs:545-554 | with ten archives and one listed name more, repeated or absent, nothing is surplus, yet an archive is deleted |
| BackupRetention.RepeatedNameHappens | nebula_app/src/backup_remote.rs:545-554 | a listing of ten archives in which one name is repeated |
| BackupRetention.PushSnapshot | nebula_app/src/backup_remote.rs:479-498 | a failed store changes nothing; a stored packet is followed by pruning that keeps every other file and every name that is not surplus, and all of the ten newest when names count archives |
| BackupRetention.NewestIsSpared | nebula_app/src/backup_remote.rs:545-554 | the newest archive is not among the surplus names if and only if the eleventh greatest listed name is older |
| BackupRetention.PushLeavesNewest | nebula_app/src/backup_remote.rs:479-498 | what a push guarantees then suffices for the restore theorems |
| BackupRetention.PullLatest | nebula_app/src/backup_remote.rs:521-542 | for every listing: returns the greatest listed archive and its bytes, which is the newest archive when all are listed; returns nothing exactly when the listing fails, shows no archive, or its greatest is absent or cannot be downloaded |
| BackupRetention.PushThenPullReturnsPacket | nebula_app/src/backup_remote.rs:479-542 | after a push the latest archive is the pushed packet if and only if its name is accepted and no stored archive sorts after it |
| BackupRetention.StoredIsLatest | nebula_app/src/backup_remote.rs:479-542 | wherever pruning stopped, a file just stored under any name is what a restore of the latest returns if and only if the name is an archive name and no stored archive sorts after it |
| BackupRetention.LaterPushIsRestored | nebula_app/src/backup_remote.rs:479-542 | pushing later than all stored archives and restoring the latest returns the pushed packet |
| BackupRetention.LaterArchiveHappens | nebula_app/src/backup_remote.rs:479-542 | an archive stored under a later time keeps a new push from being the latest |
| NDots.ExpandNdots | nebula-completions/src/file.rs:50-81 | the loops expand each run of n dots above two into n-1 parent steps and copy everything else |
| NDots.CollapseNdots | nebula-completions/src/file.rs:84-112 | the loop folds each maximal run of parent components into one dotted component |
| NDots.ExpandExactly | nebula-completions/src/file.rs:50-81 | every whole run of n dots, wherever it stands, becomes n-1 parent steps with separators between if n is above two and stays otherwise; what surrounds it is expanded on its own, and text without dots stays |
| NDots.CollapseExactly | nebula-completions/src/file.rs:84-112 | every whole run of k parent components, wherever it stands, becomes one component of k+1 dots without matches; what surrounds it is folded on its own, and a list without parent components stays |
| NDots.CollapseRoundTrip | nebula-completions/src/file.rs:50-112 | folding, joining and expanding returns the join of the original components if and only if none contains three dots in a row |
| NDots.LongRunHappens | nebula-completions/src/file.rs:50-112 | the component `...` does not come back |
| PathCompletion.Cancellation.IsCancelled | nebula_app/src/completion.rs:42-49 | polling a flag that is set once; after one poll has seen it, every later poll does |
| PathCompletion.ScanEntries | nebula-completions/src/file.rs:172-206 | the entry loop collects the admitted candidates and the first and further exact matches, or stops because the flag was seen |
| PathCompletion.ScanDirectories | nebula-completions/src/file.rs:156-207 | the same over all directories reached so far |
| PathCompletion.CompletePolling | nebula-completions/src/file.rs:115-247 | the recursion terminates on the remaining components and, when no poll saw the flag, returns the uncancelled completion, which CompletedPaths.CompletionFinds characterises |
| PathCompletion.CompletePaths | nebula-completions/src/file.rs:408-552 | whatever poll first sees the flag, the result is empty; otherwise it is exactly the uncancelled result |
| CompletedPaths.ExactMeansOnce | nebula-completions/src/file.rs:183-224 | the search drills into an exact match if and only if there is exactly one way to spell the component out |
| CompletedPaths.CompletionFinds | nebula-completions/src/file.rs:115-247 | completion returns the path of every admissible way, once, and no other, in the order of the matcher: a way keeps `.` and `..` with more behind them and otherwise picks an entry of the directory reached so far, a directory where wanted, that matches or, with exact matching on, is the only one spelled out |
| CompletedPaths.CompletedExactly | nebula-completions/src/file.rs:115-247 | a path is in the result if and only if some such way leads to it; it extends the starting path of the way by one part per component |
| AnswerInbox.Inbox.Observe | nebula_app/src/assistant_answer.rs:95-138 | the new state is the one prescribed by pane, provider, sequence, owner and closedness, and the result says whether an answer was stored; AnswerInbox.RunIsToldByItsEvents says what that amounts to over runs |
| AnswerInbox.Inbox.Close | nebula_app/src/assistant_answer.rs:140-142 | closes exactly when there is an owner, and changes nothing else |
| AnswerInbox.Inbox.BeginCommand | nebula_app/src/assistant_answer.rs:144-147 | forgets owner and closedness, and changes nothing else |
| AnswerInbox.RunIsToldByItsEvents | nebula_app/src/assistant_answer.rs:95-147 | over every run: the stored snapshots are exactly the answers of the events that count, in order, with their session, number, content and directory; the answer held is the last of them unless a later event that counts changed the owner or reopened an ended session; owner, openness and number follow from the events alone |
| AnswerInbox.RunsAreJudgedOnce | nebula_app/src/assistant_answer.rs:95-147 | which events count is determined by the operations before them: this pane, a known provider, a named session, a new number, and a start or the open owner |
| AnswerInbox.RunsStaySound | nebula_app/src/assistant_answer.rs:95-147 | over every run a stored answer belongs to the owner when there is one, and its number is not above the last seen |
| AnswerInbox.StoredSequencesIncrease | nebula_app/src/assistant_answer.rs:95-138 | over every run stored answers carry strictly increasing sequence numbers |
| AnswerInbox.EndingLocksOut | nebula_app/src/assistant_answer.rs:110-142 | closing, a session end, or another session's accepted event locks a session out |
| AnswerInbox.EndedSessionStaysOut | nebula_app/src/assistant_answer.rs:95-147 | no answer of a locked-out session is stored until it starts again or a command begins |
| AnswerInbox.OnlyWaysBack | nebula_app/src/assistant_answer.rs:95-147 | one step readmits a locked-out session exactly when it begins a command or is a relevant start of that session |
| ShellNesting.PaneState.SwitchEnvironment | nebula_app/src/completion_context.rs:172-177 | sets environment and directory, clears the pending remote directory and the line, keeps the rest |
| ShellNesting.PaneState.SubmitArgv | nebula_app/src/completion_context.rs:38-47 | a connecting command parks the submitting frame with its directory and pushes an unnamed child frame |
| ShellNesting.PaneState.CompletionSubmitted | nebula_app/src/completion_context.rs:100-104 | an entered line acts exactly as its words do, and not at all when it has none |
| ShellNesting.PaneState.PromptReport | nebula_app/src/completion_context.rs:49-83 | a known token pops to its frame, an unseen one names or adds a frame, an invalid one changes nothing |
| ShellNesting.PaneState.CommandReport | nebula_app/src/completion_context.rs:130-157 | the owning shell is brought back on top before its command is submitted |
| ShellNesting.PaneState.InputReport | nebula_app/src/completion_context.rs:107-129 | an accepted line is recorded once, under the scope and directory of the shell that read it |
| ShellNesting.PaneState.ShellReport | nebula_app/src/completion_context.rs:106-170 | each report variable is dispatched to its transition; malformed values change nothing |
| ShellNesting.RunsStayCoherent | nebula_app/src/completion_context.rs:38-178 | in every reachable state tokens are valid and pairwise distinct and the top frame's environment is the pane's |
| ShellNesting.NestedRestoration | nebula_app/src/completion_context.rs:38-83 | after a connection and any run of events that speak for no enclosing shell, the submitting shell's next prompt restores its environment, its directory and all enclosing frames |
| ShellNesting.ReportReconciles | nebula_app/src/completion_context.rs:130-157 | a command report from the owning shell leads to the same environment and directory whatever lines a provisional Enter had acted on |
| ShellReports.SubmitExactly | nebula_app/src/completion_context.rs:38-47 | words that open a connection park the submitting shell where it stood and put the pane into an environment known by kind, enclosing scope and words, in no directory; other words change nothing |
| ShellReports.ConnectionsDiffer | nebula_app/src/completion_context.rs:200-231 | two connections are the same environment if and only if enclosing scope and words are |
| ShellReports.ScopesDiffer | nebula_app/src/display/suggest_engine.rs:262-276 | which environments share a history scope |
| ShellReports.TokensExactly | nebula_app/src/completion_context.rs:50-52 | the tokens that are believed, by their characters |
| ShellReports.ReturningPrompt | nebula_app/src/completion_context.rs:53-59 | the prompt of a shell on the stack pops everything above it and takes the pane to its environment and directory |
| ShellReports.NewPrompt | nebula_app/src/completion_context.rs:60-82 | the prompt of an unknown shell names the connection waiting on top or adds a shell in the same place, and leaves the shells below |
| ShellReports.PromptNamesDistro | nebula_app/src/completion_context.rs:60-68 | only the default WSL distribution takes its name from the report, and exactly a name between two bars |
| ShellReports.InputExactly | nebula_app/src/completion_context.rs:107-129 | a line read by a shell on the stack is recorded under its scope and directory unless it is the line just recorded for it; nothing moves |
| ShellReports.InputRefused | nebula_app/src/completion_context.rs:107-120 | a line that is too long, unprintable or from an unknown shell changes nothing |
| ShellReports.LineCountsOnce | nebula_app/src/completion_context.rs:86-129 | a submitted line counts once whether the pane saw it, the shell reported it, or both did, and again each time it is reported again |
| ShellReports.ArgvExactly | nebula_app/src/completion_context.rs:148-154 | words reported as a vector separated by NUL are submitted as they are |
| DirectoryPaths.TrimTrailingSeparators | nebula_app/src/directory_history.rs:470-475 | the result is the prefix that keeps the root, loses only separators and has no separator left to lose |
| DirectoryPaths.TrimmedExactly | nebula_app/src/directory_history.rs:470-485 | there is exactly one such prefix |
| DirectoryPaths.NormalizeIsIdempotent | nebula_app/src/directory_history.rs:458-468 | the key of a key is the key itself, on both platforms |
| DirectoryPaths.KeyExactly | nebula_app/src/directory_history.rs:458-485 | every printable, nonempty path has a key: the path without trailing separators except the one of a root or drive, on Windows with separators and ASCII case folded |
| DirectoryPaths.OrderedKeywordMatch | nebula_app/src/directory_history.rs:499-512 | the greedy search succeeds if and only if ordered, non-overlapping occurrences of all keywords exist with no separator behind the last |
| DirectoryDatabase.Database.Apply | nebula_app/src/directory_history.rs:289-303 | raises the first entry with the observation's key, or appends a new one, and leaves the others alone |
| DirectoryVisits.VisitsAddUp | nebula_app/src/directory_history.rs:289-303 | for every readable database and list of visits: each visited directory has its old rank plus one per visit, the spelling of its last visit and the latest time; new directories are appended; nothing else changes |
| DirectoryVisits.ScoresByAge | nebula_app/src/directory_history.rs:65-78 | a rank counts four times within the hour, twice within the day, half within the week and a quarter afterwards |
| DirectoryDatabase.Database.AgeAndLimit | nebula_app/src/directory_history.rs:305-323 | rescales and drops weak entries above the total, then keeps the best above the size limit |
| DirectoryDatabase.AgedIsBounded | nebula_app/src/directory_history.rs:305-323 | from positive ranks: total rank at most 10,000, at most 2,048 entries, ranks still positive |
| DirectoryDatabase.RescalingKeepsOrder | nebula_app/src/directory_history.rs:308-311 | rescaling never changes which of two entries scores higher |
| DirectoryDatabase.LimitKeepsTheBest | nebula_app/src/directory_history.rs:314-322 | the limit splits the database into 2,048 kept and the dropped entries; no dropped entry scores above a kept one, and of equal scores the smaller paths are kept |
| DirectoryAging.AgedExactly | nebula_app/src/directory_history.rs:305-323 | for every database, repeated keys included: aging leaves exactly the rescaled entries that do not fade and have a place among the first 2,048 of those that do not |
| DirectoryAging.KeySurvivesExactly | nebula_app/src/directory_history.rs:305-323 | a key survives aging if and only if an entry with it does not fade and has fewer than 2,048 unfaded entries before it |
| DirectoryAging.AgedUniqueExactly | nebula_app/src/directory_history.rs:305-323 | aging leaves one entry per key if and only if no two survivors share one |
| DirectoryAging.OnlyFadingDropsTheBetter | nebula_app/src/directory_history.rs:305-323 | an entry that scores above a kept one is kept if and only if it does not fade, and one that fades has the lower rank |
| DirectoryAging.FadingDropsTheBetterHappens | nebula_app/src/directory_history.rs:305-312 | a database whose aging drops the just visited directory and keeps a lower-scoring one |
| DirectoryAging.VisitIsKeptExactly | nebula_app/src/directory_history.rs:289-323 | where the visited directory has at most one entry, it survives the aging behind its visit if and only if its new rank does not fade and fewer than 2,048 unfaded entries of the database before the visit rank above it |
| DirectoryDatabase.AppliedKeepsKeys | nebula_app/src/directory_history.rs:289-303 | a visit adds at most its own key, keeps keys unique and keeps the database readable |
| DirectoryDatabase.AgingThins | nebula_app/src/directory_history.rs:305-323 | aging invents no key, keeps keys unique and keeps the database readable |
| DirectoryService.Service.MergePending | nebula_app/src/directory_history.rs:364-367 | the merge loop applies all pending observations in order and ages the result |
| DirectoryService.Service.Flush | nebula_app/src/directory_history.rs:349-376 | what a flush does to the service and the file for every lock, read and save outcome; a refused file is left alone |
| DirectoryService.Service.Record | nebula_app/src/directory_history.rs:161-169 | a recorded visit is applied to the database in memory, which is then aged, and is pending or flushed; a rejected path changes nothing |
| DirectoryService.RecordedVisitStaysExactly | nebula_app/src/directory_history.rs:161-169 | the exact condition under which the recorded directory is in the database when the call returns: on the file with everything unsaved if the flush saves, on the database in memory otherwise |
| DirectoryService.RecordedVisitStaysByRank | nebula_app/src/directory_history.rs:161-169 | the same in terms of the new rank and total of that database, where the directory has at most one entry in it |
| DirectoryService.VisitFadesHappens | nebula_app/src/directory_history.rs:161-169 | a first visit that is gone when the call returns, because the database or only the file was full |
| DirectoryService.RecordingStaysSound | nebula_app/src/directory_history.rs:161-169 | when the call returns, for every outcome of its flush, the database is readable and within its bounds, and its keys are unique if and only if no two survivors share one, as when its origin had unique keys |
| DirectoryService.RepeatedKeysHappen | nebula_app/src/directory_history.rs:161-169 | an accepted file that makes a saved visit leave repeated keys in memory |
| DirectoryService.FlushIsProtocolRun | nebula_app/src/directory_history.rs:349-376 | a flush in one go equals its steps in the shared protocol, for every save outcome |
| DirectoryService.FlushLosesNothing | nebula_app/src/directory_history.rs:349-376 | unsaved visits and seed are forgotten only when file and database hold their merge; the file changes only under the lock; writing is given up exactly when a due flush meets a refused file |
| DirectoryProtocol.MergeIsReplay | nebula_app/src/directory_history.rs:355-367 | merged contents are what the extended history describes, and can be read again |
| DirectoryProtocol.StepKeeps | nebula_app/src/directory_history.rs:87-376 | every step of every process, crashes and failures included, keeps the invariant unless it steals a live lock or misreports a save of observations |
| DirectoryProtocol.SharedHistoryConserves | nebula_app/src/directory_history.rs:349-376 | in every such run each observation of a live process is in the file's history exactly once or pending, a seed is adopted at most once and only without a file, an unreadable file is never replaced, and what is written is readable with unique keys |
| DirectoryProtocol.ReplayIsSound | nebula_app/src/directory_history.rs:289-335 | over whole histories visits and aging keep the contents readable and normalized paths unique |
| DirectoryProtocol.LockStaysExclusive | nebula_app/src/atomic_file.rs:54-79 | as long as no live lock is stolen, at most one process holds the lock in every run |
| DirectoryProgress.ReadExactly | nebula_app/src/directory_history.rs:325-394 | a file is believed if and only if it has version 1 and all entries have a printable path and a positive rank; a missing file is no error |
| DirectoryProgress.QuietVisitIsSaved | nebula_app/src/directory_history.rs:349-376 | in every state a sane run reaches, a visit recorded while the lock is free puts everything the process ever recorded into the file, once and in order, and leaves nothing pending |
| DirectoryProgress.QuietSeedIsAdopted | nebula_app/src/directory_history.rs:87-128 | without a file, the first process to load writes its legacy history |
| DirectoryProgress.LaterStartsReadTheFile | nebula_app/src/directory_history.rs:87-101 | with a file, a process starts from it if it can be believed and keeps to itself otherwise |
| DirectoryProgress.LockComesFree | nebula_app/src/atomic_file.rs:125-158 | in every run without a stolen lock, a crashed holder or a failed removal, the lock file exists if and only if some process works under it |
| DirectoryHazards.ReclaimIsSafeExactly | nebula_app/src/atomic_file.rs:59-75 | after a stale lock is removed, two holders are possible, and the loss of a saved visit is possible, if and only if a live process worked under that lock |
| DirectoryHazards.RemovedLockLosesVisit | nebula_app/src/atomic_file.rs:59-79 | whatever the owner of a removed lock is doing (locked, merging, renamed or releasing), some continuation without another fault loses a saved visit |
| DirectoryHazards.StolenLockLosesUpdates | nebula_app/src/atomic_file.rs:59-75 | whenever the lock of a merging process is stolen by one that saves, everything the thief saved is gone after the owner renames |
| DirectoryHazards.TheftHappens | nebula_app/src/atomic_file.rs:59-75 | a run without a fault from an empty disk that reaches such a theft |
| DirectoryHazards.ReclaimRaceHappens | nebula_app/src/atomic_file.rs:59-75 | a run in which the owner of the stale lock has crashed, one process reclaims it, and a second one that also found it stale removes the new lock and loses its save |
| DirectoryHazards.MisreportCountsTwice | nebula_app/src/atomic_file.rs:194-202 | after a save reported failed behind its rename, the next visit makes the file hold all of its observations a second time |
| DirectoryHazards.MisreportIsHarmlessExactly | nebula_app/src/atomic_file.rs:194-202 | such a save can lead to a file that counts too much if and only if it had observations to write |
| DirectoryHazards.DoubleCountHappens | nebula_app/src/atomic_file.rs:194-202 | a run from an empty disk after which two visits are counted as three |
| AtomicFile.StepKeeps | nebula_app/src/atomic_file.rs:25-51 | every step of every writer, failures and crashes included, keeps temporary files private and the destination whole |
| AtomicFile.DestinationIsNeverTorn | nebula_app/src/atomic_file.rs:25-51 | in every interleaving the destination holds its initial content or one whole payload, and no two writers at work share a temporary name |
| AtomicFile.LastRenameIsSeen | nebula_app/src/atomic_file.rs:25-51 | in every interleaving the destination holds the whole payload of the last rename, or what it held before when there was none |
| AtomicFile.NoLitter | nebula_app/src/atomic_file.rs:25-51 | a temporary file that was not there before belongs to a writer at work, or to a process that crashed or failed to remove it |
| AgentRules.ContainsAll | nebula_app/src/ai_agents.rs:863-865 | needles are searched in one lower-case copy, made only when a needle needs it and never replaced |
| AgentRules.MatchesWith | nebula_app/src/ai_agents.rs:862-871 | evaluation that shares one lazy lower-case copy equals evaluation in which every gate makes its own |
| AgentRules.GateByConditions | nebula_app/src/ai_agents.rs:862-871 | an empty gate holds, and each condition added to any gate restricts it by exactly its own test: needle, match, line match, gate required, gate forbidden |
| AgentRules.GateByAlternatives | nebula_app/src/ai_agents.rs:869 | of the alternatives of a gate one must hold, once there are any |
| AgentRules.DetectFromManifests | nebula_app/src/ai_agents.rs:704-728 | returns the detection of the first declared among the eligible rules of highest priority, and nothing exactly when none is eligible |
| AgentRules.ChoiceIsUnique | nebula_app/src/ai_agents.rs:722-725 | that rule is unique |
| AgentRules.RuleAlone | nebula_app/src/ai_agents.rs:709-721 | a rule for a blocked assistant detects on its region of a live attention window only, any other rule on its region of the whole screen |
| AgentRules.DetectedExactly | nebula_app/src/ai_agents.rs:704-728 | a detection is returned if and only if a rule gives it alone and no rule of higher priority, nor an earlier one of equal priority, detects anything alone |
| AgentRules.IdentifyFromManifests | nebula_app/src/ai_agents.rs:761-776 | for every iteration order: an agent is returned if and only if it alone claims the screen |
| AgentMemo.MemoTable.Lookup | nebula_app/src/ai_agents.rs:683-693 | another generation empties the table; otherwise the stored entry is the hit |
| AgentMemo.MemoTable.Publish | nebula_app/src/ai_agents.rs:695-699 | a full table is emptied before the result is stored |
| AgentMemo.StepKeeps | nebula_app/src/ai_agents.rs:633-701 | every lookup, publication and reload keeps every stored entry equal to the uncached result of its generation, and at most eight entries |
| AgentMemo.MemoRefinesKernel | nebula_app/src/ai_agents.rs:633-701 | the same over every interleaving |
| AgentMemo.ReturnsAreCurrent | nebula_app/src/ai_agents.rs:676-701 | what a call returns is the uncached result for the manifests in force when it returns |
| AgentMemo.PublishedIsRemembered | nebula_app/src/ai_agents.rs:695-699 | what a thread has just published is in the memo under the current generation |
| AgentMemo.MemoRemembers | nebula_app/src/ai_agents.rs:683-699 | until a reload, or a publication into a full memo, every lookup of a remembered key returns the uncached result at once |
| AgentMemo.DetectAndIdentifyEqualTheirKernels | nebula_app/src/ai_agents.rs:676-758 | in every run both memoized calls return what their uncached kernels return for the manifests they read |

## Left out

- DirectoryDatabase.AgedIsBounded: ranks are real numbers, so rounding of the program's 64-bit floats is not covered.
- DirectoryProtocol.SharedHistoryConserves: holds for runs without a stolen live lock and without a save of observations that fails after the rename; both exceptions have lemmas of their own.
- ShellNesting.ReportReconciles: scopes keep parent and words instead of their SHA-256 digest, so digest collisions are excluded.
- PathCompletion.CompletePaths: directory contents, name equality, the matcher and rendering are parameters; splitting the typed text into components is not covered. The matcher is only assumed to arrange the matching names, each once.
- AgentRules.DetectFromManifests: regular expressions, lower-casing and the cutting of screen regions are parameters; compiling manifests from TOML is not modelled.
- BackupRetention.PullLatest: restoring an archive by a given name is left out because it only checks the name.
- ShellNesting.PaneState.SwitchEnvironment: clearing the line also resets screen line, pending input and popup state, which are not part of the pane's model.
- DirectoryAging.VisitIsKeptExactly: needs at most one entry for the visited directory; KeySurvivesExactly covers a file that repeats it.
- ShellSyntax selection by program name and the home-expansion queries of a parsed context: one lookup each.
- How a command line is recognised as an SSH or WSL connection, and recording lines in the command history store: decided in other files, taken as parameters.
- Ranking of hints, path scores and file suggestions by frecency, and parsing of `cd` requests: filters and sorts over the modelled database.
- Reading the legacy history file: its usable lines are the observations a starting process is given.
- Lifetime locks held by an operating-system handle: nothing to prove without the kernel.
- Classifying hook payloads into answers: a match on JSON fields.
- Backup transports, credentials and encryption: the remote is a map from names to bytes.
- Poisoned locks, clocks and the two-second scan throttle: reloads may happen at any moment no reader is active.
