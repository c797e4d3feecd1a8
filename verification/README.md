# A verified model of Such

Such is a desktop file search: a public shell around a private search runtime. This
project models the algorithms and protocols of the shell in Dafny and proves what they
are for. `dafny verify dfyconfig.toml` checks everything.

- **Index snapshots.** `Crc32` is the checksum, compared with the published algorithm and
  proved to notice every change inside four bytes. `SnapshotFormat` is the transport
  format as a bijection; `SnapshotTransport`, `SnapshotExport` and `SnapshotImport` are the
  loops that stream it and the import that stages a tree, moves the old one aside and
  activates the new one, with a fault possible at every step.
- **Search roots.** `PathPolicy` holds the containment test on path keys, the noise
  directory prefix and the splitting of exclusions around the installed program.
  `RootService` changes root sets against a runtime that may refuse any call, rolls back,
  and cleans up in bounded batches.
- **Queries.** `SearchDialect` and `QueryFilter` split, classify and compile queries,
  `QueryMeaning` says what every kind of word stands for, `QueryRoundTrip` when a compiled
  query means the same, and `DrillSearch` is the
  staged plan that turns file stages into the candidates of a content search. `Utf8` and
  `HangulQuery` compose Hangul in content queries. `SearchableFiles` decides which names
  are shown.
- **Index workers.** `WorkerArguments` and `CommandLine` carry a request across the process
  boundary. `WorkerOwnership`, `WindowsFrontend` and `LinuxFrontend` are the rules for who
  may hold the persistent index, over every run of both frontends. `DailyRefresh` is the
  schedule of the daily refresh.
- **Tools.** `PackageClosure` is the dependency worklist of the offline bundle, and
  `ShellQuoting` the quoting of paths in generated shell scripts.

`Results`, `Text` and `Sequences` hold what the others share.

Classes stand for objects that the program updates in place. A method with loops is proved
equal to a function, and the lemmas are about that function. Where every intermediate
state matters, the state carries a ghost trace and the claim holds at each of its elements.
Outcomes of calls into the operating system and into the private runtime are chosen
arbitrarily, or are parameters.

Five results are conditions under which a promise holds, with an input that shows they are
needed: parsing a compiled query (relative ranges such as /week are cut to whole days),
the shortcut of Hangul composition (three trailing consonants are missing from it),
ownership in the Linux frontend (a row may be toggled beside a worker), tracking of workers
in both frontends (a wait may fail while the worker runs), and the closure of packages (the
last root of a package must name the package's own binary). The proofs also show what the
checksum cannot promise and which restarts break the hourly schedule.

## Model

| member | source | states |
|---|---|---|
| Crc32.Crc32Update | src/runtime/IndexSnapshot.cpp:104-114 | the two nested loops compute the CRC of all bytes seen so far, continued from any earlier register |
| Crc32.CrcConcat | src/runtime/IndexSnapshot.cpp:104-114 | checksumming in pieces is checksumming the whole, so any chunk size gives the same result |
| Crc32.CrcIsRfc1952 | src/runtime/IndexSnapshot.cpp:104-114 | the bitwise register loop equals the table-driven CRC of section 8 of RFC 1952, for every start value and every byte string |
| Crc32.PolynomialConstant | src/runtime/IndexSnapshot.cpp:110 | the bit pattern used in the proofs is the constant 0xedb88320 |
| Crc32.WindowChangesCrc | src/runtime/IndexSnapshot.cpp:104-114 | two different byte strings of one length that differ only inside four consecutive bytes have different CRCs |
| Crc32.FiveBytesMayCollide | src/runtime/IndexSnapshot.cpp:104-114 | for every start value two five-byte strings collide, so a window of four is the most that can be promised |
| SnapshotFormat.ParseEncode | src/runtime/IndexSnapshot.cpp:211-239 | reading back any well-formed snapshot gives its roots, its generation and its entries in order |
| SnapshotFormat.EncodeParse | src/runtime/IndexSnapshot.cpp:273-327 | whatever bytes are accepted are the encoding of what was read from them, and what was read is well-formed |
| SnapshotFormat.AcceptedIffEncoding | src/runtime/IndexSnapshot.cpp:273-327 | the accepted files are exactly the encodings of well-formed snapshots |
| SnapshotFormat.CorruptionDetected | src/runtime/IndexSnapshot.cpp:296-312 | damage inside one payload and inside four consecutive bytes is always reported as a checksum mismatch of that entry |
| SnapshotFormat.ValidIffTravelsSafely | src/runtime/IndexSnapshot.cpp:203-209 | a name is accepted exactly when it is not empty, does not start with a slash, and no part of it between two boundaries (start, slash or end) is one dot or two dots |
| SnapshotFormat.HeaderLayout | src/runtime/IndexSnapshot.cpp:357-371 | where the magic word, version, number of roots, generation and number of entries stand in every file, and in how many little-endian bytes |
| SnapshotFormat.EntryLayout | src/runtime/IndexSnapshot.cpp:372-404 | where the name, the length, the checksum and the payload of an entry stand |
| SnapshotTransport.AssembleInteger | src/runtime/IndexSnapshot.cpp:69-87 | or-ing bytes shifted to their places gives the little-endian value |
| SnapshotTransport.ReadHeader | src/runtime/IndexSnapshot.cpp:211-239 | streaming reads accept and reject headers exactly as the format says, with the same error |
| SnapshotTransport.CheckPayload | src/runtime/IndexSnapshot.cpp:296-312 | the chunk loop yields the CRC of the whole payload, or fails exactly when the file is too short, for any buffer size |
| SnapshotTransport.InspectEntry | src/runtime/IndexSnapshot.cpp:283-319 | one round of the inspection loop reads one entry as the format says, with the same errors in the same order |
| SnapshotTransport.Inspect | src/runtime/IndexSnapshot.cpp:273-327 | inspecting a file reports what the format says it holds, or the format's error, for any buffer size |
| SnapshotExport.Collect | src/runtime/IndexSnapshot.cpp:148-201 | success returns every regular file that is not excluded, in order, within both limits; a symbolic link anywhere is an error, and the limit errors have their reason |
| SnapshotExport.ExcludedMeans | src/runtime/IndexSnapshot.cpp:116-123 | in any directory, a file is left out exactly when its name has the extension lock or tmp, or ends in .new, or is empty |
| SnapshotExport.SelectedArePicked | src/runtime/IndexSnapshot.cpp:148-201 | what is selected are exactly the regular files that are not left out, at increasing positions of the listing |
| SnapshotExport.ChecksumContents | src/runtime/IndexSnapshot.cpp:378-385 | the read-until-short loop computes the CRC of the whole file |
| SnapshotExport.CopyFrom | src/runtime/IndexSnapshot.cpp:390-404 | the copy loop writes exactly the announced bytes, or fails exactly when the file has become too short |
| SnapshotExport.Export | src/runtime/IndexSnapshot.cpp:329-428 | success means that the published bytes are the header and one entry for every selected file; it fails only for a symbolic link, for something the format or the limits cannot carry, for a file that cannot be read or changed, or because writing failed |
| SnapshotExport.ExportReadableIff | src/runtime/IndexSnapshot.cpp:329-428 | a published file can be read back exactly when every root and every file is one the format can carry and no file changed visibly while it was copied; it then holds those roots and payloads |
| SnapshotImport.AcceptedNamesStayInside | src/runtime/IndexSnapshot.cpp:203-209 | walking the components of an accepted name never climbs out of the directory and ends at the place that is written |
| SnapshotImport.StagePayload | src/runtime/IndexSnapshot.cpp:492-516 | copying and checking in chunks leaves the file with exactly the payload and computes its CRC, and touches nothing outside the staging directory |
| SnapshotImport.StageTree | src/runtime/IndexSnapshot.cpp:451-528 | success leaves in the staging directory exactly the files of the snapshot; failure is the format's error, or a fault, or a clash of names |
| SnapshotImport.LastPayloadCounts | src/runtime/IndexSnapshot.cpp:451-528 | among entries of the same name the last payload is the one that is staged |
| SnapshotImport.MoveAside | src/runtime/IndexSnapshot.cpp:530-545 | at every point the old state is at the state path, or complete at the backup path |
| SnapshotImport.Activate | src/runtime/IndexSnapshot.cpp:530-555 | at every point the old state or the complete new tree is in place; failure restores the old state unless the rollback rename failed too, and then the backup is intact |
| SnapshotImport.Import | src/runtime/IndexSnapshot.cpp:430-559 | with every step allowed to fail: safety at every point, exactly the snapshot's files on success, the old state on failure (or the intact backup after two rename faults), and a reason for every failure |
| PathPolicy.PosixKeyWithin | src/runtime/IndexPathPolicy.cpp:64-73 | on keys of normalised POSIX paths the string test is the prefix order on components, the root included |
| PathPolicy.WindowsKeyWithin | src/runtime/IndexPathPolicy.cpp:64-73 | the same for keys that start with a drive |
| PathPolicy.DefaultNoiseDirectoryPrefix | src/runtime/IndexPathPolicy.cpp:300-336 | the three nested scans return what the recursive search returns |
| PathPolicy.NoisePrefixIsOutermost | src/runtime/IndexPathPolicy.cpp:293-336 | the prefix ends at the outermost component equal to the noise name, and there is none only if no component equals it |
| PathPolicy.ExclusionList.AppendUnique | src/runtime/IndexPathPolicy.cpp:86-92 | a value is appended exactly when it is not empty and not yet in the list |
| PathPolicy.ExclusionList.AppendChildrenExcept | src/runtime/IndexPathPolicy.cpp:143-161 | adds exactly the listed children other than reparse points and the allowed child |
| PathPolicy.SplitAroundInstall | src/runtime/IndexPathPolicy.cpp:251-272 | the walk up from the installed program ends, and the new list holds exactly the kept exclusions and the siblings beside the way |
| PathPolicy.SplitIsSound | src/runtime/IndexPathPolicy.cpp:251-272 | whatever the scans saw, the new list never covers the program, anything inside it or above it, nor anything the old list did not cover |
| PathPolicy.SplitIsExact | src/runtime/IndexPathPolicy.cpp:251-272 | where the scans were complete, a path is covered exactly when it was covered before and is neither inside the program nor above it |
| PathPolicy.PlanRoot | src/runtime/IndexPathPolicy.cpp:501-560 | on Windows: refused with exactly the first reason that applies; otherwise exactly the fixed exclusions strictly below the root, and none for the installed program or an explicitly chosen AppData root |
| PathPolicy.PlanRootSet | src/runtime/IndexPathPolicy.cpp:572-609 | refused exactly when some root is refused, with its reason; otherwise the distinct union of the plans without anything related to an explicitly chosen AppData root |
| RootService.UniqueIsFirstOccurrences | src/runtime/IndexRootService.cpp:114-126 | removing duplicates keeps the first occurrence of every key, in order, and a root is explicit when any of its duplicates was |
| RootService.RemoveDuplicates | src/runtime/IndexRootService.cpp:114-126 | the loop with its in-place upgrade computes that list |
| RootService.PrepareRootSet | src/runtime/IndexRootService.cpp:111-149 | the prepared set is that list with its plan, or the planner's refusal |
| RootService.ReinstallKeepsRoots | src/runtime/IndexRootService.cpp:483-502 | preparing the current roots again keeps the root list when it has no duplicate keys |
| RootService.Service.ApplyExclusions | src/runtime/IndexRootService.cpp:151-167 | exclusions only grow, only by planned ones, and by all of them on success; roots stay as they are |
| RootService.Service.ApplyPrepared | src/runtime/IndexRootService.cpp:220-241 | after the reset no root is visible before all planned exclusions are in place, at every state of the runtime; success installs exactly roots and exclusions |
| RootService.Service.RollbackRoots | src/runtime/IndexRootService.cpp:243-266 | reports success only when the previous roots are installed with the policy they have today, and obeys the same order while doing so |
| RootService.Service.SeedRootSet | src/runtime/IndexRootService.cpp:268-277 | ends installed, or restored, or reporting a failed rollback, with the order kept throughout |
| RootService.Service.ReplaceRoots | src/runtime/IndexRootService.cpp:426-443 | refusals leave the runtime untouched; otherwise the ending of an installation for the deduplicated request, whatever the earlier state; any error but a refusal has a failed call of the runtime behind it |
| RootService.Service.ReindexAsync | src/runtime/IndexRootService.cpp:483-502 | the same for the current roots; an empty root list is only crawled again |
| RootService.Service.AddRoot | src/runtime/IndexRootService.cpp:387-424 | a new root becomes visible only when all exclusions planned for the whole set are in place; an explicit AppData root is installed by a reset |
| RootService.Service.RemoveRoot | src/runtime/IndexRootService.cpp:445-481 | success removes exactly that root, keeps the order of the others and adds the exclusions planned for them; a failed change leaves the roots as they were or without exactly that root, and has a failed call of the runtime behind it |
| RootService.WithoutIsPicked | src/runtime/IndexRootService.cpp:445-481 | the roots that stay after a removal are exactly the others, at increasing positions |
| RootService.WithoutKeyIsPicked | src/runtime/IndexRootService.cpp:445-461 | and so are the roots planned for, by their keys |
| RootService.Service.RequestMaintenance | src/runtime/IndexRootService.cpp:279-287 | starts a fresh request when the service maintains at all |
| RootService.Service.ScrubOneBatch | src/runtime/IndexRootService.cpp:302-376 | one poll calls the runtime for at most 16 paths, the next ones of the plan for the roots at the time of planning, and only once the whole plan has been tried for noise prefixes of the current name, of which it accepts at most 16 new ones; exclusions grow by exactly what was accepted. On an idle runtime the budget strictly decreases; the poll ends early only after 16 planned paths or a failure, and otherwise makes one search for the current name, tries every new prefix of its rows unless 16 were hidden, and moves on exactly when none was |
| RootService.Service.HidePrefixes | src/runtime/IndexRootService.cpp:346-368 | tries only given prefixes that do not touch the program, and all new ones of them unless 16 were accepted; none is accepted twice |
| RootService.Service.BudgetOfRequest | src/runtime/IndexRootService.cpp:302-376 | a request over F planned exclusions and possible prefixes P has the budget max(0, ceil(F/16) - 1) + P + 3 |
| RootService.Service.RunPolls | src/runtime/IndexRootService.cpp:302-376 | for any sequence of polls that the environment makes idle or busy: over after at most the budget of idle polls; what the runtime was called for is the next part of the plan and then noise prefixes, of which none was accepted twice; roots stay, and exclusions are within the old ones, the plan and the hidden prefixes |
| RootService.Service.DrainMaintenance | src/cli/CliApp.cpp:213-219 | the worker's bounded loop finishes maintenance whenever the budget is within the poll limit, and calls the runtime for nothing else than such polls do |
| RootService.PrefixHasOneTerm | src/runtime/IndexPathPolicy.cpp:293-336 | no prefix belongs to two noise names, so a prefix is not hidden under different ones either |
| SearchDialect.SplitDetail | src/ui/SearchDialect.cpp:65-78 | the loop returns the trimmed pieces between separators, and is active exactly when there are several |
| SearchDialect.SplitAtSeparator | src/ui/SearchDialect.cpp:65-78 | text without a separator is one trimmed stage, and the first separator ends the first stage |
| SearchDialect.StagesAreStages | src/ui/SearchDialect.cpp:65-78 | every piece is trimmed and free of separators |
| SearchDialect.SplitRejoined | src/runtime/RuntimeClient.cpp:615-619 | splitting stages that were joined again gives the same stages |
| QueryFilter.ParseWords | src/ui/SearchDialect.cpp:315-363 | the word loop with its set of seen extensions folds the classification over the words |
| QueryFilter.ParseQuery | src/ui/SearchDialect.cpp:293-377 | the whole parser, with the refinements' terms, is that fold over the flattened stages |
| QueryFilter.CompileRuntimeQuery | src/ui/SearchDialect.cpp:483-505 | the compiler writes the filter's words with single spaces |
| QueryMeaning.RelativeQueries | src/ui/SearchDialect.cpp:252-266 | in both dialects and in any case of letters: today and yesterday are that whole local day; week, month and year last from 7, 30 and 365 days ago up to the second after now |
| QueryMeaning.DayQueries | src/ui/SearchDialect.cpp:267-286 | a written day, alone or behind date:, lasts from its first second to its end; behind after: and before: its first second is that bound alone |
| QueryMeaning.MonthQuery | src/ui/SearchDialect.cpp:287-290 | a written month lasts from its first second up to the first second of the next month, December included |
| QueryMeaning.CompactDayQuery | src/ui/SearchDialect.cpp:168-217 | eight digits, in either order of the date and behind up to two slashes, are that whole day |
| QueryMeaning.CompactRangeQuery | src/ui/SearchDialect.cpp:168-217 | two compact days with a range sign last from the first up to the start of the day after the last |
| QueryMeaning.LastDateCounts | src/ui/SearchDialect.cpp:250-291 | of several dates in a query each bound is the last one given, so after: keeps an earlier upper bound |
| QueryMeaning.QueryMeans | src/ui/SearchDialect.cpp:293-377 | a query looks inside files, or wants pinned ones, exactly when a word spells that control; its extensions are exactly those its words ask for, all of them registered; its text is the words that mean nothing else, in order |
| QueryMeaning.ExtensionQuery | src/ui/SearchDialect.cpp:219-248 | a registered extension behind the prefix is a wish for it, in lower case, unless it is a control word |
| QueryMeaning.TermsAreTexts | src/ui/SearchDialect.cpp:370-375 | the terms are the texts of the refinements, each parsed alone, without the empty ones and in order |
| QueryRoundTrip.ReadBackIffMidnight | src/ui/SearchDialect.cpp:472-481 | a bound written as a day is read back as itself exactly when it is the midnight of a day from 1970 to 9999 |
| QueryRoundTrip.RunCompiled | src/ui/SearchDialect.cpp:483-505 | whatever the bounds: reading the compiled words gives the same words, extensions and pin, each bound becomes the second that stands for its day, and a day that cannot be read comes back as text |
| QueryRoundTrip.ParseCompileRoundTrip | src/ui/SearchDialect.cpp:483-505 | for any query, dialect, calendar, times and registered extensions: parsing the compiled filter gives the filter in file scope without detail terms exactly when its bounds are such midnights |
| QueryRoundTrip.ConstraintsRoundTrip | src/runtime/RuntimeClient.cpp:523-533 | the same for the query of constraints that a direct content search compiles |
| QueryRoundTrip.WeekIsLost | src/ui/SearchDialect.cpp:258-266 | a relative range does not survive unless the second after now is a midnight |
| DrillSearch.Client.SearchFiles | src/runtime/RuntimeClient.cpp:435-498 | filters come before the cap: the result is the first items of everything the filters let through |
| DrillSearch.FileResultsAreWanted | src/runtime/RuntimeClient.cpp:451-493 | the results are exactly the rows that the filter wants, at increasing positions: a name that may be shown, a pin if asked for, one of the extensions up to case and a leading dot, a time from after up to but not including before, and every term in the name or in the path |
| DrillSearch.CandidateMembers | src/runtime/RuntimeClient.cpp:631-636 | a candidate id is the id of an indexed text file among the results, and every such id is a candidate |
| DrillSearch.CandidatesArePicked | src/runtime/RuntimeClient.cpp:631-636 | the candidates keep the order of the results they come from |
| DrillSearch.Client.SearchContent | src/runtime/RuntimeClient.cpp:500-584 | a content search answers at once or makes exactly one request, with the ids its plan says |
| DrillSearch.Client.Search | src/runtime/RuntimeClient.cpp:586-654 | one search carries out its plan: at most one request, with the plan's text and ids, and the text files among its hits up to the cap |
| DrillSearch.FilesUnlessInside | src/runtime/RuntimeClient.cpp:590-654 | a query lists files exactly when none of its stages searches inside files and the file search works |
| DrillSearch.TextHitsArePicked | src/runtime/RuntimeClient.cpp:577-583 | the hits that are shown are exactly the text files among the hits, in order |
| DrillSearch.InsideMustBeLast | src/runtime/RuntimeClient.cpp:597-610 | the error about /inside is reported exactly when a stage other than the last one has it |
| DrillSearch.StagedSearchAsks | src/runtime/RuntimeClient.cpp:590-647 | a staged search asks with exactly the indexed text files among all results of the preceding stages, never with none, and the rejoined query has exactly those stages |
| DrillSearch.UnrestrictedIffUnconstrained | src/runtime/RuntimeClient.cpp:523-566 | a request is unrestricted exactly when the query has one stage and asks for no pin, no extension and no date, so an empty candidate set never turns into an unrestricted search |
| DrillSearch.DrillIsSound | src/runtime/RuntimeClient.cpp:590-647 | if the engine honours candidates, every hit of a staged search is a searchable result of the preceding file search |
| DrillSearch.ConstraintsSelectCandidates | src/runtime/RuntimeClient.cpp:523-551 | the candidates of a direct content search all satisfy its constraints when the date bounds are midnights |
| WorkerArguments.EncodeHex | src/runtime/IndexWorkerLauncher.cpp:49-59 | two lower-case digits for every byte, high half first |
| WorkerArguments.DecodeWorkerPath | src/cli/CliApp.cpp:119-137 | the pair loop decodes as specified and refuses odd lengths and other characters |
| WorkerArguments.HexRoundTrip | src/cli/CliApp.cpp:126-137 | every path is decoded from its encoding |
| WorkerArguments.HexDigitsAt | src/runtime/IndexWorkerLauncher.cpp:49-59 | the digits of byte i stand at 2i and 2i + 1, its high half first |
| WorkerArguments.DecodedPairs | src/cli/CliApp.cpp:119-137 | exactly the texts of an even number of hexadecimal digits of either case are decoded, each pair to one byte |
| WorkerArguments.BuildArguments | src/runtime/IndexWorkerLauncher.cpp:70-79 | operation, shard option, one argument for every root in order, and on Windows the diagnostic path last |
| WorkerArguments.ArgumentsExample | src/runtime/IndexWorkerLauncher.cpp:61-79 | three requests with their arguments spelled out |
| WorkerArguments.RunIndexWorker | src/cli/CliApp.cpp:149-177 | the argument loop reads as specified, each option at most once, and gives up before touching any state otherwise |
| WorkerArguments.WorkerUnderstandsLauncher | src/runtime/IndexWorkerLauncher.cpp:123-138 | the worker accepts the arguments of a request exactly when the launcher validates it (a shard count below -1 is not sent), and then reads the same operation, roots, shard mode and diagnostic path |
| WorkerArguments.AcceptedIsValid | src/cli/CliApp.cpp:149-177 | whatever the worker accepts is a request the launcher would have validated |
| CommandLine.QuoteWindowsArgument | src/runtime/IndexWorkerLauncher.cpp:91-115 | the loop with its running count of backslashes computes the quoted form |
| CommandLine.ReadQuoted | src/runtime/IndexWorkerLauncher.cpp:91-115 | under the documented backslash and quote rules a quoted argument is read as that argument, after any earlier ones |
| CommandLine.SplitLine | src/runtime/IndexWorkerLauncher.cpp:91-115 | any list of arguments comes back from the line it was quoted into |
| CommandLine.BuildCommand | src/runtime/IndexWorkerLauncher.cpp:180-184 | the command line is the quoted program followed by the quoted arguments, separated by spaces |
| CommandLine.TakeApartCommand | src/runtime/IndexWorkerLauncher.cpp:180-184 | the started program sees its own name and exactly the arguments |
| CommandLine.LaunchedWorkerUnderstands | src/runtime/IndexWorkerLauncher.cpp:165-187 | from a validated request over the command line to the same operation, roots, shard mode and diagnostic path |
| WorkerOwnership.Desktop.Poll | src/runtime/IndexWorkerLauncher.cpp:296-324 | a running worker keeps its ticket; an ended one, or a failed wait, gives it up with a code |
| WorkerOwnership.Desktop.LaunchTracked | src/runtime/IndexWorkerLauncher.cpp:142-232 | an earlier ticket is given up first, and the ticket is set exactly when a process was started |
| WorkerOwnership.OnlyTrackedIffTruthful | src/runtime/IndexWorkerLauncher.cpp:296-324 | when workers start only without a ticket and a handle, no process but the tracked one runs at any point exactly when every worker that was taken for ended had ended |
| WindowsFrontend.Frontend.ReloadAfterWorker | platform/windows/Win32Frontend.cpp:796-844 | the old handle is closed first, and the new one is writable exactly for exit code 0; a success is recorded only for that and a clean status |
| WindowsFrontend.Frontend.PollWorkerAndReload | platform/windows/Win32Frontend.cpp:846-867 | nothing changes while the worker runs; afterwards the runtime is reloaded for its exit code |
| WindowsFrontend.Frontend.StartIndexWorker | platform/windows/Win32Frontend.cpp:869-917 | refused beside a running worker; otherwise the handle is closed, the worker started and a reader opened, or the runtime reloaded read-only |
| WindowsFrontend.Frontend.OnTimer | platform/windows/Win32Frontend.cpp:1981-2033 | polls first, and schedules a refresh only with a handle and without a ticket |
| WindowsFrontend.Frontend.HandleEvents | platform/windows/Win32Frontend.cpp:1979-2047 | any sequence of events leaves the run that the specification describes |
| WindowsFrontend.Frontend.Destroy | platform/windows/Win32Frontend.cpp:2044-2047 | ends without a ticket and without a handle |
| WindowsFrontend.EveryRunIsExclusive | platform/windows/Win32Frontend.cpp:796-917 | at every point of every run: ticket valid means handle absent or read-only; a worker starts only with neither; writable handles are opened at program start or right after exit code 0 was observed; success is recorded only then; a refresh is scheduled without a worker and after something was recorded of every earlier one |
| WindowsFrontend.EndIsHandled | platform/windows/Win32Frontend.cpp:796-867 | in every run: exit code 0 and a clean load are followed at once by closing, opening for writing and, in a daily run, recording a success; any other code or load by a reader and a failure |
| WindowsFrontend.EndedWorkerIsReloaded | platform/windows/Win32Frontend.cpp:796-867 | the exact actions that follow an observed end |
| WindowsFrontend.RunningWorkerIsLeftAlone | platform/windows/Win32Frontend.cpp:846-878 | while the worker runs, ticks and requests do nothing |
| WindowsFrontend.RequestStarts | platform/windows/Win32Frontend.cpp:869-917 | unless a worker runs, a valid request that can be started closes the handle, starts a worker, opens a reader and records an attempt; any other ends with a reader and a recorded failure |
| WindowsFrontend.TickActs | platform/windows/Win32Frontend.cpp:1981-2033 | unless a worker runs, a tick starts the refresh exactly when it is due in a daily run and a runtime is open, and with exactly these actions |
| WindowsFrontend.NoWorkerIsLostIff | platform/windows/Win32Frontend.cpp:796-917 | at every point of a run at most the tracked worker runs, and none while the frontend could write, exactly when no event takes the tracked worker for ended while it runs |
| WindowsFrontend.FailedWaitLosesAWorker | src/runtime/IndexWorkerLauncher.cpp:301-309 | a run in which one wait fails beside a running worker and the frontend ends up writable while that worker runs |
| LinuxFrontend.Frontend.LoadRuntime | src/runtime/RuntimeClient.cpp:286-296 | loading a loaded client does nothing and succeeds |
| LinuxFrontend.Frontend.ReloadAfterWorker | platform/linux/X11Frontend.cpp:493-520 | loads, refreshes the rows and records the outcome; a failed load records nothing |
| LinuxFrontend.Frontend.StartIndexWorker | platform/linux/X11Frontend.cpp:531-574 | refused beside a running worker; otherwise unloads, clears the rows and starts the worker, or loads again |
| LinuxFrontend.Frontend.OnIdle | platform/linux/X11Frontend.cpp:1123-1160 | polls, refreshes changed rows, and schedules a refresh only when loaded and without a ticket |
| LinuxFrontend.Frontend.PerformToggle | platform/linux/X11Frontend.cpp:663-691 | pinning or hiding a shown row loads the client when it is not loaded |
| LinuxFrontend.Frontend.HandleEvents | platform/linux/X11Frontend.cpp:1108-1160 | any sequence of events leaves the window and run that the specification describes |
| LinuxFrontend.HandleGood | platform/linux/X11Frontend.cpp:663-691 | an event keeps the rules of ownership exactly unless it toggles a shown row while a worker is tracked and the client can load |
| LinuxFrontend.RunSafeIff | platform/linux/X11Frontend.cpp:493-574 | a whole run obeys the rules at every action exactly when no event does that |
| LinuxFrontend.RunIsExclusive | platform/linux/X11Frontend.cpp:493-574 | at every point of such a run the runtime is unloaded while the ticket is valid |
| LinuxFrontend.EndIsHandled | platform/linux/X11Frontend.cpp:493-529 | in such runs: exit code 0 and a clean load are followed at once by loading and, in a daily run, recording a success; any other code or status by a failure |
| LinuxFrontend.EndedWorkerIsReloaded | platform/linux/X11Frontend.cpp:493-529 | the exact actions that follow an observed end, loaded or not |
| LinuxFrontend.RequestStarts | platform/linux/X11Frontend.cpp:531-574 | unless a worker runs, a valid request that can be started unloads, starts a worker and records an attempt; any other loads again; the rows are gone either way |
| LinuxFrontend.TickActs | platform/linux/X11Frontend.cpp:1123-1160 | unless a worker runs, a tick starts the refresh exactly when it is due in a daily run and the runtime is loaded, and with exactly these actions |
| LinuxFrontend.TickShows | platform/linux/X11Frontend.cpp:1123-1143 | rows are looked up again exactly after the end of a worker or a change of the index, and only when loaded |
| LinuxFrontend.NoWorkerIsLostIff | platform/linux/X11Frontend.cpp:493-574 | at every point of such a run at most the tracked worker runs, and none while the runtime is loaded, exactly when no event takes the tracked worker for ended while it runs |
| LinuxFrontend.RowsBesideWorkerArePicked | platform/linux/X11Frontend.cpp:446-476 | in such runs, rows that can be toggled beside a tracked worker come from a folder picker |
| LinuxFrontend.TogglesCanBreakOwnership | platform/linux/X11Frontend.cpp:671-691 | the run that breaks the rule: a picker row is pinned beside a worker, and the frontend holds a writable runtime while the worker runs |
| Utf8.DecodeUtf8 | src/ui/HangulQueryNfc.cpp:17-42 | the index-driven loop decodes as specified and fails at the first malformed character |
| Utf8.DecodesExactlyWellFormed | src/ui/HangulQueryNfc.cpp:17-42 | accepted are exactly the byte strings of the grammar in section 4 of RFC 3629 |
| Utf8.EncodeOfDecode | src/ui/HangulQueryNfc.cpp:17-58 | encoding what was decoded gives the same bytes, and only scalar values are decoded |
| Utf8.DecodeOfEncode | src/ui/HangulQueryNfc.cpp:17-58 | decoding encoded scalar values gives the same values |
| Utf8.AppendUtf8 | src/ui/HangulQueryNfc.cpp:43-60 | appends the one to four bytes of a code point |
| HangulQuery.ComposeInPlace | src/ui/HangulQueryNfc.cpp:72-89 | the loop that rewrites the last element composes as specified |
| HangulQuery.DecomposeOfCompose | src/ui/HangulQueryNfc.cpp:72-89 | composing keeps the canonical decomposition of section 3.12 of the Unicode Standard |
| HangulQuery.ComposeOfDecompose | src/ui/HangulQueryNfc.cpp:72-89 | composing the decomposition gives the same as composing |
| HangulQuery.ComposeDecidesEquivalence | src/ui/HangulQueryNfc.cpp:72-89 | two texts compose to the same text exactly when they decompose to the same text |
| HangulQuery.ComposeSettles | src/ui/HangulQueryNfc.cpp:72-89 | no two neighbours of the result could be composed |
| HangulQuery.ComposeIsTheSettledForm | src/ui/HangulQueryNfc.cpp:72-89 | the result is the only text with the same decomposition and no composable neighbours |
| HangulQuery.KnownSyllable | src/ui/HangulQueryNfc.cpp:72-89 | U+1112 U+1161 U+11AB compose to U+D55C, which decomposes into them |
| HangulQuery.ComposeHangulQueryNfc | src/ui/HangulQueryNfc.cpp:62-94 | the whole function on bytes, with the shortcut and the malformed case |
| HangulQuery.ComposeQueryIdempotent | src/ui/HangulQueryNfc.cpp:62-94 | applying it twice is applying it once, for every byte string |
| HangulQuery.PairIffSearched | src/ui/HangulQueryNfc.cpp:63-66 | in well-formed text the searched-for byte pairs occur exactly when there is a code point from U+1100 up to but not including U+11C0 |
| HangulQuery.ShortcutIsFullIff | src/ui/HangulQueryNfc.cpp:63-66 | the shortcut agrees with full composition exactly unless the text is well-formed, has none of the pairs, and has a syllable without trailing consonant followed by U+11C0, U+11C1 or U+11C2 |
| HangulQuery.ShortcutIsFullWithoutLateTrailing | src/ui/HangulQueryNfc.cpp:63-66 | so it agrees for every input without the bytes E1 87 80 to E1 87 82 |
| HangulQuery.ShortcutMissesLateTrailing | src/ui/HangulQueryNfc.cpp:63-66 | the bytes of U+AC00 U+11C0 are left alone though they compose to U+AC19 |
| PackageClosure.InstalledPackages | scripts/build_linux_offline_bundle.py:79-94 | real names are overwritten and virtual names kept, as in the specification |
| PackageClosure.TableConsistent | scripts/build_linux_offline_bundle.py:79-94 | the package of every provider is itself a name provided by that package |
| PackageClosure.ResolveClosure | scripts/build_linux_offline_bundle.py:120-148 | the worklist ends, whatever the tables, and returns what the recursive specification returns |
| PackageClosure.FirstInstalledIsFirst | scripts/build_linux_offline_bundle.py:132-143 | the alternative that is taken is installed and none before it is, and there is none exactly when no alternative is installed |
| PackageClosure.ClosureIsLeast | scripts/build_linux_offline_bundle.py:120-148 | for any dependencies, when the last root of every package is canonical or some root is not installed: the result is the least set with the roots' packages that holds, for every group of a member, the provider of the alternative that is installed and has no installed one before it; the program aborts exactly when a root or a whole group of a needed package is not installed |
| PackageClosure.LeastIffLastAreCanonical | scripts/build_linux_offline_bundle.py:79-148 | for any installed packages and roots: the worklist returns that least set, or aborts for that reason, for all dependencies exactly under this condition |
| PackageClosure.OrderCanMatter | scripts/build_linux_offline_bundle.py:79-148 | with two architectures of a package installed, one of which provides a virtual root, the result depends on the order of the roots |
| DailyRefresh.LoadAfterPersist | src/runtime/DailyIndexRefresh.cpp:49-103 | loading what was written gives the same two times |
| DailyRefresh.StateTextExample | src/runtime/DailyIndexRefresh.cpp:79-103 | the text of one state spelled out |
| DailyRefresh.DailyIndexRefresh.Load | src/runtime/DailyIndexRefresh.cpp:49-71 | takes over a well-formed file, starts from zero without one, and refuses a malformed one; the file is never changed |
| DailyRefresh.DailyIndexRefresh.Due | src/runtime/DailyIndexRefresh.cpp:72-78 | due exactly with roots, without a worker, a day after the last success and an hour after the last attempt, and never before either of them |
| DailyRefresh.DailyIndexRefresh.RecordFailure | src/runtime/DailyIndexRefresh.cpp:115-119 | moves the last attempt and leaves the last success |
| DailyRefresh.DailyIndexRefresh.RecordAttempt | src/runtime/DailyIndexRefresh.cpp:104-108 | moves the last attempt and leaves the last success |
| DailyRefresh.DailyIndexRefresh.RecordSuccess | src/runtime/DailyIndexRefresh.cpp:109-114 | moves both |
| DailyRefresh.EventsAreRecorded | src/runtime/DailyIndexRefresh.cpp:104-119 | what each event of a run leaves in the state |
| DailyRefresh.RefreshesAreThrottled | src/runtime/DailyIndexRefresh.cpp:72-119 | over every run with restarts, from any file: scheduled refreshes are an hour apart, so W seconds hold at most W / 3600 + 1 |
| DailyRefresh.SuccessRestsADay | src/runtime/DailyIndexRefresh.cpp:72-119 | no scheduled refresh starts within a day of any success recorded before |
| DailyRefresh.RestartBreaksTheHourIff | src/runtime/DailyIndexRefresh.cpp:49-78 | a restart within an hour of a scheduled start can be followed by another start in that hour exactly when the file is missing, or holds an older attempt and no success that rules the hour out |
| DailyRefresh.UnsavedStartIsForgotten | src/runtime/DailyIndexRefresh.cpp:79-103 | a run in which a record could not be saved and a restart starts again at once |
| ShellQuoting.ShellQuotePosix | src/ui/AgentLauncher.cpp:73-81 | the loop writes the quoted form |
| ShellQuoting.QuoteIsLiteral | src/ui/AgentLauncher.cpp:73-81 | wherever nothing is open, a quoted value adds exactly its characters to the current word, all of them quoted, and leaves nothing open |
| ShellQuoting.QuoteInContext | src/ui/AgentLauncher.cpp:73-81 | what stands before and after a quoted value is read independently of the value |
| ShellQuoting.ScriptIsRead | src/ui/AgentLauncher.cpp:145-150 | the script's cd has the working directory as its one argument, and the helper's path is the value of its variable |
| ShellQuoting.CommandIsRead | src/ui/AgentLauncher.cpp:191 | the terminal's command string is bash, its option and the whole script |
| ShellQuoting.WorkingDirectorySurvivesBothLevels | src/ui/AgentLauncher.cpp:145-191 | both levels together: any working directory arrives unchanged through the script inside the command string |
| SearchableFiles.EqualsAsciiCi | src/runtime/SearchableFiles.cpp:12-17 | equality up to the case of ASCII letters |
| SearchableFiles.TableHas | src/runtime/SearchableFiles.cpp:79-99 | for every sorted lower-case table, with signed or unsigned characters, the binary search finds a suffix exactly when its lower-case form is in the table |
| SearchableFiles.SearchableFilename | src/runtime/SearchableFiles.cpp:64-100 | the verdict is that of Admitted, whose meaning the following rows give; the supplied extension does not matter |
| SearchableFiles.SearchableTextFilename | src/runtime/SearchableFiles.cpp:104-132 | the verdict for text; admitted as text means admitted as a file, and a name or suffix for text |
| SearchableFiles.ExtensionDecides | src/runtime/SearchableFiles.cpp:64-100 | in any directory, a name with an extension is admitted exactly when the table has the extension in any case, or the whole name is special |
| SearchableFiles.NameDecides | src/runtime/SearchableFiles.cpp:64-100 | a name without a dot, or with nothing behind its last dot, is admitted exactly when it is special |
| SearchableFiles.TextExtensionDecides | src/runtime/SearchableFiles.cpp:104-132 | for text the extension must be in the table and in the list for text, or the name special |
| SearchableFiles.TextNameDecides | src/runtime/SearchableFiles.cpp:104-132 | the same for names without extension |
| SearchableFiles.NamedInAnyCase | src/runtime/SearchableFiles.cpp:12-17 | special names and list entries are compared without regard to the case of letters |

## Left out

- RootService.Runtime: the private runtime is a root list, an exclusion table and a busy flag; a call that fails is assumed to change nothing, ids, generations and the crawl itself are not modelled.
- RootService.Service.RunPolls: the prefixes that searches can lead to are a fixed finite set for each noise name; a runtime that keeps producing new ones is outside the claim; the plan of a root set is a parameter of the service.
- PathPolicy.SplitAroundInstall: paths are sequences of components after normalisation; `std::filesystem` normalisation, case folding and the known Windows folders are not modelled.
- PathPolicy.PlanRoot: the known folders, the test for protected trees and the list of fixed exclusions are parameters; other platforms check only for empty and noise roots and plan nothing; discovering noise directories by walking the disk is not modelled.
- SnapshotFormat.CorruptionDetected: changes outside payloads (names, sizes, counts) are not claimed to be noticed.
- SnapshotImport.AcceptedNamesStayInside: names are byte strings split at `/`; drive letters and backslashes of Windows paths are not modelled.
- SnapshotImport.Import: directories are maps from names to bytes, the staging name is assumed to be unused, a rename is one step, and a step that reports success is assumed to have happened.
- SnapshotExport.Export: whether writing an entry works is a parameter; what a failed export leaves behind is not claimed, because the old snapshot is removed before the new one is renamed.
- QueryFilter.ParseQuery: local time is an arbitrary calendar, and the built-in extension table is part of the set of registered extensions.
- DrillSearch.Client.Search: the engine, the file name tests and the composition of the content query are functions; error texts and loading of the client are not modelled.
- DrillSearch.DrillIsSound: that the private engine honours candidates is a hypothesis.
- WorkerArguments.RunIndexWorker: stops where the arguments have been read; opening the diagnostic file and the index operation itself are modelled elsewhere or not at all.
- CommandLine.TakeApartCommand: program names hold no quote and do not end in a backslash, as the launcher's fixed file name guarantees; characters are ASCII after widening.
- WindowsFrontend.NoWorkerIsLostIff: within one process of the frontend; a worker that outlives the window is outside the claim.
- WindowsFrontend.Frontend.OnTimer: whether a refresh is due and the runtime is idle is one parameter; DailyRefresh models the schedule.
- LinuxFrontend.Frontend.OnIdle: the event loop, drawing and the text of the search box are reduced to which kind of rows the box asks for and how many are found.
- PackageClosure.InstalledPackages: the text of the package database and the stripping of version constraints and architecture qualifiers (`dependency_alternatives`) are not modelled, names come as lists; sorting the result is left out.
- DailyRefresh.RefreshesAreThrottled: the clock does not go back, and before every restart the last record was saved.
- ShellQuoting.QuoteIsLiteral: expansions happen after reading and are represented by the mark that a character is quoted; here-documents and multi-character operators are not modelled.
- ShellQuoting.WorkingDirectorySurvivesBothLevels: the rest of the script is arbitrary text behind the helper's path; the later quoted path of the runtime library is covered by QuoteInContext only.
- SearchableFiles.TableHas: the two built-in tables are parameters, and that the table is sorted is a hypothesis.
- Font settings, agent commands, autocomplete, process control, demo results, drawing, gestures and the frontend lease: user interface and I/O.
- Build, install and audit scripts other than the dependency closure.
