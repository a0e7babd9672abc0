# Reveille, modelled and proved

Reveille is a launcher for Medal of Honor: Allied Assault. It lists servers, tells whether the local
game files can play what a server runs, copies and repairs installations, switches game engines and
shows the player's match on Discord. This project models the parts of it whose correctness depends on
state, order and failure, and proves what they promise.

| files | what they model |
|---|---|
| `Ledger.dfy`, `ServerList.dfy`, `ListRuns.dfy` | the server list shared by sweeps, checks and joins, and every interleaving of them |
| `Disk.dfy`, `Install.dfy`, `InstallationCopy.dfy` | the all-or-nothing copy of an installation on a disk where any operation may fail |
| `MapFiles.dfy`, `MapIndex.dfy`, `MapOffers.dfy`, `Preflight.dfy`, `Join.dfy`, `Lookups.dfy`, `ClientWatch.dfy` | from game folders, and what the catalogue offers, to the decision to launch, and to the end of the match |
| `Calendar.dfy`, `Timestamp.dfy`, `Base64.dfy`, `Shell.dfy`, `Frames.dfy` | calendar arithmetic and the text and binary formats, each against an independent reader |
| `Presence.dfy`, `PresenceRuns.dfy` | the Discord status, with exchanges that finish at any time |
| `Engines.dfy`, `EngineRuns.dfy`, `SearchPath.dfy` | engine switching, and where a replacement package must be written |
| `Common.dfy`, `Text.dfy`, `Discovery.dfy` | shared types, strings and the server record |

How the main results are stated:

- **Server list.** `Ledgers` says what one lock scope does to a map from endpoints to servers. The
  class `ServerList.Listing` does the same on the vector, set and count map of the program, and each
  method is proved to be that change. `ListRuns` then quantifies over every interleaving of lock
  scopes, with tickets used in any order and any number of times. No sweep is assumed to list distinct
  endpoints: the vector answers with its first row, and so does the map.
- **Copy.** `Disk` records every state it has been in. `CopyInstallation` proves of each of them that
  a crash there leaves nothing at the staging folder or the destination that `identify` would accept
  unless it is the whole source, and the source's own tree exactly as it was; the states in which a
  failed copy is being cleared away are told apart, and it proves exactly which of those are safe. It
  also proves what success and failure leave behind, that success needs a feasible copy, and that a
  feasible copy succeeds on a disk that does not fail.
- **Launch.** `MapOffers` ties the index to the files: every readable map file of the search path is
  found under its name, nothing else is, and which file wins. `LaunchGoesAhead` then runs from folders
  and packages to the launch gate: whatever the catalogue answered, a launch goes ahead exactly when
  the engine itself plays the map the server runs, and either the player consents or the engine plays
  every map of a published rotation.
- **Engines and presence.** Both are functions of their inputs and faults, or runs over events, and the
  program's classes are proved to follow them. `EachAnswerHasItsCase`, `InstallSucceeds` and
  `SwitchSucceeds` say when each answer comes; `StateFollowsEvents` reads the presence off the events.

Where the code does less than its name or its documentation says, the model keeps the code and proves
exactly when the promise holds:

- `Timestamp.ReadsBackFromEpochOn`, `Timestamp.DateTimeUntilYear10000`: a time before 1970 is printed
  as 1970, and from year 10000 on the text is no date-time of RFC 3339.
- `ListRuns.RetiredTicketReturnsOnWrap`, `ListRuns.WrapMiscountsJoins`: the list generation wraps, so
  a retired ticket is honoured again after exactly a multiple of 2^64 foreground sweeps, and a run of
  2^64 sweeps exists whose join counts are wrong.
- `Shell.LineSetsVariableIff`: the printed command sets a variable instead of running the program
  exactly when the program's name needs no quoting and looks like an assignment.
- `EngineRuns.OriginalComesBack`, `EngineRuns.InterruptedSaveIsRestored`: a copy aside that fails
  part-way stays, and is taken for the original from then on. Activating Original brings a program back
  exactly when it had no saved copy before the install, or the same one.
- `SearchPaths.ReplacementIsSeen`, `SearchPaths.RepeatedFolderHidesReplacement`: on a path that leaves
  a folder and returns to it the replacement can stay hidden. The paths the program builds never do
  that, even when the home folder is the installation itself.
- `InstallationCopies.Feasible`, which `CopyInstallation` proves every success to meet, and
  `InstallationCopies.MarkerFolderIsAccepted`: an installation that holds a *folder* named like the
  incomplete-copy marker is identified, but can never be copied.
- `InstallationCopies.CopyInstallation`, `InstallationCopies.MarkerOutlivesData` and
  `InstallationCopies.MarkerMayGoFirst`: the incomplete-copy marker is documented to keep a failed copy
  unidentifiable even if clearing it away is interrupted. The marker is removed with everything else, in
  the order of the file system. A state on the way is safe exactly when the marker is still there, or no
  data directory is, or the whole source; a removal that comes to the marker first passes through a
  state that is identified although files are missing.
- `Frames.FrameReadsBack`: a frame over 64 KiB is written but refused by the reader.
- `Engines.NeverAnotherEngine`, `Engines.NothingInstalledPicksOriginal`: without a request or a saved
  choice, Original is the answer on Windows even when no original program is there. The engine picked
  is there exactly when it was requested, was saved, or anything is installed.
- `Engines.FailedOverlayRestores`, `Engines.StuckReplacementStays`: undoing a failed overlay ignores
  its own errors, so everything is restored exactly when each replacement that changed something is
  undone.

## Model

| member | source | states |
|---|---|---|
| ServerList.ViewOfRetained | crates/reveille-app/src/servers/mod.rs:191-195 | retaining rows by endpoint restricts what the list answers to the endpoints kept |
| ServerList.ViewOfAppended | crates/reveille-app/src/servers/mod.rs:196 | rows appended at the back only answer for endpoints not listed before them |
| ServerList.ReplacedRows | crates/reveille-app/src/servers/mod.rs:180-196 | the final report takes over exactly the endpoints that are not owned, and lists none twice |
| ServerList.StreamedRows | crates/reveille-app/src/servers/mod.rs:180-196 | streamed rows take over exactly the endpoints they name, owned ones excepted |
| ServerList.MergedRows | crates/reveille-app/src/servers/check.rs:127-131 | a merged server is the only answer at its endpoint and every other answer stays |
| ServerList.Listing.Find | crates/reveille-app/src/servers/mod.rs:59-75 | the search of the vector answers as the map does, and refuses another game |
| ServerList.Listing.FindForJoin | crates/reveille-app/src/servers/mod.rs:103-122 | a join owns the endpoint it found and is counted there; a failed one changes nothing |
| ServerList.Listing.BeginSweep | crates/reveille-app/src/servers/mod.rs:125-136 | a new generation starts with nothing listed, owned or joining |
| ServerList.Listing.BeginBackgroundSweep | crates/reveille-app/src/servers/mod.rs:138-151 | a sweep of the listed game keeps the list and the generation, and only joins stay owned |
| ServerList.Listing.UpdateSweep | crates/reveille-app/src/servers/mod.rs:173-211 | the vector changes as the map: owned endpoints are untouched, and a retired ticket changes nothing |
| ServerList.Listing.SettleCheck | crates/reveille-app/src/servers/check.rs:56-111 | a check that is still wanted owns the endpoint it asked about; an answer for this game is found at its own endpoint, any other outcome leaves the endpoint asked about gone, and every other row stays |
| ServerList.Listing.Forget | crates/reveille-app/src/servers/check.rs:137-141 | only the entry of the endpoint asked about goes |
| ServerList.Listing.Release | crates/reveille-app/src/servers/mod.rs:84-95 | ending a join takes one from its count and removes a count of zero, in the current list only |
| ListRuns.JoinsAreCounted | crates/reveille-app/src/servers/mod.rs:84-151 | in every reachable state each count is the number of live joins there, never zero, and each such endpoint is owned |
| ListRuns.RetiredDropIsIdle | crates/reveille-app/src/servers/mod.rs:84-95 | dropping an ownership of a replaced list changes nothing |
| ListRuns.AcceptedMeansCurrent | crates/reveille-app/src/servers/mod.rs:199-211 | a ticket is honoured exactly when no foreground sweep began since it was issued and its game is listed |
| ListRuns.ListedServersAreCurrent | crates/reveille-app/src/servers/mod.rs:173-211 | every server ever listed was delivered under a ticket of the current list, for its game |
| ListRuns.JoinTargetIsKept | crates/reveille-app/src/servers/mod.rs:102-151 | until a join ends, only a foreground sweep or a check asked about or answered from its endpoint changes its answer |
| ListRuns.ClaimLastsUntilNextSweep | crates/reveille-app/src/servers/mod.rs:161-197 | what a check or join claims keeps its answer, or its absence, until the next sweep begins |
| ListRuns.ReportSupersedesStream | crates/reveille-app/src/servers/browse.rs:196-201 | whatever was streamed, the closing report leaves exactly the owned entries and itself |
| ListRuns.ReportClosesRun | crates/reveille-app/src/servers/browse.rs:196-201 | after any sweeps, checks, joins and background sweeps, the closing report leaves the entries owned at that moment and itself everywhere else |
| ListRuns.ReportKeepsClaims | crates/reveille-app/src/servers/mod.rs:161-197 | an endpoint claimed at any point keeps its answer, or its absence, through the closing report |
| ListRuns.SweepAnswers | crates/reveille-app/src/servers/mod.rs:161-197 | after a batch every lookup, case by case: owned endpoints answer as before, the first row named answers elsewhere, and only a final report withdraws what it does not name |
| ListRuns.CheckAnswers | crates/reveille-app/src/servers/check.rs:56-111 | after a check every lookup, case by case, and what is owned then |
| ListRuns.JoinAnswers | crates/reveille-app/src/servers/mod.rs:103-122 | a join answers what a lookup does, changes no answer, and owns the endpoint it found |
| ListRuns.FailedCheckForgets | crates/reveille-app/src/servers/check.rs:60-72 | a check without an answer for this game leaves its endpoint gone at once, and gone until the next sweep begins or a check is answered from there |
| ListRuns.AnsweredCheckIsFound | crates/reveille-app/src/servers/check.rs:80-141 | a check answered for this game is found at its endpoint until a sweep begins or another check is about it |
| ListRuns.SweepBeginsAnew | crates/reveille-app/src/servers/mod.rs:125-136 | a foreground sweep withdraws every server, owns nothing, and its own ticket is honoured |
| ListRuns.BackgroundReleasesChecks | crates/reveille-app/src/servers/mod.rs:138-151 | a background sweep keeps every answer, and then an endpoint is owned exactly when a join of it is running |
| ListRuns.DropAnswers | crates/reveille-app/src/servers/mod.rs:84-95 | the end of a join changes no answer, and its endpoint stays owned |
| ListRuns.FoundIsWanted | crates/reveille-app/src/servers/mod.rs:59-75 | in every run a lookup only answers a server delivered for the endpoint and the game asked for |
| ListRuns.RetiredTicketReturnsOnWrap | crates/reveille-app/src/servers/mod.rs:125-136 | a ticket is honoured after n further sweeps exactly when n is a multiple of 2^64 |
| ListRuns.WrapMiscountsJoins | crates/reveille-app/src/servers/mod.rs:84-136 | a run of exactly 2^64 foreground sweeps after which a live join is no longer counted |
| ListRuns.Replay | crates/reveille-app/src/servers/mod.rs:97-211 | driven through any interleaving, the vector answers every lookup as the map does |
| InstallationCopies.CopyInstallation | crates/reveille-platform/src/installation_copy.rs:226-361 | every state leaves the source's tree and everything else that existed as it was, and is safe to crash in, except exactly those of clearing away a failed copy that the marker has left before the data; success needs a feasible copy and leaves the source's tree and nothing else; a cleaned-up failure leaves the disk as it was but for parent folders made once every check has passed; without faults a feasible copy succeeds; an error tells a fact, and Cancelled is answered exactly when the caller said so |
| InstallationCopies.MarkerOutlivesData | crates/reveille-platform/src/installation_copy.rs:546-560 | a removal that leaves the marker until the data directories have gone exposes nothing |
| InstallationCopies.MarkerMayGoFirst | crates/reveille-platform/src/installation_copy.rs:546-560 | a removal that comes to the marker first passes through a state that is identified without the file the copy held |
| InstallationCopies.MarkerFolderIsAccepted | crates/reveille-core/src/install.rs:172-237 | a folder in the marker's place does not keep an installation from being identified |
| InstallationCopies.Transfer | crates/reveille-platform/src/installation_copy.rs:265-361 | the guard always names where the copy is; what is there is rejected or complete; an unchanging source never reads as changed |
| InstallationCopies.FillStaging | crates/reveille-platform/src/installation_copy.rs:268-338 | the staging folder is the marked whole source, and the last report is the plan |
| InstallationCopies.CopyTree | crates/reveille-platform/src/installation_copy.rs:275-309 | every entry is copied once, and every state on the way is marked |
| InstallationCopies.CopyFile | crates/reveille-platform/src/installation_copy.rs:415-490 | the chunks add up to the file, at a path that did not exist; the caller is asked before every chunk and told after each, at most 1 MiB or one file further than before |
| InstallationCopies.Prepare | crates/reveille-platform/src/installation_copy.rs:238-265 | nothing is written before every check passes, and then only parent folders outside the source and an empty staging folder; a failed check leaves the disk untouched |
| InstallationCopies.MeasureInstallation | crates/reveille-platform/src/installation_copy.rs:118-143 | bytes and files of the whole tree, refused exactly when one overflows 64 bits |
| InstallationCopies.TotalsIgnoreOrder | crates/reveille-platform/src/installation_copy.rs:118-143 | what is measured does not depend on the order of the walk, so measuring and copying agree |
| InstallationCopies.TotalsWithout | crates/reveille-platform/src/installation_copy.rs:118-143 | each file counts for its length and for one file, and nothing else counts |
| InstallationCopies.ValidateDestination | crates/reveille-platform/src/installation_copy.rs:363-391 | a destination passes exactly when it climbs nowhere and its parent is not inside the source |
| InstallationCopies.AllocateStaging | crates/reveille-platform/src/installation_copy.rs:393-413 | a fresh sibling of the destination, unless all 64 names are taken |
| InstallationCopies.StagingNamesDiffer | crates/reveille-platform/src/installation_copy.rs:394-398 | the names tried are all different |
| InstallationCopies.PartialCopy.Drop | crates/reveille-platform/src/installation_copy.rs:546-560 | what is left is marked before any of it is removed, then goes entry by entry, and once cleaned the disk is as before the copy |
| InstallationCopies.PartialIsSafe | crates/reveille-platform/src/installation_copy.rs:196-202 | a copy under way changes nothing that existed, adds nothing below the source, and is complete wherever it would be accepted |
| InstallationCopies.MovedIntoPlace | crates/reveille-platform/src/installation_copy.rs:339-343 | the rename moves the whole tree and changes nothing else |
| Installations.AcceptedFolder | crates/reveille-core/src/install.rs:172-237 | a folder is identified exactly when it holds a data directory and no marker, and each rejection has its own cause |
| Installations.InstallationMeans | crates/reveille-core/src/install.rs:172-237 | products in order of release, expansions playable only over main, and binaries and evidence are what is in the folder |
| MapFiles.SpellingIsIgnored | crates/reveille-core/src/mapindex.rs:24-34 | names that differ in letter case or slash direction have one key |
| Text.LettersFold | crates/reveille-core/src/mapindex.rs:24-34 | exactly the 26 capital letters fold, each to its small one |
| MapFiles.FileIsFoundByName | crates/reveille-core/src/mapindex.rs:24-34 | a file below maps is found under the bare name a server publishes |
| MapFiles.BspPathIsLong | crates/reveille-core/src/mapindex.rs:600-612 | cutting the display name out of an accepted path stays inside it |
| MapFiles.GreatestSortsLast | crates/reveille-core/src/mapindex.rs:257-308 | the greatest package name is added last |
| MapFiles.FailureKeepsPrefix | crates/reveille-core/src/mapindex.rs:340-388 | an archive that fails part-way keeps exactly the entries before the failure |
| MapFiles.AdditionOrderReversed | crates/reveille-core/src/mapindex.rs:248-308 | reversing the order of addition is the engine's newest-first search, for every key |
| MapOffers.FilesAreIndexed | crates/reveille-core/src/mapindex.rs:248-495 | every readable map file of a scanned chain is among the providers found under the map's bare name, however either is spelled |
| MapOffers.ProvidersAreFiles | crates/reveille-core/src/mapindex.rs:248-495 | every provider under a key is a readable BSP below maps of the chain, whose own key that is |
| MapOffers.ShownAsLoaded | crates/reveille-core/src/mapindex.rs:487-521 | a map is shown as the file the engine loads spells it |
| MapOffers.OuterSpaceIsIgnored | crates/reveille-core/src/mapindex.rs:24-34 | white space around a name does not count |
| MapOffers.PackageNames | crates/reveille-core/src/mapindex.rs:257-308 | everything named .pk3 is a package, and so is a folder named .pk3dir, in any letter case |
| MapOffers.BspNames | crates/reveille-core/src/mapindex.rs:600-612 | a BSP is a file whose name ends in .bsp, in any letter case, after something else |
| MapOffers.BadEntriesAreReported | crates/reveille-core/src/mapindex.rs:340-388 | every reached archive entry that names a map and whose header is bad is reported with its reason |
| MapOffers.BadFilesAreReported | crates/reveille-core/src/mapindex.rs:421-485 | so is every such file of a package folder or loose in a directory |
| MapOffers.LastDirectoryWins | crates/reveille-core/src/mapindex.rs:248-255 | the last directory of a chain that provides a map decides which file is loaded |
| MapOffers.LooseFileWins | crates/reveille-core/src/mapindex.rs:257-308 | in a directory a loose file decides a map, whatever its packages hold |
| MapOffers.GreatestPackageWins | crates/reveille-core/src/mapindex.rs:257-308 | otherwise it is a package, and none whose name sorts later provides the map |
| MapOffers.GreatestFileWins | crates/reveille-core/src/mapindex.rs:421-485 | among the files of one tree the last in the order of folded paths wins |
| MapOffers.NamesFoldFirst | crates/reveille-core/src/mapindex.rs:257-308 | package names compare as if in small letters before case counts |
| MapOffers.NamesInOrder | crates/reveille-core/src/mapindex.rs:257-308 | small and capital letters are one letter until nothing else tells two names apart |
| MapIndexes.MapIndex.ScanChain | crates/reveille-core/src/mapindex.rs:248-255 | the index holds for every key exactly what the engine's lookup finds, in its order, and every count matches |
| MapIndexes.MapIndex.ScanDirectory | crates/reveille-core/src/mapindex.rs:257-308 | one folder adds its packages in name order, then its loose files |
| MapIndexes.MapIndex.ScanArchive | crates/reveille-core/src/mapindex.rs:340-388 | entries are added up to the first that cannot be read, and the archive is then reported as failed |
| MapIndexes.MapIndex.ScanTree | crates/reveille-core/src/mapindex.rs:421-485 | the usable BSP files of a tree are added in folded path order, and every candidate is counted |
| MapIndexes.MapIndex.Add | crates/reveille-core/src/mapindex.rs:487-495 | the newest provider is appended and the display name becomes its spelling |
| MapIndexes.MapIndex.UpdateStats | crates/reveille-core/src/mapindex.rs:505-521 | each provider list is reversed once, and maps with several providers are counted |
| MapIndexes.EveryPackageCounted | crates/reveille-core/src/mapindex.rs:257-308 | every package is counted as an archive, as a package folder, or as skipped |
| Preflight.Check | crates/reveille-core/src/preflight.rs:78-151 | the single pass with its set and counters gives the report defined map by map |
| Preflight.FirstsAreExact | crates/reveille-core/src/preflight.rs:88-90 | checked names keep published order, and are exactly those that repeat no earlier key |
| Preflight.EveryKeyOnce | crates/reveille-core/src/preflight.rs:88-90 | every key of the rotation is checked once and only once |
| Preflight.VerdictMeans | crates/reveille-core/src/preflight.rs:139-150 | Compatible exactly when every checked map is present; counters are the numbers of results, and at most one map differs |
| Preflight.StatusMeans | crates/reveille-core/src/preflight.rs:91-136 | over a scanned index a status is a fact about the copy the engine loads |
| Joining.ReadinessIsStatus | crates/reveille-core/src/join.rs:117-222 | readiness is the status of the current map itself, whatever spelling the rotation used |
| Joining.UnknownIsSilence | crates/reveille-core/src/join.rs:204-222 | Unknown exactly when the server names no usable current map |
| Joining.ReadinessMeans | crates/reveille-core/src/join.rs:137-222 | over a scanned index Playable exactly when the engine finds the map and no published checksum contradicts it, else Missing |
| Joining.AllPresentMeans | crates/reveille-core/src/join.rs:117-175 | AllPresent exactly when a rotation is published and every name of it, and the current map if it is named, is present |
| Joining.NoSourceMeans | crates/reveille-core/src/join.rs:74-105 | the state of every assessment: the maps needed are the distinct keys, and names without a key, that are not present, and no source is only concluded when each was looked up and none is offered |
| Joining.LaunchPermitted | crates/reveille-app/src/join/mod.rs:500-523 | exactly when a launch goes ahead, in terms of every name of the rotation and the current map, and that a refusal is reported for its own reason |
| Joining.PresentMeans | crates/reveille-core/src/preflight.rs:91-136 | over a scanned index a name is present exactly when the engine finds a map of it and the checksum the server published is not another |
| Joining.EvidenceIsKept | crates/reveille-core/src/join.rs:117-175 | every name of the rotation and the current map has its own result in the assessment |
| Joining.NoEvidence | crates/reveille-core/src/join.rs:117-175 | there is no result exactly when the server published neither a rotation nor a usable current map |
| Joining.LaunchGoesAhead | crates/reveille-app/src/join/mod.rs:500-514 | from folders to launch: exactly when the engine plays the running map, and the player consents or the engine plays every map of a published rotation |
| Joining.LaunchSurvivesArrival | crates/reveille-app/src/join/mod.rs:500-514 | from folders to launch: a permitted launch finds the running map in the copy the engine loads |
| Lookups.LookUpMaps | crates/reveille-app/src/catalogue/mod.rs:371-409 | in any order of answers every map's lookup is begun once, at most four at a time, nothing answered is lost, and it fails exactly when all lookups did |
| Lookups.BestMatchMeans | crates/reveille-app/src/catalogue/mod.rs:413-423 | the pick is for exactly this map, with a file if any has one, and the first such |
| ClientWatches.ClientWatch.Read | crates/reveille-app/src/join/mod.rs:439-454 | what one poll means, from everything polled before it |
| ClientWatches.WatchGameExit | crates/reveille-app/src/join/mod.rs:458-490 | a match is over at the first poll without a client, or lost at the fourth unreadable one in a row and then only counted up to the last sighting |
| Calendar.CivilIsValid | crates/reveille-app/src/telemetry/mod.rs:1244-1255 | every day number, negative ones included, names a date of the calendar |
| Calendar.EpochIsDayZero | crates/reveille-app/src/telemetry/mod.rs:1244-1255 | day 0 is 1970-01-01 |
| Calendar.CivilSteps | crates/reveille-app/src/telemetry/mod.rs:1244-1255 | the next day number names the calendar's next date |
| Calendar.CivilInvertsCount | crates/reveille-app/src/telemetry/mod.rs:1244-1255 | counting the days up to the date gives the day number back |
| Calendar.CountInvertsCivil | crates/reveille-app/src/telemetry/mod.rs:1244-1255 | every valid date is the date of its day count |
| Calendar.CivilIsMonotone | crates/reveille-app/src/telemetry/mod.rs:1244-1255 | later days have later dates |
| Timestamp.TimestampRoundTrip | crates/reveille-app/src/telemetry/mod.rs:1228-1241 | before year 10000 the text is a date-time of section 5.6 of RFC 3339 that reads back to the millisecond |
| Timestamp.DateTimeUntilYear10000 | crates/reveille-app/src/telemetry/mod.rs:1228-1241 | the text is such a date-time exactly before year 10000 |
| Timestamp.ReadsBackFromEpochOn | crates/reveille-app/src/telemetry/mod.rs:1229 | the instant itself is read back exactly when it is not before 1970 |
| Timestamp.TimestampsSortByTime | crates/reveille-app/src/telemetry/mod.rs:1228-1241 | texts compare as their times do, to the millisecond |
| Timestamp.FirstDay | crates/reveille-app/src/telemetry/mod.rs:1228-1241 | on the first day the fields are the hours, minutes, seconds and milliseconds that have passed |
| Base64.Base64 | crates/reveille-app/src/catalogue/mod.rs:867-884 | the loops push the encoding of section 4 of RFC 4648 |
| Base64.DecodeEncode | crates/reveille-app/src/catalogue/mod.rs:867-884 | decoding gives the bytes back |
| Base64.EncodeDecode | crates/reveille-app/src/catalogue/mod.rs:867-884 | every text a strict decoder accepts is the encoding of what it decodes to |
| Base64.EncodedLength | crates/reveille-app/src/catalogue/mod.rs:867-884 | four characters for every three bytes begun |
| Base64.PaddingIsLast | crates/reveille-app/src/catalogue/mod.rs:867-884 | padding stands only at the end of the last quantum, as much as bytes are missing |
| Base64.KnownTexts | crates/reveille-app/src/catalogue/mod.rs:1218-1224 | the vectors of section 10 of RFC 4648 and one from the end of the alphabet |
| Base64.Alphabet | crates/reveille-app/src/catalogue/mod.rs:867-884 | the letters are those of table 1 of RFC 4648, in its order |
| Shell.CommandReadsBack | crates/reveille-cli/src/main.rs:945-963 | splitting and unquoting as in section 2.2 of the POSIX shell language returns the program and its arguments |
| Shell.PrintedAsIs | crates/reveille-cli/src/main.rs:953-963 | a part is printed as it is exactly when it is not empty and made of the characters that need no quoting |
| Shell.LineSetsVariableIff | crates/reveille-cli/src/main.rs:953-963 | exactly when the first word would be an assignment instead of a program |
| Shell.AssignmentShapedProgram | crates/reveille-cli/src/main.rs:953-963 | a program name that is printed bare and sets a variable |
| Frames.FrameReadsBack | crates/reveille-app/src/presence/mod.rs:347-378 | a frame reads back, whatever follows, exactly when its body is within the limit |
| Frames.FramesReadBack | crates/reveille-app/src/presence/mod.rs:347-378 | any sequence of frames written back to back reads back with nothing left over |
| Frames.CutFrameIsTruncated | crates/reveille-app/src/presence/mod.rs:361-378 | a frame cut short anywhere is not taken for a shorter one |
| Frames.ReadingIsUnique | crates/reveille-app/src/presence/mod.rs:361-378 | a stream reads as one sequence of frames |
| Frames.PongsReadBack | crates/reveille-app/src/presence/mod.rs:276-294 | what the other side reads is the pongs and nothing else |
| Frames.FrameMeans | crates/reveille-app/src/presence/mod.rs:361-378 | what any bytes are read as: least byte first, a length above 64 KiB refused before the body and a body that is no JSON after |
| Frames.OnTheWire | crates/reveille-app/src/presence/mod.rs:347-359 | the first eight bytes of a handshake, a message, a ping and a pong |
| Frames.Pipe.MessagesKeepIt | crates/reveille-app/src/presence/mod.rs:276-294 | a message never closes a held connection, and only an error refuses what is waited for |
| Frames.Pipe.ReadFrame | crates/reveille-app/src/presence/mod.rs:361-378 | reading header and body piece by piece is reading the first frame |
| Frames.Pipe.WriteFrame | crates/reveille-app/src/presence/mod.rs:347-359 | a frame goes out in full, or some part of it does and the write fails |
| Frames.Pipe.Serve | crates/reveille-app/src/presence/mod.rs:276-294 | until it is stopped, anywhere in a frame, exactly the bodies of the pings received go back, in order; and why it closed |
| Frames.Pipe.AwaitReply | crates/reveille-app/src/presence/mod.rs:329-343 | the reply is found exactly when it comes before any refusal, and every ping before it is answered |
| Frames.Pipe.SetActivity | crates/reveille-app/src/presence/mod.rs:296-325 | the request follows the greeting, success follows its own answer, and a failure has sent the exchange up to there and at most a part of its next frame |
| Presences.State.SetEnabled | crates/reveille-app/src/presence/mod.rs:89-95 | the choice is what was asked for; repeating it changes nothing, and turning it on publishes the match being played under a new attempt |
| Presences.State.Begin | crates/reveille-app/src/presence/mod.rs:97-102 | a new match gets an id never used before and replaces what is showing |
| Presences.State.End | crates/reveille-app/src/presence/mod.rs:104-113 | only the current match can be ended |
| Presences.State.Keep | crates/reveille-app/src/presence/mod.rs:116-122 | a connection is kept exactly when its attempt is the latest |
| Presences.State.Reset | crates/reveille-app/src/presence/mod.rs:125-133 | what is showing goes, and a shared match is published under a new attempt |
| PresenceRuns.ShowsTheCurrentMatch | crates/reveille-app/src/presence/mod.rs:88-134 | after every run a held connection shows the last match started and not closed, and sharing was last turned on; such a match is shown unless its own exchange is under way or failed |
| PresenceRuns.StateFollowsEvents | crates/reveille-app/src/presence/mod.rs:88-134 | after every run sharing is the last choice made, and the current match is the last one started unless it was closed |
| PresenceRuns.KeptUnlessChanged | crates/reveille-app/src/presence/mod.rs:240-265 | an exchange is kept exactly when nothing changed since it was published |
| PresenceRuns.AttemptCountsChanges | crates/reveille-app/src/presence/mod.rs:125-133 | the attempt stays the same exactly through events that change nothing shown |
| PresenceRuns.LaterMatchUntouched | crates/reveille-app/src/presence/mod.rs:104-113 | once a later match has started, closing the earlier one changes nothing, ever |
| PresenceRuns.TakeStep | crates/reveille-app/src/presence/mod.rs:88-134 | the state takes every step of a run and publishes what the run publishes |
| PresenceRuns.Replay | crates/reveille-app/src/presence/mod.rs:88-134 | the shared state goes through every run, and every exchange under way was published |
| Engines.NeverAnotherEngine | crates/reveille-platform/src/engine.rs:204-237 | a request or a saved choice is never replaced by another engine, and what is picked is there to run exactly when it was requested, was saved, or anything is installed |
| Engines.EachAnswerHasItsCase | crates/reveille-platform/src/engine.rs:204-237 | every success and every error comes in exactly its own case |
| Engines.AvailableMeans | crates/reveille-platform/src/engine.rs:141-197 | when each engine counts as installed, in terms of its files and the state file |
| Engines.SupportedEngines | crates/reveille-platform/src/engine.rs:214-236 | Windows runs every engine, macOS only OpenMoHAA, and no other host any |
| Engines.NothingInstalledPicksOriginal | crates/reveille-platform/src/engine.rs:204-237 | in an empty folder Original is picked on Windows and is not there |
| Engines.TransactionalOverlay | crates/reveille-core/src/platform/package.rs:135-233 | the loops of replacing and undoing leave what is left of each program's replacement, and every state between two steps has each program old or new and none missing |
| Engines.FailedOverlayRestores | crates/reveille-core/src/platform/package.rs:135-233 | nothing changes before the first replacement, and a failed overlay restores everything exactly when each replacement that changed something is undone |
| Engines.StuckReplacementStays | crates/reveille-core/src/platform/package.rs:225-233 | an overlay that fails and leaves a program replaced |
| Engines.SavesOnlyThese | crates/reveille-platform/src/engine.rs:328-343 | only programs of the package get a saved copy, at most one is cut short and then the pass fails, and a finished pass has saved every program that needed it |
| Engines.SavesNoReborn | crates/reveille-platform/src/engine.rs:328-343 | a program known to be Reborn's is not saved as an original, unless it could not be read |
| Engines.InstallMeans | crates/reveille-platform/src/engine.rs:306-385 | nothing changes unless the game is confirmed stopped; no program is replaced before every original is saved whole; each program is then old or new, never in between |
| Engines.InstallSucceeds | crates/reveille-platform/src/engine.rs:306-385 | an install succeeds exactly on Windows, with the game confirmed stopped, when the state can be read and written, every original is saved and both overlays complete |
| Engines.InstallRecords | crates/reveille-platform/src/engine.rs:306-385 | a finished install records every copy it saved, and keeps what was recorded before |
| Engines.NoOriginalIsLost | crates/reveille-platform/src/engine.rs:306-385 | wherever an install stops or crashes, an original program is still active, or saved in full unless it was saved before |
| Engines.SwitchMeans | crates/reveille-platform/src/engine.rs:244-291 | nothing changes unless the game is confirmed stopped, each program is then as it was or as managed, and success makes every managed program active |
| Engines.SwitchSucceeds | crates/reveille-platform/src/engine.rs:244-291 | a switch succeeds exactly to an engine this host runs and that is here, when nothing has to be replaced, or the game is confirmed stopped, the overlay completes and the state can be read and written |
| Engines.EngineFolder.InstallReborn | crates/reveille-platform/src/engine.rs:306-385 | with any faults the folder ends as the install defined step by step, and every state a crash may leave is one an unfinished install may |
| Engines.EngineFolder.SaveOriginals | crates/reveille-platform/src/engine.rs:328-343 | the pass saves what its definition says and records exactly the new copies |
| Engines.EngineFolder.CopyNoClobber | crates/reveille-platform/src/engine.rs:453-466 | an existing copy is never replaced, a failed one is cut short where the copying stopped, and a crash may cut it anywhere |
| Engines.EngineFolder.Activate | crates/reveille-platform/src/engine.rs:244-291 | with any faults the folder ends as the switch defined step by step, and every state a crash may leave is one an unfinished switch may |
| EngineRuns.NothingChangesWhileRunning | crates/reveille-platform/src/engine.rs:387-393 | over any stretch of a run without outside edits in which the game is never confirmed stopped, the folder stays as it is |
| EngineRuns.Replay | crates/reveille-platform/src/engine.rs:244-385 | the folder itself goes through every run, and through no state but those between its events or of an unfinished one |
| EngineRuns.SavedOriginalsStay | crates/reveille-platform/src/engine.rs:328-343 | over any run a saved original is never replaced and never lost |
| EngineRuns.OriginalComesBack | crates/reveille-platform/src/engine.rs:244-385 | install, anything, activate Original: the program is back byte for byte exactly when it had no other saved copy |
| EngineRuns.UnsavedProgramStays | crates/reveille-platform/src/engine.rs:264-281 | switching back leaves a program without a saved copy as it is |
| EngineRuns.InterruptedSaveIsRestored | crates/reveille-platform/src/engine.rs:453-466 | a concrete run, cut short once, that then succeeds and ends with a truncated program |
| SearchPaths.ReplacementIsSeen | crates/reveille-platform/src/lib.rs:592-613 | on any search path the replacement becomes the copy the engine sees, except exactly when the default folder first comes up after the outdated copy's folder, which comes up again after the default folder's last place |
| SearchPaths.InstallsWhere | crates/reveille-platform/src/lib.rs:592-613 | the default folder is chosen exactly when it is on the path and not searched after the outdated copy's folder |
| SearchPaths.DistinctReplacementIsSeen | crates/reveille-platform/src/lib.rs:592-613 | on a path that lists no folder twice the replacement is always seen |
| SearchPaths.RepeatedFolderHidesReplacement | crates/reveille-platform/src/lib.rs:592-613 | a path with a repeated folder on which it does not |
| SearchPaths.BuiltPathIsGrouped | crates/reveille-platform/src/lib.rs:617-634 | the paths the program builds never return to a folder, and list none twice unless home is the installation |
| SearchPaths.PathHolds | crates/reveille-core/src/join.rs:313-319 | the path holds the existing folders of the game and of no other, at home or installed |
| SearchPaths.HomeOutranks | crates/reveille-platform/src/lib.rs:617-634 | a home folder is searched before the installed one of its name |
| SearchPaths.ExpansionOutranks | crates/reveille-core/src/join.rs:305-319 | an expansion's folders are searched before both main folders |
| SearchPaths.ReplacementIsSeenOnBuiltPaths | crates/reveille-platform/src/lib.rs:592-634 | on every such path the replacement is what the engine sees next |

## Left out

- Parsing address texts: an address is parsed already, or is one that does not parse.
- A poisoned list mutex, the progress counters and channel of a sweep, and its cancellation: they do not touch the list.
- ListRuns.JoinsAreCounted: for fewer than 2^64 foreground sweeps, the bound `WrapMiscountsJoins` shows to be the best there is.
- PresenceRuns.KeptUnlessChanged: attempts and match ids are unbounded numbers, so a run of 2^64 changes is not modelled.
- Reading a source that changes during a copy: nothing else writes the disk, so the SourceChanged branch is proved never to be taken.
- Symbolic links, permissions, canonical paths and case-insensitive file names: the disk is a link-free tree of folders and files. Copying permissions is one more step that may fail.
- Free space and the staging name's process number are parameters of the copy.
- Engines.TransactionalOverlay: each replacement is one step, as the rename it ends in, and the temporary files beside it are not modelled.
- Engines.EngineFolder.InstallReborn: staging files in the managed folder are not modelled, and content stands for its digest.
- Read errors while taking the inventory of engines, and the checks of installed receipts against files.
- JSON: printing and parsing are parameters, with the one law that a printed value parses back.
- Deadlines of Discord exchanges: an exchange that runs out of time is one that fails.
- Which characters of a server name Discord is shown, and the text of the activity.
- Shell.CommandReadsBack: expansions, reserved words and aliases are not read; only sections 2.2 and 2.9.1 are.
- ZIP and BSP parsing: an archive entry carries its header, or the reason it has none, or ends the archive.
- Grouping of failed probes, discovery, downloads, telemetry delivery and everything in the interface.
