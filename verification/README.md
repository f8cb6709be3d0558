# A Dafny model of CredsForDevs

CredsForDevs backs up a credential vault, restores it, prunes old archives at a destination, and lets coding agents
reach an unlocked VS Code window through short-lived helper processes. This project models the parts of it where a
claim is about every tree, every run or every interleaving, and proves those claims.

| module | what it is about |
|---|---|
| `Retention` | which archives a window removes, and what any number of overlapping prunes and uploads leave |
| `ArchivePaths` | entry names: exclusion, normalisation, lexical containment |
| `BackupWalk` | the pruned depth-first walk of a tree |
| `BackupArchive` | tree to entries to tree, with vanishing files, hostile entries and the counts reported |
| `BackupInstall` | the staged restore as a protocol: failures at any step, other processes adding files meanwhile |
| `AwsSigV4` | percent-encoding, the canonical query, the canonical headers, the canonical request and its parser |
| `AzureSharedKey` | the string the shared key signs: fixed lines, stably sorted headers and query, read back |
| `AzureBlobTarget` | who owns a response and its deadline, the verified upload, the paged listing |
| `Tasks`, `ServerLifetime` | the choice `Task.WhenAny` makes; the drain, the deadline and the forced exit over discrete time |
| `WslPump` | two interleaved copy loops, their race with an interruption, and the loop itself over a reused buffer |
| `SessionTitle` | the scan of a transcript's tail against the scan of the whole transcript |
| `CallerIdentity` | the cleaned label, and the record that crosses the bridge |
| `Windows` | the read walk, the post walk, skipping dead windows, and the merge of several lists |

`Results`, `Text` and `Sorting` hold what the others share: splitting and joining, stable sorting, mapping and
filtering. `dafny verify dfyconfig.toml` checks everything.

How things are represented:

- A file system is a map from paths (sequences of names) to folders and files; an archive is the list of its
  authenticated tar entries. Where a class in the model has mutable fields (`BackupArchive.Disk`, the streams of
  `WslPump`, the owned resources of `AzureBlobTarget`, `Windows.BrokerClient`) the program changes that thing in place.
- Concurrent code is a state machine: an action is one step of the process, of one of the tasks it races, or of the
  world outside, and a theorem quantifies over every sequence of enabled actions. What the process itself can do it
  does before the clock moves; a run, a client, a parent, a signal, a stream or a callback may take any time at all.
- Time is a natural number; archive instants are ticks of 100 ns from the start of the calendar. An exception is the
  error of a `Result`. What JSON or XML readers, the network, the process table and Unicode tables answer are
  parameters, and nothing is assumed of them but what a `requires` clause says.

## What turned out not to hold as written

- **Verification accepts a name that restoring refuses.** An entry named `./` passes `Verify`, whose purpose is to say
  whether a restore would be safe, and is refused by `Extract` (`ArchivePaths.VerifyAcceptsADotThatExtractionRefuses`;
  `TargetExactly` gives the exact difference).
- **The archive round trip fails for names holding a backslash.** On Linux such a name is one segment; it comes back as
  two. The round trip is exact if and only if no archived name holds one (`BackupArchive.RoundTripExactly`,
  `ABackslashDoesNotSurvive`).
- **A restore into the file system's root never succeeds.** The staging folder is made inside the destination then, so
  the check before the move always finds it occupied (`BackupInstall.TheRootIsNeverInstalled`). Everywhere else a
  restore can succeed if and only if the destination is absent or an empty folder, nothing that is a file lies on the
  way to the staging folder, and the archive unpacks (`InstallableExactly`).
- **A destination taken during the opening strands a decrypted tree.** The second check is outside the part that names
  the staging path in its message, so the exit leaves the complete tree beside the destination with nothing said of it,
  against the policy stated at src_minimalapi_server/src/BackupArchive.cs:288-292. `ATakenDestinationStrandsTheTree` is such a run;
  `RefusedInstallKeepsTheTree` and `RefusedUpFrontStagesNothing` say what each refusal leaves.
- **A partial listing is not dangerous to retention.** The comment in the listing loop fears that the floor would
  measure the wrong set; a partial listing can only remove less (`Retention.PartialListingRemovesLess`).
- **Retention can empty the target's own folder.** A listing shows every name under the prefix, folders below included,
  while a delete reaches the own folder only; a young archive in a folder below keeps the floor from holding, and every
  archive a delete can reach may go (`Retention.AnOwnFolderIsEmptied`). A prune by itself leaves one there if and only
  if there was one and, when anything is removed, one of them is at or after the cutoff (`OwnFolderKeepsOneExactly`).
  Over every interleaving the own folder keeps one if each decision is anchored in it (`OwnFolderKeepsOne`), which is
  always so when everything is stored there (`AnOwnStoreKeepsOne`).
- **A retention window can be refused by the calendar.** The settings accept any window of at least a day; one that
  reaches back past the first day raises an exception, exactly then, and would have had nothing to remove
  (`Retention.ExpiredThrowsExactly`, `AThrowingPassDeletesNothing`).
- **The forced exit can fire on a server that has finished.** If a cancellation callback holds `CancelAsync` past the
  deadline, the run may be long over (`ServerLifetime.AHeldCancellationForcesAFinishedRun`; `ForcedExactly` says when
  it fires).
- **An interruption that completes first is not always the pump's ending.** If the Windows half has left by the time
  the race is entered, or the client has and the Windows half leaves before the outcome is looked at, argument order
  decides (`WslPump.FirstInterruptionExactly`, `AnInterruptionIsOvertaken`).
- **A failed copy toward the child is never reported.** The ending depends on the order of completions and on how the
  downstream copy ended, and an exception comes out if and only if that copy failed and was the last to be waited for
  (`WslPump.EndingExactly`); how the upstream copy ended shows in no run (`UpstreamNeverShows`). So a lost client message
  can end as an orderly hang-up (`ALostMessageIsNotReported`).
- **A cleaned label is not always trimmed.** The cap is applied after the join, so a cut between two words leaves one
  trailing space (`CallerIdentity.EndsInSpaceExactly`, `ALabelMayEndInASpace`).
- **The paged listing ends only if the service's pages do.** It ends if and only if some page names no next one or does
  not come (`AzureBlobTarget.EndsExactly`); a first page whose marker goes on naming itself is followed for ever
  (`AListingMayNeverEnd`).

## Model

| member | source | states |
|---|---|---|
| Retention.ExpiredExactly | src_minimalapi_server/src/ArchiveTarget.cs:132-143 | an archive is removed if and only if it is ours, older than the window, and some archive of ours is not: never all of them |
| Retention.ExpiredKeepsOrder | src_minimalapi_server/src/ArchiveTarget.cs:132-143 | what is removed comes in the order of the listing, as often as it is listed |
| Retention.PartialListingRemovesLess | src_minimalapi_server/src/AzureBlobTarget.cs:52-71 | what is removed on the strength of part of a listing is removed on the strength of all of it |
| Retention.StepKeepsSound | src_minimalapi_server/src/BackupRunner.cs:391-417 | each upload, page, decision or delete of any of the overlapping passes keeps a stored archive at or after the highest cutoff acted on |
| Retention.NeverTheLastArchive | src_minimalapi_server/src/ArchiveTarget.cs:132-143 | over every interleaving of uploads and prunes with stale listings, arbitrary clocks and windows, a prefix that held an archive of ours still holds one, in its folder or below, no older than any cutoff acted on |
| Retention.APassMayBeGivenUp | src_minimalapi_server/src/BackupRunner.cs:391-417 | the interleavings are all there: an upload can land inside any pass, and any pass can stop with no more deleted |
| Retention.OwnFolderKeepsOneExactly | src_minimalapi_server/src/AzureBlobTarget.cs:133-194 | a prune by itself leaves the own folder an archive if and only if it had one and, when anything is removed, one there is at or after the cutoff |
| Retention.OwnFolderKeepsOne | src_minimalapi_server/src/BackupRunner.cs:391-417 | over every interleaving the own folder keeps an archive when each decision finds one there at or after its cutoff |
| Retention.AnOwnStoreKeepsOne | src_minimalapi_server/src/ArchiveTarget.cs:132-143 | a destination with everything in the own folder never loses its last archive there |
| Retention.AnOwnFolderIsEmptied | src_minimalapi_server/src/AzureBlobTarget.cs:133-194 | one prune that deletes the own folder's only archive |
| Retention.ExpiredThrowsExactly | src_minimalapi_server/src/ArchiveTarget.cs:139 | the rule raises an exception if and only if the window reaches back past the start of the calendar |
| Retention.AThrowingPassDeletesNothing | src_minimalapi_server/src/BackupRunner.cs:391-417 | such a pass ends with everything stored, and no archive was old enough to go |
| Retention.OnlyExpiredArchivesLeave | src_minimalapi_server/src/BackupRunner.cs:391-417 | an object that is gone was ours, in the target's own folder, and older than a cutoff acted on |
| ArchivePaths.ExcludedIsInherited | src_minimalapi_server/src/BackupArchive.cs:120-135 | everything below an excluded path is excluded, whatever the names are made of |
| ArchivePaths.ExcludedExactly | src_minimalapi_server/src/BackupArchive.cs:120-135 | whatever its separators, a path is excluded if and only if a segment of it ends in .tmp, in letters of either case, or it begins with `org`, `backup` |
| ArchivePaths.NormalisedExactly | src_minimalapi_server/src/BackupArchive.cs:134-146 | a backslash is a slash; the walk's name loses the slashes at both ends and an entry's name those at its end, and nothing else |
| ArchivePaths.OutsideExactly | src_minimalapi_server/src/BackupArchive.cs:508-514 | a target is outside exactly when the destination is not a proper ancestor of it, the root included |
| ArchivePaths.SafeNameExactly | src_minimalapi_server/src/BackupArchive.cs:450-484 | a name with no destination is refused if and only if it is empty, starts at the root, has a segment of two dots, or on Windows holds a colon |
| ArchivePaths.RefusalNamesTheEntry | src_minimalapi_server/src/BackupArchive.cs:450-484 | a refusal names the entry as it was written in the archive |
| ArchivePaths.TargetExactly | src_minimalapi_server/src/BackupArchive.cs:450-496 | which names are accepted, and that an accepted one lands strictly below the destination, at its own segments |
| ArchivePaths.VerifyAcceptsADotThatExtractionRefuses | src_minimalapi_server/src/BackupArchive.cs:443-455 | a name that is safe by itself and has no place below a destination |
| ArchivePaths.OrdinaryNamesAreAccepted | src_minimalapi_server/src/BackupArchive.cs:450-496 | every path of plain names, spelled as an entry, is accepted and comes back as itself |
| BackupWalk.EnumerationOrderIsErased | src_minimalapi_server/src/BackupArchive.cs:224-235 | the listing of a folder does not depend on the order the file system enumerates in |
| BackupWalk.WalkParentsFirst | src_minimalapi_server/src/BackupArchive.cs:205-222 | no path is visited twice and every folder is visited before what it holds |
| BackupWalk.PruningIsFiltering | src_minimalapi_server/src/BackupArchive.cs:205-222 | never entering an excluded folder yields the full walk with the exclusions filtered out, in the same order |
| BackupWalk.WalkIsCanonical | src_minimalapi_server/src/BackupArchive.cs:193-222 | a list is the walk if and only if it holds the tree's paths that are not excluded in depth-first order with sorted siblings, so one tree has one archive |
| BackupWalk.WalkExactly | src_minimalapi_server/src/BackupArchive.cs:190-222 | what a backup visits: every path of the tree that is not excluded, and nothing else |
| BackupWalk.VisitedExactly | src_minimalapi_server/src/BackupArchive.cs:120-132 | by the names alone: a path of the tree is visited if and only if no name on it ends in .tmp in any case and it is not at or below `org/backup` |
| BackupWalk.BackupTreeNeverTravels | src_minimalapi_server/src/BackupArchive.cs:130-132 | nothing at or below `org/backup` is ever visited |
| BackupArchive.WriteEntries | src_minimalapi_server/src/BackupArchive.cs:173-188 | the loop emits an entry for each visited path that is still there, and reports the rest as skipped |
| BackupArchive.EntryExactly | src_minimalapi_server/src/BackupArchive.cs:252-270 | a folder is sealed under its path and a slash, a file under its path with its bytes |
| BackupArchive.Disk.ReadArchive | src_minimalapi_server/src/BackupArchive.cs:360-441 | the loop leaves the disk and the answer that taking the entries one by one gives, stopping at the first that is refused |
| BackupArchive.VerifyExactly | src_minimalapi_server/src/BackupArchive.cs:105-107 | checking writes nothing and passes exactly when every name is safe and every kind restorable |
| BackupArchive.OpeningExactly | src_minimalapi_server/src/BackupArchive.cs:399-441 | with a destination, an opening fails if and only if it comes to an unsafe name, an unsupported kind or something in the way, and says which; otherwise it has taken and counted every entry |
| BackupArchive.ExtractionIsConfined | src_minimalapi_server/src/BackupArchive.cs:399-441 | whatever an archive holds, opening it changes nothing that was there and adds only below the destination |
| BackupArchive.OpeningUndoesSealing | src_minimalapi_server/src/BackupArchive.cs:173-270 | whatever vanished meanwhile, opening what was sealed rebuilds it with its folders and reports the same numbers |
| BackupArchive.RoundTripExactly | src_minimalapi_server/src/BackupArchive.cs:360-441 | tree to archive to tree is exact if and only if no archived name holds a backslash |
| BackupArchive.ABackslashDoesNotSurvive | src_minimalapi_server/src/BackupArchive.cs:134-146 | a concrete tree that does not come back |
| BackupArchive.CountsAreTheTrees | src_minimalapi_server/src/BackupArchive.cs:237-270 | the counts reported are the numbers of files and folders archived and the bytes those files hold |
| BackupInstall.TakeAlike | src_minimalapi_server/src/BackupArchive.cs:399-441 | an entry does the same in a staging folder on a busy disk as in an empty one |
| BackupInstall.NextKeepsSafe | src_minimalapi_server/src/BackupArchive.cs:272-358 | every step of a restore, failing or not, and every addition by others, keeps the restore's invariant |
| BackupInstall.NeverPartOfTheArchive | src_minimalapi_server/src/BackupArchive.cs:93-103 | until the move, nothing at the destination comes from the archive |
| BackupInstall.OthersLoseAtMostAnEmptyFolder | src_minimalapi_server/src/BackupArchive.cs:333-358 | nothing anyone else put there is taken away but one empty folder at the destination |
| BackupInstall.SuccessIsComplete | src_minimalapi_server/src/BackupArchive.cs:93-103 | an installed restore holds the whole archive and leaves no staging folder |
| BackupInstall.TheMoveIsExact | src_minimalapi_server/src/BackupArchive.cs:351-358 | at the instant the destination appears it holds the archive's tree and nothing else |
| BackupInstall.RefusedInstallKeepsTheTree | src_minimalapi_server/src/BackupArchive.cs:317-331 | all three failing exits of the commit, the second check, the clearing of an empty folder and the move, leave the complete tree at the staging path for good |
| BackupInstall.RefusedUpFrontStagesNothing | src_minimalapi_server/src/BackupArchive.cs:96-99 | a restore refused by the first check leaves nothing at the staging path |
| BackupInstall.AnOccupiedDestinationIsRefused | src_minimalapi_server/src/BackupArchive.cs:96-99 | a destination that holds something is refused by the first check in every run, and nothing is ever staged |
| BackupInstall.ACleanedOpeningLeavesNothing | src_minimalapi_server/src/BackupArchive.cs:272-305 | a failed opening that was cleaned up has left nothing at the staging path, for good, and taken nothing of anyone else's |
| BackupInstall.StagingIsLeftExactly | src_minimalapi_server/src/BackupArchive.cs:285-331 | of all the ends without an install, the staging folder is still there in exactly four: the cleanup failed, or the commit did in one of its three ways |
| BackupInstall.AFailedOpeningCanBeCleanedUp | src_minimalapi_server/src/BackupArchive.cs:272-305 | from any state of an opening, or of its cleanup, a run reaches the clean end |
| BackupInstall.ATakenDestinationStrandsTheTree | src_minimalapi_server/src/BackupArchive.cs:317-319 | a run in which the second check refuses what the first let through, with the whole tree staged |
| BackupInstall.FaultFreeInstalls | src_minimalapi_server/src/BackupArchive.cs:93-103 | from a free destination the run in which nothing fails installs an archive that unpacks |
| BackupInstall.InstallableExactly | src_minimalapi_server/src/BackupArchive.cs:93-103 | a restore can succeed if and only if the destination is free and not the root, no file is in the staging folder's way, and the archive unpacks |
| BackupInstall.TheRootIsNeverInstalled | src_minimalapi_server/src/BackupArchive.cs:96-101 | a restore into the file system's root can never succeed |
| BackupInstall.RestoreReproducesTheTree | src_minimalapi_server/src/BackupArchive.cs:93-103 | in every run that installs, what appears at the destination is exactly the tree that was sealed, less what is excluded |
| BackupInstall.ASealedTreeIsRestored | src_minimalapi_server/src/BackupArchive.cs:93-103 | end to end: a sealed tree's fault-free restore into a free destination installs, and installs that tree |
| AwsSigV4.Encode | src_minimalapi_server/src/AwsSigV4.cs:101-111 | the loop writes the percent-encoding of section 2.1 of RFC 3986 of every byte in order |
| AwsSigV4.DecodingUndoesEncoding | src_minimalapi_server/src/AwsSigV4.cs:101-111 | percent-decoding gives back every byte string |
| AwsSigV4.EncodedByteExactly | src_minimalapi_server/src/AwsSigV4.cs:101-111 | a byte is itself if it is a letter, a digit or one of four marks, or a slash where slashes are kept, and otherwise a percent sign and its two digits in capital hexadecimal |
| AwsSigV4.EncodedAlphabet | src_minimalapi_server/src/AwsSigV4.cs:190-194 | an encoded name or value holds nothing but unreserved characters and escapes |
| AwsSigV4.QueryIsLossless | src_minimalapi_server/src/AwsSigV4.cs:114-121 | splitting and decoding the query string gives back the parameters with their multiplicities |
| AwsSigV4.QueryExactly | src_minimalapi_server/src/AwsSigV4.cs:114-121 | two parameter lists have one query string if and only if they are rearrangements of each other |
| AwsSigV4.QueryAscends | src_minimalapi_server/src/AwsSigV4.cs:114-121 | in the string itself, split at its separators: names never descend in ordinal order, nor do the values under one name |
| Sorting.LteExactly | src_minimalapi_server/src/AwsSigV4.cs:119 | ordinal order: a prefix comes first, and otherwise the first symbol that differs decides |
| AwsSigV4.Collapse | src_minimalapi_server/src/AwsSigV4.cs:153-162 | the loop with its open-run flag computes the trimmed value with every run of blanks as one space |
| AwsSigV4.CollapsedIsTidy | src_minimalapi_server/src/AwsSigV4.cs:153-176 | the result has no white space at its ends, no tab, and no two spaces in a row |
| AwsSigV4.TrimmedExactly | src_minimalapi_server/src/AwsSigV4.cs:157 | trimming takes all the white space at both ends and nothing between them |
| AwsSigV4.WhiteExactly | src_minimalapi_server/src/AwsSigV4.cs:157 | which symbols are white space, one by one |
| AwsSigV4.CollapsedExactly | src_minimalapi_server/src/AwsSigV4.cs:153-176 | what comes out is the words of the trimmed text, all of them in order, one space between each two |
| AwsSigV4.TidyIsFixed | src_minimalapi_server/src/AwsSigV4.cs:153-176 | such a value is left as it is |
| AwsSigV4.CanonicalisedExactly | src_minimalapi_server/src/AwsSigV4.cs:144-151 | every lower-cased name once, strictly ascending, with its values collapsed and joined in the order given |
| AwsSigV4.HeaderValueExactly | src_minimalapi_server/src/AwsSigV4.cs:144-151 | the value under a name is the words of each value given for it, one space between words and one comma between values, in the order given |
| AwsSigV4.LowerNameExactly | src_minimalapi_server/src/AwsSigV4.cs:148 | a canonical name is letter by letter the small letters of the name given |
| AwsSigV4.CanonicalHeadersExactly | src_minimalapi_server/src/AwsSigV4.cs:144-151 | two header lists canonicalise alike if and only if every name has the same joined value in both |
| AwsSigV4.ReorderingNamesIsErased | src_minimalapi_server/src/AwsSigV4.cs:144-151 | any reordering that keeps each name's values in order changes nothing |
| AwsSigV4.CanonicalisingTwiceIsOnce | src_minimalapi_server/src/AwsSigV4.cs:144-176 | the canonical list is a normal form |
| AwsSigV4.RequestReadsBackExactly | src_minimalapi_server/src/AwsSigV4.cs:125-134 | the canonical request is read back part by part if and only if no part holds a newline and no header name a colon |
| AwsSigV4.SignedHeadersReadBackExactly | src_minimalapi_server/src/AwsSigV4.cs:78-84 | of a request that reads back, the signed-header list read back is the header names in order if and only if there are headers and no name holds a semicolon |
| AwsSigV4.CanonicalRequestExactly | src_minimalapi_server/src/AwsSigV4.cs:78-84 | equal canonical requests come from equal requests, up to how each header's values are spelled |
| AwsSigV4.RequestByLines | src_minimalapi_server/src/AwsSigV4.cs:125-134 | which line of the canonical request holds what: verb, path, query, the headers, an empty line, the names, the payload's hash |
| AwsSigV4.ANewlineMakesBlocksCollide | src_minimalapi_server/src/AwsSigV4.cs:125-134 | why the condition is needed: two header lists with one block |
| AzureSharedKey.StableSortExactly | src_minimalapi_server/src/AzureSharedKey.cs:86-112 | two lists sort by name alike if and only if every name has the same values in the same order |
| AzureSharedKey.StringToSignExactly | src_minimalapi_server/src/AzureSharedKey.cs:64-116 | two requests have one string to sign if and only if they agree on method, fixed headers, length, account and path, and name by name on the x-ms- headers and the query |
| AzureSharedKey.FixedLinesByPosition | src_minimalapi_server/src/AzureSharedKey.cs:64-80 | the first twelve lines, each in its place: the verb, the length, and each of the ten headers by name with the value of the first header of that name in any case |
| AzureSharedKey.OtherLinesByPosition | src_minimalapi_server/src/AzureSharedKey.cs:86-110 | the lines after them: x-ms- headers ascending by name with trimmed values, the account and path, the query ascending by name; values of one name in the order given |
| AzureSharedKey.UpperExactly | src_minimalapi_server/src/AzureSharedKey.cs:66 | the verb is written letter by letter in capitals |
| AzureSharedKey.ASlashInTheAccountCollides | src_minimalapi_server/src/AzureSharedKey.cs:103-105 | without the condition on the account, two requests with one string |
| AzureSharedKey.AColonInANameCollides | src_minimalapi_server/src/AzureSharedKey.cs:103-110 | without the condition on names, two requests with one string |
| AzureSharedKey.ANewlineInAValueCollides | src_minimalapi_server/src/AzureSharedKey.cs:103-110 | without the condition on newlines, two requests with one string |
| AzureSharedKey.LengthLineExactly | src_minimalapi_server/src/AzureSharedKey.cs:69-71 | two lengths are written alike if and only if they are equal or both written as nothing |
| AzureSharedKey.RepeatedNamesKeepTheirOrder | src_minimalapi_server/src/AzureSharedKey.cs:103-110 | swapping two values of one query name changes what is signed |
| AzureBlobTarget.Target.AnsweredAsync | src_minimalapi_server/src/AzureBlobTarget.cs:292-309 | a response is owned before its error body is read, and is disposed when that read throws |
| AzureBlobTarget.Target.TrySendAsync | src_minimalapi_server/src/AzureBlobTarget.cs:253-281 | an answer owns an undisposed response and deadline; without one the response and the deadline source have been disposed |
| AzureBlobTarget.Target.SendAsync | src_minimalapi_server/src/AzureBlobTarget.cs:246-251 | on every path, exceptional ones included, the response and the deadline source have been disposed |
| AzureBlobTarget.Target.VerifiedAsync | src_minimalapi_server/src/AzureBlobTarget.cs:115-131 | the same, and the outcome the stored length calls for |
| AzureBlobTarget.Target.PutAsync | src_minimalapi_server/src/AzureBlobTarget.cs:41-50 | an upload that was accepted is verified with one more request, and one that was not is reported as it is with none |
| AzureBlobTarget.Target.PageAsync | src_minimalapi_server/src/AzureBlobTarget.cs:133-159 | the body is read while its deadline still exists, and both are disposed on every path |
| AzureBlobTarget.Target.ListAsync | src_minimalapi_server/src/AzureBlobTarget.cs:52-71 | the loop ends on every finite chain of markers with the listing the chain calls for, every response and deadline source disposed |
| AzureBlobTarget.Response.ReadBody | src_minimalapi_server/src/AzureBlobTarget.cs:171-181 | a body is read only from a live response under a live deadline |
| AzureBlobTarget.ThrownExactly | src_minimalapi_server/src/AzureBlobTarget.cs:312-313 | what leaves as an exception is exactly what was raised and not expected: the caller's own cancellation, never a connection failure |
| AzureBlobTarget.StoredExactly | src_minimalapi_server/src/AzureBlobTarget.cs:41-50 | an upload is fine if and only if both answers were successes and the stored length is the one sent; otherwise it is reported as the first that was not |
| AzureBlobTarget.FailedExactly | src_minimalapi_server/src/AzureBlobTarget.cs:312-330 | what each kind of failure is reported as, and that nothing else is reported so |
| AzureBlobTarget.WrongLengthExactly | src_minimalapi_server/src/AzureBlobTarget.cs:115-131 | a wrong length is reported if and only if the answer was a success with another length or none, with the length that is stored |
| AzureBlobTarget.ListedExactly | src_minimalapi_server/src/AzureBlobTarget.cs:52-71 | a listing is reported if and only if every page arrived and was read, and is their concatenation in order; otherwise it is the first page that did not |
| AzureBlobTarget.EndsExactly | src_minimalapi_server/src/AzureBlobTarget.cs:52-71 | the loop ends if and only if the pages do: with one that names no next, or with one that does not come |
| AzureBlobTarget.AListingMayNeverEnd | src_minimalapi_server/src/AzureBlobTarget.cs:52-71 | a whole listing, from the empty marker, that is followed for ever |
| Tasks.WhenAnyExactly | src_mcp/src/ServerLifetime.cs:56 | of tasks already done the first in argument order, otherwise the first to complete |
| Tasks.ChosenExactly | src_mcp/src/ServerLifetime.cs:56 | the same by place: a task wins over those asked for after it and loses to those asked for before it |
| ServerLifetime.StepKeepsSound | src_mcp/src/ServerLifetime.cs:46-77 | every step keeps the timing, cancellation and attribution invariant |
| ServerLifetime.ShutdownIsBounded | src_mcp/src/ServerLifetime.cs:56-77 | while neither returned nor forced out, at most drain and deadline have passed since end-of-stream, and at most the deadline since a signal or the parent's loss |
| ServerLifetime.EveryLongRunEnds | src_mcp/src/ServerLifetime.cs:56-77 | some step is always possible and time is never held, so every run longer than the bound and twelve steps is over |
| ServerLifetime.CancellationHasACause | src_mcp/src/ServerLifetime.cs:56-75 | the token is cancelled at the instant of a signal or a parent's loss or at the very end of the drain, and never once the run was over |
| ServerLifetime.ForcedExactly | src_mcp/src/ServerLifetime.cs:70-75 | forced out at most once, past the deadline, with the ending a return gives, and always when the run or the cancellation came later |
| ServerLifetime.AHeldCancellationForcesAFinishedRun | src_mcp/src/ServerLifetime.cs:70-75 | a schedule in which the forced exit fires on a finished run |
| ServerLifetime.EndingExactly | src_mcp/src/ServerLifetime.cs:80-99 | the code is the shell's for the signal, 129, 130, 131 or 143, if and only if the signal won the race or cut the drain, and 0 otherwise with the reason that won |
| ServerLifetime.ReturnExactly | src_mcp/src/ServerLifetime.cs:63-67 | a run that is over gives its own exception if and only if it faulted, or was cancelled though the token never was, and the ending otherwise; neither comes before the run is over |
| ServerLifetime.WinnerExactly | src_mcp/src/ServerLifetime.cs:56 | the order in which the race asks: the run, the client, the parent, the signal |
| ServerLifetime.CutExactly | src_mcp/src/ServerLifetime.cs:92-99 | the order in which the drain asks: the run, the window, the parent, the signal |
| ServerLifetime.WithoutADrainNothingCuts | src_mcp/src/ServerLifetime.cs:92-99 | without a drain an end-of-stream that wins the race is the ending |
| ServerLifetime.EndingIsFinal | src_mcp/src/ServerLifetime.cs:56-76 | nothing that arrives after the ending is chosen changes it or the time of cancellation |
| WslPump.Carry | src_mcp/src/WslPump.cs:257-266 | through one reused buffer, everything to the end in order and flushed, or a prefix and a failure |
| WslPump.CarryThenClose | src_mcp/src/WslPump.cs:269-281 | the same, and the far end is closed whichever way it went |
| WslPump.MoveKeepsFaithful | src_mcp/src/WslPump.cs:257-281 | each read, write, flush, failure or close of a copy keeps the far end a prefix of what was read |
| WslPump.EveryPortioningArrives | src_mcp/src/WslPump.cs:257-281 | however the bytes are portioned out to reads that fit the buffer, a copy in which nothing fails delivers and flushes them all |
| WslPump.BytesArriveInOrder | src_mcp/src/WslPump.cs:180-196 | under every interleaving each far end holds a prefix of what the other side sent |
| WslPump.AHangUpLosesNothing | src_mcp/src/WslPump.cs:204-229 | a hang-up whose downstream finished delivered and flushed every byte of both sides, the copy toward the child not having failed, and closed the child's stdin |
| WslPump.WaitIsBounded | src_mcp/src/WslPump.cs:194-229 | the wait after a hang-up is at most the bound; an interruption or the Windows half's leaving is answered at once |
| WslPump.WaitIsExact | src_mcp/src/WslPump.cs:213-229 | the wait is given up at the bound and not before, and a bound of nothing is no wait |
| WslPump.WinnerExactly | src_mcp/src/WslPump.cs:193 | the order in which the race asks: the client's copy, the Windows half's, the interruption |
| WslPump.LastExactly | src_mcp/src/WslPump.cs:221 | the order in which the wait asks: the Windows half's copy, the interruption, the window |
| WslPump.EndingExactly | src_mcp/src/WslPump.cs:194-229 | each ending, and the exception, as an if-and-only-if in the order of completions and the downstream copy's own end |
| WslPump.UpstreamNeverShows | src_mcp/src/WslPump.cs:191-229 | two runs with the same completions and the same downstream end alike, however the copy toward the child ended |
| WslPump.EveryLongRunEnds | src_mcp/src/WslPump.cs:194-229 | a step is always possible and time is never held, so a run with more than six steps past the bound, moves of bytes apart, is over |
| WslPump.FirstInterruptionExactly | src_mcp/src/WslPump.cs:194-207 | when an interruption that came first is the ending |
| WslPump.AnInterruptionIsOvertaken | src_mcp/src/WslPump.cs:194-207 | a schedule in which it is not |
| WslPump.ALostMessageIsNotReported | src_mcp/src/WslPump.cs:204-229 | a schedule in which a client message is lost and the ending is an orderly hang-up |
| SessionTitle.FromTail | src_broker_client/src/SessionTitle.cs:126-140 | the loop finds the last non-blank title of each kind among the scanned lines |
| SessionTitle.LastTitleExactly | src_broker_client/src/SessionTitle.cs:177-190 | the title of the last line that has one, and none only when no line has one |
| SessionTitle.TitleInExactly | src_broker_client/src/SessionTitle.cs:177-190 | a line gives a title of a kind if and only if it begins with that kind's record and what is read in it is not blank |
| SessionTitle.TailAgreesExactly | src_broker_client/src/SessionTitle.cs:126-173 | for every file and cut the tail's title is empty or the file's, and is the file's if and only if the file has none or its line starts after the first newline in the tail |
| SessionTitle.TailStartExactly | src_broker_client/src/SessionTitle.cs:218-224 | the tail is the last 64 KiB of the file, or all of a shorter one |
| SessionTitle.ChoiceExactly | src_broker_client/src/SessionTitle.cs:70-85 | the choice among the rungs equals the one over the whole file if and only if the tail reaches the titles that decide, or the next rung spells the one it does not reach |
| CallerIdentity.CleanIsALine | src_broker_client/src/CallerIdentity.cs:335-362 | at most eighty code points, no control, format or separator, no leading space, no two spaces in a row |
| CallerIdentity.CleanExactly | src_broker_client/src/CallerIdentity.cs:335-362 | the label is the text's words in order, one space between each two, cut after eighty code points |
| CallerIdentity.CleanKeepsTheLetters | src_broker_client/src/CallerIdentity.cs:335-362 | the label holds the text's own symbols in order: all of them, or those the cap leaves |
| CallerIdentity.FixedExactly | src_broker_client/src/CallerIdentity.cs:335-362 | a text is left alone if and only if it is a short enough line that does not end in a space |
| CallerIdentity.CleaningTwice | src_broker_client/src/CallerIdentity.cs:335-362 | cleaning again takes off one trailing space at most and is then a fixed point |
| CallerIdentity.EndsInSpaceExactly | src_broker_client/src/CallerIdentity.cs:335-362 | the trailing space is there if and only if the cap cuts just after one |
| CallerIdentity.ALabelMayEndInASpace | src_broker_client/src/CallerIdentity.cs:335-362 | a label that is not trimmed |
| CallerIdentity.DecodedIsClean | src_broker_client/src/CallerIdentity.cs:382-401 | whatever arrives, every field of what is read is a label, and of what cannot be read is empty |
| CallerIdentity.BridgeRoundTrip | src_broker_client/src/CallerIdentity.cs:375-401 | crossing the bridge takes trailing spaces and nothing else, is exact if and only if there are none, and is exact the second time |
| Windows.ReadFrom | src_mcp/src/Windows.cs:67-83 | every window is asked once in order; answers come in that order and refusals are counted |
| Windows.LiveExactly | src_broker_client/src/Endpoints.cs:110-143 | an announcement is skipped if and only if it names a process that does not exist or has exited; a doubtful one stays |
| Windows.LiveReadsTheSameExactly | src_broker_client/src/Endpoints.cs:110-143 | skipping dead windows reads the same if and only if none of them answers the probe as ours |
| Windows.NoAnswerExactly | src_mcp/src/Tools.cs:242-255 | "no window" is said if and only if no probe succeeded |
| Windows.PostTo | src_mcp/src/Windows.cs:141-157 | the loop posts to, and answers from, the windows the walk calls for |
| Windows.PostWalkExactly | src_mcp/src/Windows.cs:141-161 | the reply is that of the first window of ours that does not mean "not mine"; all of ours up to it were posted to and none after it |
| Windows.LivePostsTheSameExactly | src_broker_client/src/Endpoints.cs:110-143 | skipping dead windows posts and answers the same if and only if no dead window was posted to |
| Windows.Merge | src_mcp/src/Tools.cs:187-202 | the nested loops and their set of seen ids list the merge of all the entries |
| Windows.MergedExactly | src_mcp/src/Tools.cs:187-202 | exactly the first entry of every id, in the order the windows gave them |
| Windows.MergedIdsDiffer | src_mcp/src/Tools.cs:187-202 | no id is listed twice |
| Windows.MergeOfMoreBodies | src_mcp/src/Tools.cs:187-202 | merging more answers adds their unseen ids at the end and changes nothing before |

## Left out

- HMAC, SHA-256, AES-GCM, gzip, tar bytes, JSON and XML: library code. The canonical request is modelled up to the text
  that is hashed; an archive is its list of entries.
- Files the chunk format and cipher live in, and the parsing of archive names: `InstantOf` is any partial function.
- Links: `RefuseLinkedComponents` narrows a race it cannot close, so the staging tree is taken to hold none.
- Unreadable folders: the walk's empty listing for a folder removed or locked under it; a vanished or unreadable file
  is modelled, and counted as skipped.
- Windows path rules beyond the refusal of a colon; lower-casing and case-insensitive endings beyond ASCII; unpaired
  surrogates.
- Staging, opening and moving are steps of a state machine rather than methods of one object, because other processes
  change the same disk between them. `ServerLifetime.RunAsync` and `WslPump.PumpAsync` are state machines for the same
  reason: what they race is not theirs to call.
- The timer that is disposed while its callback is already running, and a cancellation callback that throws.
- `ChildLifetime`, `SettleAsync` and the grace given to a child after the pump has returned.
- The announcements' reading and sorting (`Endpoints.Read`): an unstable sort whose ties are unspecified.
- Windows.ReadFrom: a window's answers are taken not to change during one walk.
- AzureBlobTarget.Target.ListAsync: it is called only where the pages run out; elsewhere the program's loop does not end.
- AzureBlobTarget.Target.SendAsync: the request message and its content are not modelled; the program disposes neither.
- Retention.NeverTheLastArchive: the archive that stays may be in a folder below the target's own; the lemmas about the
  own folder say when one stays there.
- `UsableAsync` and `S3Target`: the same sends with other sentences.
